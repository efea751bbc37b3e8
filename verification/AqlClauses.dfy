/** What compiled WHERE clauses mean: the compiler and the machine together. */
module AqlClauses {
  import opened MachineWords
  import opened LogicVm
  import opened AqlCompiler

  // ------------------------------------------------- clauses and conditions

  /** At most one operator on each level: the sides that become a single prefix expression. */
  predicate SingleOperator(s: Side)
    decreases s
  {
    match s.ops
    case Done => true
    case Then(_, arg, rest) => rest.Done? && SingleArgument(arg)
  }

  predicate SingleArgument(a: Argument)
    decreases a
  {
    a.Group? ==> SingleOperator(a.side)
  }

  function LiteralExpr(l: Literal): Expr {
    match l case Name(n) => Var(n) case Number(v) => Const(v)
  }

  /** The expression that the first operator of a side makes with its two operands. */
  function SideExpr(s: Side): Expr
    decreases s
  {
    match s.ops
    case Done => LiteralExpr(s.first)
    case Then(op, arg, _) => Bin(op, LiteralExpr(s.first), ArgumentExpr(arg))
  }

  function ArgumentExpr(a: Argument): Expr
    decreases a
  {
    match a case Plain(l) => LiteralExpr(l) case Group(s) => SideExpr(s)
  }

  predicate SimpleClause(c: Clause) {
    SingleOperator(c.c.left) && SingleOperator(c.c.right) && (c.Link? ==> SimpleClause(c.rest))
  }

  function ComparisonCondition(c: Comparison): Condition {
    Cmp(c.rel, SideExpr(c.left), SideExpr(c.right))
  }

  function Join(k: Connective, c1: Condition, c2: Condition): Condition {
    match k case Conjunction => And(c1, c2) case Disjunction => Or(c1, c2)
  }

  /** The condition a clause stands for: connectives nest to the right. */
  function ClauseCondition(c: Clause): Condition {
    match c
    case Last(k) => ComparisonCondition(k)
    case Link(k, conn, rest) => Join(conn, ComparisonCondition(k), ClauseCondition(rest))
  }

  lemma {:induction false} SideCodeIsPrefix(s: Side, names: seq<string>)
    requires SingleOperator(s)
    ensures SideCode(s, names) == ExprCode(SideExpr(s), names)
    ensures SideResolved(s, names) == ExprResolved(SideExpr(s), names)
    decreases s
  {
    match s.ops
    case Done =>
    case Then(op, arg, rest) =>
      ArgumentCodeIsPrefix(arg, names);
      var lit := LiteralCode(s.first, names);
      var placed := OpCode(ARITH_OP, ArithCode(op)) + (lit + ArgumentCode(arg, names));
      assert OperatorsCode([], rest, names) == [];
      assert OperatorsResolved(rest, names);
      assert OperatorsCode(lit, s.ops, names) == placed + [] == placed;
  }

  lemma {:induction false} ArgumentCodeIsPrefix(a: Argument, names: seq<string>)
    requires SingleArgument(a)
    ensures ArgumentCode(a, names) == ExprCode(ArgumentExpr(a), names)
    ensures ArgumentResolved(a, names) == ExprResolved(ArgumentExpr(a), names)
    decreases a
  {
    if a.Group? {
      SideCodeIsPrefix(a.side, names);
    }
  }

  lemma {:induction false} ClauseCodeIsPrefix(c: Clause, names: seq<string>)
    requires SimpleClause(c)
    ensures ClauseCode(c, names) == ConditionCode(ClauseCondition(c), names)
    ensures ClauseResolved(c, names) == Resolved(ClauseCondition(c), names)
  {
    SideCodeIsPrefix(c.c.left, names);
    SideCodeIsPrefix(c.c.right, names);
    if c.Link? {
      ClauseCodeIsPrefix(c.rest, names);
    }
  }

  // ---------------------------------------------------------- variable slots

  function LiteralIdentifiers(l: Literal): seq<string> {
    if l.Name? then [l.name] else []
  }

  function SideIdentifiers(s: Side): seq<string>
    decreases s
  {
    LiteralIdentifiers(s.first) + OperatorIdentifiers(s.ops)
  }

  function OperatorIdentifiers(o: Operators): seq<string>
    decreases o
  {
    match o
    case Done => []
    case Then(_, arg, rest) => ArgumentIdentifiers(arg) + OperatorIdentifiers(rest)
  }

  function ArgumentIdentifiers(a: Argument): seq<string>
    decreases a
  {
    match a case Plain(l) => LiteralIdentifiers(l) case Group(s) => SideIdentifiers(s)
  }

  /** The variable names of a clause, in the order in which they are written. */
  function ClauseIdentifiers(c: Clause): seq<string> {
    SideIdentifiers(c.c.left) + SideIdentifiers(c.c.right)
    + (if c.Link? then ClauseIdentifiers(c.rest) else [])
  }

  function Distinct(ids: seq<string>): set<string> { set n | n in ids }

  function RegisterAll(names: seq<string>, ids: seq<string>): seq<string>
    decreases ids
  {
    if ids == [] then names else RegisterAll(Register(names, ids[0]), ids[1..])
  }

  lemma {:induction false} RegisterAllConcat(names: seq<string>, a: seq<string>, b: seq<string>)
    ensures RegisterAll(names, a + b) == RegisterAll(RegisterAll(names, a), b)
    decreases a
  {
    if a == [] {
      assert a + b == b;
    } else {
      assert (a + b)[1..] == a[1..] + b;
      RegisterAllConcat(Register(names, a[0]), a[1..], b);
    }
  }

  /** Registration is a walk over the identifiers, and a part of a clause is resolved when
      each of them has a slot. */
  lemma {:induction false} SideRegisters(s: Side, names: seq<string>, final: seq<string>)
    ensures SideNames(names, s) == RegisterAll(names, SideIdentifiers(s))
    ensures SideResolved(s, final) <==> forall n :: n in SideIdentifiers(s) ==> n in final
    decreases s
  {
    OperatorsRegister(s.ops, LiteralNames(names, s.first), final);
    RegisterAllConcat(names, LiteralIdentifiers(s.first), OperatorIdentifiers(s.ops));
    LiteralRegisters(s.first, names);
  }

  lemma LiteralRegisters(l: Literal, names: seq<string>)
    ensures LiteralNames(names, l) == RegisterAll(names, LiteralIdentifiers(l))
  {
    if l.Name? {
      assert [l.name][1..] == [];
      assert RegisterAll(Register(names, l.name), []) == Register(names, l.name);
    }
  }

  lemma {:induction false} OperatorsRegister(o: Operators, names: seq<string>, final: seq<string>)
    ensures OperatorNames(names, o) == RegisterAll(names, OperatorIdentifiers(o))
    ensures OperatorsResolved(o, final) <==> forall n :: n in OperatorIdentifiers(o) ==> n in final
    decreases o
  {
    match o
    case Done =>
    case Then(op, arg, rest) =>
      OperatorsRegister(rest, ArgumentNames(names, arg), final);
      RegisterAllConcat(names, ArgumentIdentifiers(arg), OperatorIdentifiers(rest));
      match arg
      case Plain(l) => LiteralRegisters(l, names);
      case Group(s) => SideRegisters(s, names, final);
  }

  lemma {:induction false} ClauseRegisters(c: Clause, names: seq<string>, final: seq<string>)
    ensures ClauseNames(names, c) == RegisterAll(names, ClauseIdentifiers(c))
    ensures ClauseResolved(c, final) <==> forall n :: n in ClauseIdentifiers(c) ==> n in final
  {
    var left, right := SideIdentifiers(c.c.left), SideIdentifiers(c.c.right);
    var mid := ComparisonNames(names, c.c);
    SideRegisters(c.c.left, names, final);
    SideRegisters(c.c.right, SideNames(names, c.c.left), final);
    RegisterAllConcat(names, left, right);
    var rest := if c.Link? then ClauseIdentifiers(c.rest) else [];
    RegisterAllConcat(names, left + right, rest);
    if c.Link? {
      ClauseRegisters(c.rest, mid, final);
    }
  }

  predicate NoDuplicates(names: seq<string>) {
    forall i, j :: 0 <= i < j < |names| ==> names[i] != names[j]
  }

  lemma {:induction false} DistinctSize(names: seq<string>)
    requires NoDuplicates(names)
    ensures |Distinct(names)| == |names|
  {
    if names != [] {
      var init, last := names[..|names| - 1], names[|names| - 1];
      DistinctSize(init);
      assert Distinct(names) == Distinct(init) + {last};
    }
  }

  lemma SubsetSize(a: set<string>, b: set<string>)
    requires a <= b
    ensures |a| <= |b|
  {
    assert b == a + (b - a);
  }

  /** Registration keeps all names as long as the slots suffice for them. */
  lemma {:induction false} RegistersDistinct(names: seq<string>, ids: seq<string>)
    requires NoDuplicates(names) && |names| <= MAX_VARIABLES
    ensures NoDuplicates(RegisterAll(names, ids)) && |RegisterAll(names, ids)| <= MAX_VARIABLES
    ensures Distinct(RegisterAll(names, ids)) <= Distinct(names) + Distinct(ids)
    ensures |Distinct(names) + Distinct(ids)| <= MAX_VARIABLES
            ==> Distinct(RegisterAll(names, ids)) == Distinct(names) + Distinct(ids)
    decreases ids
  {
    if ids == [] {
      assert Distinct(names) + Distinct(ids) == Distinct(names);
    } else {
      RegistersDistinct(Register(names, ids[0]), ids[1..]);
      assert Distinct(ids) == {ids[0]} + Distinct(ids[1..]);
      RegisterDistinct(names, ids[0], Distinct(ids[1..]));
    }
  }

  lemma RegisterDistinct(names: seq<string>, n: string, more: set<string>)
    requires NoDuplicates(names) && |names| <= MAX_VARIABLES
    ensures NoDuplicates(Register(names, n))
    ensures var all := Distinct(names) + ({n} + more);
            && Distinct(Register(names, n)) + more <= all
            && (|all| <= MAX_VARIABLES ==> Distinct(Register(names, n)) + more == all)
  {
    var all := Distinct(names) + ({n} + more);
    assert Distinct(names + [n]) == Distinct(names) + {n};
    if n in names {
      assert Distinct(names) + more == all;
    } else if |names| < MAX_VARIABLES {
      assert Distinct(names + [n]) + more == all;
    } else {
      DistinctSize(names + [n]);
      SubsetSize(Distinct(names + [n]), all);
    }
  }

  /** A clause has a slot for each of its variables exactly when it uses no more than
      LVM_MAX_VARIABLE_ID different names. */
  lemma SlotsSuffice(c: Clause)
    ensures ClauseResolved(c, ClauseNames([], c)) <==> |Distinct(ClauseIdentifiers(c))| <= MAX_VARIABLES
    ensures |ClauseNames([], c)| <= MAX_VARIABLES
  {
    var ids := ClauseIdentifiers(c);
    var final := RegisterAll([], ids);
    ClauseRegisters(c, [], final);
    RegistersDistinct([], ids);
    DistinctSize(final);
    assert Distinct([]) + Distinct(ids) == Distinct(ids);
    if ClauseResolved(c, final) {
      forall n | n in Distinct(ids) ensures n in Distinct(final) { assert n in ids; }
      SubsetSize(Distinct(ids), Distinct(final));
    }
    if |Distinct(ids)| <= MAX_VARIABLES {
      forall n | n in ids ensures n in final { assert n in Distinct(ids); }
    }
  }

  // -------------------------------------------------- the compiler is correct

  /** The token sequence starts with the tokens of a clause that end there. */
  predicate ClauseStartsInput(c: Clause, ts: seq<Token>) {
    var n := |ClauseTokens(c)|;
    TokensAt(ts, 0, ClauseTokens(c)) && EndsClause(Peek(ts, n)) && Peek(ts, n) != RightParen
  }

  lemma CompilesClause(c: Clause, ts: seq<Token>, size: nat)
    requires ClauseStartsInput(c, ts)
    requires |Distinct(ClauseIdentifiers(c))| <= MAX_VARIABLES
    requires |ClauseCode(c, ClauseNames([], c))| < size
    ensures var r := ParseWhere(ts, 0, Reset(size));
            && r.ok && r.pos == |ClauseTokens(c)|
            && !r.p.error && !r.p.fault && |r.p.code| == size
            && r.p.names == ClauseNames([], c)
            && r.p.code[..r.p.end] == ClauseCode(c, r.p.names)
  {
    SlotsSuffice(c);
    ParsesClauseFrom(c, ts, 0, Reset(size), ClauseNames([], c));
  }

  /** Compiler correctness: for every flat chain of comparisons with at most one operator on
      each level, running the bytecode that the in-place shifts leave behind decides the
      right-nested condition under every assignment, with MATH_ERROR exactly when a quotient
      of the clause has a zero divisor. */
  lemma CompiledClauseDecides(c: Clause, ts: seq<Token>, size: nat, vars: seq<Long>, env: Env)
    requires ClauseStartsInput(c, ts) && SimpleClause(c)
    requires |Distinct(ClauseIdentifiers(c))| <= MAX_VARIABLES
    requires |ClauseCode(c, ClauseNames([], c))| < size
    requires Agrees(ClauseNames([], c), vars, env)
    ensures var r := ParseWhere(ts, 0, Reset(size));
            var condition := ClauseCondition(c);
            && r.ok && r.pos == |ClauseTokens(c)|
            && Execute(r.p.code, vars) ==
               if DividesByZero(ConditionExpressions(condition), env) then MathError
               else Verdict(TotalTruth(condition, env))
  {
    var names := ClauseNames([], c);
    CompilesClause(c, ts, size);
    SlotsSuffice(c);
    ClauseCodeIsPrefix(c, names);
    var p := ParseWhere(ts, 0, Reset(size)).p;
    assert forall i :: 0 <= i < p.end ==> p.code[..p.end][i] == p.code[i];
    ExecutesCondition(ClauseCondition(c), names, p.code, vars, env);
  }

  // ------------------------------------- sides with several operators

  /** Every group inside the operands is itself a single prefix expression. */
  predicate SingleArguments(o: Operators) {
    match o
    case Done => true
    case Then(_, arg, rest) => SingleArgument(arg) && SingleArguments(rest)
  }

  /** The operators of a side after its first one. */
  function LaterOperators(s: Side): Operators {
    match s.ops case Done => Done case Then(_, _, rest) => rest
  }

  /** Operators applied from the right, ending in the value `last`. */
  function FoldRight(o: Operators, env: Env, last: Option<Long>): Option<Long> {
    match o
    case Done => last
    case Then(op, arg, rest) =>
      var a := Evaluate(ArgumentExpr(arg), env);
      var b := FoldRight(rest, env, last);
      if a.None? || b.None? || (op.Div? && b.value == 0) then None else Some(Apply(op, a.value, b.value))
  }

  lemma SideCodeParts(s: Side, names: seq<string>)
    requires SingleArguments(s.ops)
    ensures SideCode(s, names) == ExprCode(SideExpr(s), names) + OperatorsCode([], LaterOperators(s), names)
    ensures SideResolved(s, names) ==> ExprResolved(SideExpr(s), names)
  {
    match s.ops
    case Done =>
      assert ExprCode(SideExpr(s), names) + [] == ExprCode(SideExpr(s), names);
    case Then(op, arg, rest) =>
      ArgumentCodeIsPrefix(arg, names);
      assert LiteralCode(s.first, names) == ExprCode(LiteralExpr(s.first), names);
      assert SideResolved(s, names) ==> OperatorsResolved(Then(op, arg, rest), names);
  }

  /** The code of the later operators of a side makes one argument together with whatever
      argument follows it. */
  lemma {:induction false} RunsLaterOperators(o: Operators, names: seq<string>, code: seq<Word>, vars: seq<Long>, ip: nat, env: Env, m: nat, last: Option<Long>)
    requires LiesAt(code, ip, OperatorsCode([], o, names))
    requires SingleArguments(o) && OperatorsResolved(o, names) && Agrees(names, vars, env)
    requires EvaluatesTo(code, vars, ip + |OperatorsCode([], o, names)|, m, last)
    ensures EvaluatesTo(code, vars, ip, |OperatorsCode([], o, names)| + m, FoldRight(o, env, last))
    decreases o
  {
    hide EvaluatesTo, Agrees, LiesAt;
    match o
    case Done =>
    case Then(op, arg, rest) =>
      var ac := ArgumentCode(arg, names);
      var later := OperatorsCode([], rest, names);
      assert OperatorsCode([], o, names) == OpCode(ARITH_OP, ArithCode(op)) + (ac + later);
      ReadOpCode(code, ip, ARITH_OP, ArithCode(op), ac + later);
      LiesAtSplit(code, ip + 2, ac, later);
      ArgumentCodeIsPrefix(arg, names);
      RunsExpression(ArgumentExpr(arg), names, code, vars, ip + 2, env);
      RunsLaterOperators(rest, names, code, vars, ip + 2 + |ac|, env, m, last);
      RunsOperation(code, vars, ip, op, |ac|, Evaluate(ArgumentExpr(arg), env), |later| + m, FoldRight(rest, env, last));
  }

  /** What a comparison with any number of operators per side decides: the first operator of
      the left side against the later operators of the left side folded onto the first
      operator of the right side. The later operators of the right side are never run. */
  lemma CompiledComparisonDecides(c: Comparison, ts: seq<Token>, size: nat, vars: seq<Long>, env: Env)
    requires ClauseStartsInput(Last(c), ts)
    requires SingleArguments(c.left.ops) && SingleArguments(c.right.ops)
    requires |Distinct(ClauseIdentifiers(Last(c)))| <= MAX_VARIABLES
    requires |ComparisonCode(c, ClauseNames([], Last(c)))| < size
    requires Agrees(ClauseNames([], Last(c)), vars, env)
    ensures var r := ParseWhere(ts, 0, Reset(size));
            var a := Evaluate(SideExpr(c.left), env);
            var b := FoldRight(LaterOperators(c.left), env, Evaluate(SideExpr(c.right), env));
            && r.ok
            && Execute(r.p.code, vars) ==
               if a.None? || b.None? then MathError else Verdict(Holds(c.rel, a.value, b.value))
  {
    var names := ClauseNames([], Last(c));
    CompilesClause(Last(c), ts, size);
    SlotsSuffice(Last(c));
    var p := ParseWhere(ts, 0, Reset(size)).p;
    assert forall i :: 0 <= i < p.end ==> p.code[..p.end][i] == p.code[i];
    RunsComparisonParts(c, names, p.code, vars, env);
  }

  lemma RunsComparisonParts(c: Comparison, names: seq<string>, code: seq<Word>, vars: seq<Long>, env: Env)
    requires LiesAt(code, 0, ComparisonCode(c, names))
    requires SingleArguments(c.left.ops) && SingleArguments(c.right.ops)
    requires SideResolved(c.left, names) && SideResolved(c.right, names) && Agrees(names, vars, env)
    ensures var a := Evaluate(SideExpr(c.left), env);
            var b := FoldRight(LaterOperators(c.left), env, Evaluate(SideExpr(c.right), env));
            Execute(code, vars) ==
              if a.None? || b.None? then MathError else Verdict(Holds(c.rel, a.value, b.value))
  {
    hide EvaluatesTo, Agrees, LiesAt, RunCondition, Evaluate, FoldRight, SideExpr, LaterOperators, ExprCode, OperatorsCode, SideResolved;
    var lc, later := ExprCode(SideExpr(c.left), names), OperatorsCode([], LaterOperators(c.left), names);
    var rc, unused := ExprCode(SideExpr(c.right), names), OperatorsCode([], LaterOperators(c.right), names);
    SideCodeParts(c.left, names);
    SideCodeParts(c.right, names);
    ReadPair(code, 0, RelationCode(c.rel), lc + later, rc + unused);
    LiesAtSplit(code, 2, lc, later);
    LiesAtSplit(code, 2 + |lc| + |later|, rc, unused);
    RunsExpression(SideExpr(c.left), names, code, vars, 2, env);
    RunsExpression(SideExpr(c.right), names, code, vars, 2 + |lc| + |later|, env);
    var last := Evaluate(SideExpr(c.right), env);
    LaterResolved(c.left, names);
    RunsLaterOperators(LaterOperators(c.left), names, code, vars, 2 + |lc|, env, |rc|, last);
    RunsComparison(code, vars, 0, c.rel, |lc|, Evaluate(SideExpr(c.left), env), |later| + |rc|,
                   FoldRight(LaterOperators(c.left), env, last));
  }

  lemma LaterResolved(s: Side, names: seq<string>)
    requires SideResolved(s, names) && SingleArguments(s.ops)
    ensures OperatorsResolved(LaterOperators(s), names) && SingleArguments(LaterOperators(s))
  {
    match s.ops
    case Done => assert OperatorsResolved(Done, names);
    case Then(_, _, rest) =>
  }

  const SUM_OF_THREE: Comparison :=
    Comparison(Side(Number(0), Then(Add, Plain(Number(0)), Then(Add, Plain(Number(1)), Done))), Eq, Side(Number(1), Done))

  const SUM_TOKENS: seq<Token> :=
    [IntegerValue(0), ArithToken(Add), IntegerValue(0), ArithToken(Add), IntegerValue(1), RelationToken(Eq), IntegerValue(1)]

  lemma SumOfThreeTokens()
    ensures ClauseTokens(Last(SUM_OF_THREE)) == SUM_TOKENS
  {
    var ops := SUM_OF_THREE.left.ops;
    assert OperatorTokens(Then(Add, Plain(Number(1)), Done)) == [ArithToken(Add), IntegerValue(1)];
    assert OperatorTokens(ops) == [ArithToken(Add), IntegerValue(0), ArithToken(Add), IntegerValue(1)];
  }

  lemma SumOfThreeNames()
    ensures ClauseIdentifiers(Last(SUM_OF_THREE)) == [] && ClauseNames([], Last(SUM_OF_THREE)) == []
    ensures Distinct([]) == {}
    ensures |OperatorsCode([], Then(Add, Plain(Number(1)), Done), [])| == 5
  {
  }

  /** `0 + 0 + 1 = 1` is accepted and decided as `0 + 0 = 1 + 1`, which is false. */
  lemma SumOfThreeIsMiscompiled(env: Env)
    ensures var r := ParseWhere(SUM_TOKENS, 0, Reset(32));
            r.ok && Execute(r.p.code, []) == False
  {
    SumOfThreeTokens();
    SumOfThreeNames();
    hide ClauseTokens;
    CompiledComparisonDecides(SUM_OF_THREE, SUM_TOKENS, 32, [], env);
    assert FoldRight(Then(Add, Plain(Number(1)), Done), env, Some(1)) == Some(2);
  }

  // ------------------------------------------- a parenthesised sub-clause

  /** The tokens `c1 k1 ( c2 k2 c3 )`. */
  function GroupTokens(c1: Comparison, k1: Connective, c2: Comparison, k2: Connective, c3: Comparison): seq<Token> {
    ComparisonTokens(c1) + ([ConnectiveToken(k1)] + ([LeftParen]
    + (ComparisonTokens(c2) + ([ConnectiveToken(k2)] + (ComparisonTokens(c3) + [RightParen])))))
  }

  lemma TokenAt(ts: seq<Token>, pos: nat, t: Token, rest: seq<Token>)
    requires TokensAt(ts, pos, [t] + rest)
    ensures pos + 1 + |rest| <= |ts| && ts[pos] == t && TokensAt(ts, pos + 1, rest)
  {
    TokensAtSplit(ts, pos, [t], rest);
    assert ts[pos..pos + 1] == [t];
  }

  lemma ComparisonStarts(c: Comparison, ts: seq<Token>, pos: nat)
    requires TokensAt(ts, pos, ComparisonTokens(c))
    ensures pos < |ts| && ts[pos] != LeftParen
  {
    assert ComparisonTokens(c)[0] == ts[pos..pos + |ComparisonTokens(c)|][0];
  }

  lemma GroupTokensAt(c1: Comparison, k1: Connective, c2: Comparison, k2: Connective, c3: Comparison, ts: seq<Token>)
    requires TokensAt(ts, 0, GroupTokens(c1, k1, c2, k2, c3))
    ensures var n1 := |ComparisonTokens(c1)|;
            var n2 := n1 + 2 + |ComparisonTokens(c2)|;
            var n3 := n2 + 1 + |ComparisonTokens(c3)|;
            && n3 + 1 == |GroupTokens(c1, k1, c2, k2, c3)| <= |ts|
            && TokensAt(ts, 0, ComparisonTokens(c1)) && ts[n1] == ConnectiveToken(k1) && ts[n1 + 1] == LeftParen
            && TokensAt(ts, n1 + 2, ComparisonTokens(c2)) && ts[n2] == ConnectiveToken(k2) && ts[n2 + 1] != LeftParen
            && TokensAt(ts, n2 + 1, ComparisonTokens(c3)) && ts[n3] == RightParen
  {
    hide ComparisonTokens, TokensAt;
    var t3 := ComparisonTokens(c3) + [RightParen];
    var t2 := ComparisonTokens(c2) + ([ConnectiveToken(k2)] + t3);
    var n1 := |ComparisonTokens(c1)|;
    var n2 := n1 + 2 + |ComparisonTokens(c2)|;
    TokensAtSplit(ts, 0, ComparisonTokens(c1), [ConnectiveToken(k1)] + ([LeftParen] + t2));
    TokenAt(ts, n1, ConnectiveToken(k1), [LeftParen] + t2);
    TokenAt(ts, n1 + 1, LeftParen, t2);
    TokensAtSplit(ts, n1 + 2, ComparisonTokens(c2), [ConnectiveToken(k2)] + t3);
    TokenAt(ts, n2, ConnectiveToken(k2), t3);
    TokensAtSplit(ts, n2 + 1, ComparisonTokens(c3), [RightParen]);
    TokenAt(ts, n2 + 1 + |ComparisonTokens(c3)|, RightParen, []) by {
      assert [RightParen] + [] == [RightParen];
    }
    ComparisonStarts(c3, ts, n2 + 1);
  }

  /** The three comparisons and two connectives as the compiler emits them. */
  function MisnestedCode(c1: Comparison, k1: Connective, c2: Comparison, k2: Connective, c3: Comparison, names: seq<string>): seq<Word> {
    OpCode(CMP_OP, ConnectiveCode(k2))
    + ((OpCode(CMP_OP, ConnectiveCode(k1)) + ComparisonCode(c1, names) + ComparisonCode(c2, names))
       + ComparisonCode(c3, names))
  }

  function GroupNames(c1: Comparison, c2: Comparison, c3: Comparison): seq<string> {
    ComparisonNames(ComparisonNames(ComparisonNames([], c1), c2), c3)
  }

  /** The last comparison of the group consumes the closing parenthesis, so the group needs a
      second one: the balanced form is rejected and the doubled one is accepted. In either
      case the inner connective is placed in front of the whole program. */
  lemma ParsesGroup(c1: Comparison, k1: Connective, c2: Comparison, k2: Connective, c3: Comparison, ts: seq<Token>, size: nat)
    requires TokensAt(ts, 0, GroupTokens(c1, k1, c2, k2, c3))
    requires var final := GroupNames(c1, c2, c3);
             && SideResolved(c1.left, final) && SideResolved(c1.right, final)
             && SideResolved(c2.left, final) && SideResolved(c2.right, final)
             && SideResolved(c3.left, final) && SideResolved(c3.right, final)
             && |final| <= MAX_VARIABLES
             && |MisnestedCode(c1, k1, c2, k2, c3, final)| < size
    requires var n := |GroupTokens(c1, k1, c2, k2, c3)|;
             Peek(ts, n) != AndToken && Peek(ts, n) != OrToken && Peek(ts, n + 1) != AndToken && Peek(ts, n + 1) != OrToken
    ensures var final := GroupNames(c1, c2, c3);
            var r := ParseWhere(ts, 0, Reset(size));
            && (r.ok <==> Peek(ts, |GroupTokens(c1, k1, c2, k2, c3)|) == RightParen)
            && r.p.code[..r.p.end] == MisnestedCode(c1, k1, c2, k2, c3, final)
  {
    hide Place, ParseComparison, ComparisonCode, ComparisonNames, ComparisonTokens, TokensAt, GroupTokens, Appended;
    var final := GroupNames(c1, c2, c3);
    GroupTokensAt(c1, k1, c2, k2, c3, ts);
    var n1 := |ComparisonTokens(c1)|;
    var n2 := n1 + 2 + |ComparisonTokens(c2)|;
    var code1, code2, code3 := ComparisonCode(c1, final), ComparisonCode(c2, final), ComparisonCode(c3, final);
    var op1, op2 := OpCode(CMP_OP, ConnectiveCode(k1)), OpCode(CMP_OP, ConnectiveCode(k2));
    var base := Reset(size);

    ParsesComparison(c1, ts, 0, base, final);
    var p1 := ParseComparison(ts, 0, base);
    AppendedEnd(base, p1.p, code1, ComparisonNames([], c1));
    PlaceInserts(base, p1.p, code1, CMP_OP, ConnectiveCode(k1));
    var q1 := Place(p1.p, 0, CMP_OP, ConnectiveCode(k1)).0;
    AppendedEnd(base, q1, op1 + code1, p1.p.names);

    ParsesComparison(c2, ts, n1 + 2, q1, final);
    var p2 := ParseComparison(ts, n1 + 2, q1);
    AppendedEnd(q1, p2.p, code2, ComparisonNames(q1.names, c2));
    AppendedTwice(base, q1, p2.p, op1 + code1, code2, p2.p.names);
    PlaceInserts(base, p2.p, op1 + code1 + code2, CMP_OP, ConnectiveCode(k2));
    var q2 := Place(p2.p, 0, CMP_OP, ConnectiveCode(k2)).0;
    AppendedEnd(base, q2, op2 + (op1 + code1 + code2), p2.p.names);

    ParsesComparison(c3, ts, n2 + 1, q2, final);
    var p3 := ParseComparison(ts, n2 + 1, q2);
    AppendedEnd(q2, p3.p, code3, ComparisonNames(q2.names, c3));
    AppendedOperator(base, q2, p3.p, op2, op1 + code1 + code2, code3, p3.p.names);
    assert ParseConnectives(ts, n2, p2.p, 0) == Parse(true, p3.pos, p3.p);
    assert ParseWhere(ts, n1 + 2, q1) == Parse(true, p3.pos, p3.p);
    var closed := Close(ts, Parse(true, p3.pos, p3.p));
    assert closed.ok ==> ParseConnectives(ts, closed.pos, closed.p, q1.end) == closed;
    assert ParseConnectives(ts, n1, p1.p, 0) == closed;
    GroupText(p3.p, size, MisnestedCode(c1, k1, c2, k2, c3, final));
  }

  lemma GroupText(p: Program, size: nat, words: seq<Word>)
    requires Appended(Reset(size), p, words, p.names)
    ensures p.Valid() && !p.error && !p.fault && p.code[..p.end] == words
  {
    assert Text(Reset(size)) == [];
  }

  /** An accepted group is decided as `(c1 k1 c2) k2 c3`, not as written. */
  lemma AcceptedGroupDecides(c1: Comparison, k1: Connective, c2: Comparison, k2: Connective, c3: Comparison,
                             ts: seq<Token>, size: nat, vars: seq<Long>, env: Env)
    requires TokensAt(ts, 0, GroupTokens(c1, k1, c2, k2, c3))
    requires SimpleClause(Last(c1)) && SimpleClause(Last(c2)) && SimpleClause(Last(c3))
    requires var final := GroupNames(c1, c2, c3);
             && ClauseResolved(Last(c1), final) && ClauseResolved(Last(c2), final) && ClauseResolved(Last(c3), final)
             && |final| <= MAX_VARIABLES && Agrees(final, vars, env)
             && |MisnestedCode(c1, k1, c2, k2, c3, final)| < size
    requires var n := |GroupTokens(c1, k1, c2, k2, c3)|;
             && Peek(ts, n) == RightParen && Peek(ts, n + 1) != AndToken && Peek(ts, n + 1) != OrToken
    ensures var r := ParseWhere(ts, 0, Reset(size));
            var compiled := Join(k2, Join(k1, ComparisonCondition(c1), ComparisonCondition(c2)), ComparisonCondition(c3));
            && r.ok
            && Execute(r.p.code, vars) ==
               if DividesByZero(ConditionExpressions(compiled), env) then MathError
               else Verdict(TotalTruth(compiled, env))
  {
    hide DividesByZero, TotalTruth, Agrees, TokensAt, ParseWhere, Execute, ComparisonCode;
    var final := GroupNames(c1, c2, c3);
    ParsesGroup(c1, k1, c2, k2, c3, ts, size);
    var compiled := Join(k2, Join(k1, ComparisonCondition(c1), ComparisonCondition(c2)), ComparisonCondition(c3));
    MisnestedIsPrefix(c1, k1, c2, k2, c3, final);
    var p := ParseWhere(ts, 0, Reset(size)).p;
    var words := ConditionCode(compiled, final);
    assert forall i :: 0 <= i < |words| ==> words[i] == p.code[..p.end][i] == p.code[0 + i];
    assert LiesAt(p.code, 0, words);
    ExecutesCondition(compiled, final, p.code, vars, env);
  }

  lemma MisnestedIsPrefix(c1: Comparison, k1: Connective, c2: Comparison, k2: Connective, c3: Comparison, names: seq<string>)
    requires SimpleClause(Last(c1)) && SimpleClause(Last(c2)) && SimpleClause(Last(c3))
    requires ClauseResolved(Last(c1), names) && ClauseResolved(Last(c2), names) && ClauseResolved(Last(c3), names)
    ensures var compiled := Join(k2, Join(k1, ComparisonCondition(c1), ComparisonCondition(c2)), ComparisonCondition(c3));
            MisnestedCode(c1, k1, c2, k2, c3, names) == ConditionCode(compiled, names) && Resolved(compiled, names)
  {
    hide ComparisonCode, ClauseCode;
    var inner := Join(k1, ComparisonCondition(c1), ComparisonCondition(c2));
    ClauseCodeOfLast(c1, names);
    ClauseCodeOfLast(c2, names);
    ClauseCodeOfLast(c3, names);
    var op1 := OpCode(CMP_OP, ConnectiveCode(k1));
    assert op1 + ComparisonCode(c1, names) + ComparisonCode(c2, names) == op1 + (ComparisonCode(c1, names) + ComparisonCode(c2, names));
    assert ConditionCode(inner, names) == op1 + (ComparisonCode(c1, names) + ComparisonCode(c2, names));
  }

  lemma ClauseCodeOfLast(c: Comparison, names: seq<string>)
    requires SimpleClause(Last(c)) && ClauseResolved(Last(c), names)
    ensures ComparisonCode(c, names) == ConditionCode(ComparisonCondition(c), names)
    ensures Resolved(ComparisonCondition(c), names)
  {
    ClauseCodeIsPrefix(Last(c), names);
  }

  /** When the mis-nesting changes the truth value: exactly when the connectives differ and
      the outer two comparisons disagree in the way that the inner connective lets through. */
  lemma GroupMeaningKept(k1: Connective, k2: Connective, c1: Condition, c2: Condition, c3: Condition, env: Env)
    ensures TotalTruth(Join(k2, Join(k1, c1, c2), c3), env) == TotalTruth(Join(k1, c1, Join(k2, c2, c3)), env)
            <==> k1 == k2 || !(TotalTruth(c1, env) == (k1 == Disjunction) && TotalTruth(c3, env) == (k1 == Conjunction))
  {
  }

  // ------------------------------------------- later comparisons that fail

  /** No group follows a connective from `pos` on. */
  predicate NoGroups(ts: seq<Token>, pos: nat) {
    forall i :: pos <= i < |ts| && (ts[i] == AndToken || ts[i] == OrToken) ==> Peek(ts, i + 1) != LeftParen
  }

  /** Without groups, a clause is accepted exactly when its first comparison is well formed,
      whatever the others are. */
  lemma AcceptedByFirstComparison(ts: seq<Token>, pos: nat, p: Program)
    requires pos <= |ts| && p.Valid() && NoGroups(ts, pos)
    ensures ParseWhere(ts, pos, p).ok <==> ParseComparison(ts, pos, p).ok
  {
    hide ParseComparison;
    var first := ParseComparison(ts, pos, p);
    if first.ok {
      ConnectivesAccepted(ts, first.pos, first.p, 0);
    }
  }

  lemma {:induction false} ConnectivesAccepted(ts: seq<Token>, pos: nat, p: Program, saved: nat)
    requires pos <= |ts| && p.Valid() && NoGroups(ts, pos)
    ensures ParseConnectives(ts, pos, p, saved).ok
    decreases |ts| - pos
  {
    hide ParseComparison, Place;
    if Peek(ts, pos) == AndToken || Peek(ts, pos) == OrToken {
      var connective := if Peek(ts, pos) == AndToken then AND else OR;
      var (placed, end) := Place(p, saved, CMP_OP, connective);
      var next := ParseComparison(ts, pos + 1, placed);
      if next.ok {
        ConnectivesAccepted(ts, next.pos, next.p, end);
      }
    }
  }

  /** A comparison followed by a connective and a lone operand is accepted, and the program is left
      with a connective that has only one argument. */
  lemma LoneOperandAccepted(c: Comparison, k: Connective, l: Literal, ts: seq<Token>, size: nat)
    requires TokensAt(ts, 0, ComparisonTokens(c) + ([ConnectiveToken(k)] + [LiteralToken(l)]))
    requires var t := Peek(ts, |ComparisonTokens(c)| + 2);
             !t.ArithToken? && !t.RelationToken? && t != RightParen
    requires var names := LiteralNames(ComparisonNames([], c), l);
             && SideResolved(c.left, names) && SideResolved(c.right, names) && LiteralResolved(l, names)
             && |names| <= MAX_VARIABLES && |ComparisonCode(c, names)| + 8 < size
    ensures var r := ParseWhere(ts, 0, Reset(size));
            && r.ok && !r.p.error && !r.p.fault
            && r.p.code[..r.p.end] ==
                 OpCode(CMP_OP, ConnectiveCode(k)) + ComparisonCode(c, LiteralNames(ComparisonNames([], c), l))
  {
    hide Place, ParseComparison, ComparisonCode, ComparisonTokens, ComparisonNames, TokensAt, Appended;
    var names := LiteralNames(ComparisonNames([], c), l);
    var n := |ComparisonTokens(c)|;
    TokensAtSplit(ts, 0, ComparisonTokens(c), [ConnectiveToken(k)] + [LiteralToken(l)]);
    TokenAt(ts, n, ConnectiveToken(k), [LiteralToken(l)]);
    TokenAt(ts, n + 1, LiteralToken(l), []) by {
      assert [LiteralToken(l)] + [] == [LiteralToken(l)];
    }
    var base := Reset(size);
    ParsesComparison(c, ts, 0, base, names);
    var first := ParseComparison(ts, 0, base);
    AppendedEnd(base, first.p, ComparisonCode(c, names), ComparisonNames([], c));
    PlaceInserts(base, first.p, ComparisonCode(c, names), CMP_OP, ConnectiveCode(k));
    var op := OpCode(CMP_OP, ConnectiveCode(k));
    var placed := Place(first.p, 0, CMP_OP, ConnectiveCode(k)).0;
    AppendedEnd(base, placed, op + ComparisonCode(c, names), first.p.names);
    OperandAloneFails(l, ts, n + 1, placed, names);
    GroupText(placed, size, op + ComparisonCode(c, names));
  }

  /** An operand without a relation fails, and leaves the text of the program alone. */
  lemma OperandAloneFails(l: Literal, ts: seq<Token>, pos: nat, p: Program, names: seq<string>)
    requires p.Valid() && pos < |ts| && ts[pos] == LiteralToken(l)
    requires var t := Peek(ts, pos + 1); !t.ArithToken? && !t.RelationToken? && t != RightParen
    requires LiteralNames(p.names, l) <= names && |names| <= MAX_VARIABLES && LiteralResolved(l, names)
    requires p.end + 5 < |p.code|
    ensures var r := ParseComparison(ts, pos, p);
            && !r.ok && r.p.error == p.error && r.p.fault == p.fault
            && r.p.end == p.end && r.p.code[..p.end] == p.code[..p.end]
  {
    hide ParseOperand;
    var q := JumpToOperand(p);
    ParsesLiteral(l, ts, pos, q, names);
    var operand := ParseOperand(ts, pos, q);
    assert ParseExpr(ts, pos, q) == ParseOperators(ts, pos + 1, operand.p, q.end) == operand;
    assert operand.p.code[..p.end] == operand.p.code[..operand.p.end][..p.end] == p.code[..p.end];
  }
}
