/** When a comparison keeps its meaning: the compiled code against the sides as they are
    written, each operator applied to everything on its left. */
module AqlMeaning {
  import opened MachineWords
  import opened LogicVm
  import opened AqlCompiler
  import opened AqlClauses

  // ------------------------------------------------------ the written meaning

  function Combined(op: ArithOp, a: Option<Long>, b: Option<Long>): Option<Long> {
    if a.None? || b.None? || (op.Div? && b.value == 0) then None else Some(Apply(op, a.value, b.value))
  }

  function WrittenSide(s: Side, env: Env): Option<Long>
    decreases s
  {
    WrittenOperators(Evaluate(LiteralExpr(s.first), env), s.ops, env)
  }

  function WrittenOperators(v: Option<Long>, o: Operators, env: Env): Option<Long>
    decreases o
  {
    match o
    case Done => v
    case Then(op, arg, rest) => WrittenOperators(Combined(op, v, WrittenArgument(arg, env)), rest, env)
  }

  function WrittenArgument(a: Argument, env: Env): Option<Long>
    decreases a
  {
    match a
    case Plain(l) => Evaluate(LiteralExpr(l), env)
    case Group(s) => WrittenSide(s, env)
  }

  function Decision(rel: Relation, a: Option<Long>, b: Option<Long>): Status {
    if a.None? || b.None? then MathError else Verdict(Holds(rel, a.value, b.value))
  }

  /** What a comparison says, with MATH_ERROR for a zero divisor. */
  function Written(c: Comparison, env: Env): Status {
    Decision(c.rel, WrittenSide(c.left, env), WrittenSide(c.right, env))
  }

  /** What its code decides. */
  function Decided(c: Comparison, env: Env): Status {
    Decision(c.rel, Evaluate(SideExpr(c.left), env),
             FoldRight(LaterOperators(c.left), env, Evaluate(SideExpr(c.right), env)))
  }

  lemma {:induction false} SingleIsWritten(s: Side, env: Env)
    requires SingleOperator(s)
    ensures WrittenSide(s, env) == Evaluate(SideExpr(s), env)
    decreases s
  {
    match s.ops
    case Done =>
    case Then(op, arg, rest) =>
      if arg.Group? {
        SingleIsWritten(arg.side, env);
      }
      assert WrittenOperators(Combined(op, Evaluate(LiteralExpr(s.first), env), WrittenArgument(arg, env)), rest, env)
          == Combined(op, Evaluate(LiteralExpr(s.first), env), WrittenArgument(arg, env));
  }

  lemma SingleComparisonIsWritten(c: Comparison, env: Env)
    requires SingleOperator(c.left) && SingleOperator(c.right)
    ensures SingleArguments(c.left.ops) && SingleArguments(c.right.ops)
    ensures Decided(c, env) == Written(c, env)
  {
    SingleIsWritten(c.left, env);
    SingleIsWritten(c.right, env);
    assert LaterOperators(c.left) == Done;
    assert SingleArguments(Done);
  }

  // -------------------------------------------------- operands that tell them apart

  /** The right operand that an operator does not see. */
  function Unit(op: ArithOp): Long {
    if op.Add? || op.Sub? then 0 else 1
  }

  /** A literal, maybe in parentheses. */
  predicate OneOperand(a: Argument) {
    a.Group? ==> a.side.ops.Done?
  }

  predicate IsPlain(a: Argument, env: Env, v: Long) {
    OneOperand(a) && Evaluate(ArgumentExpr(a), env) == Some(v)
  }

  lemma PlainArgument(a: Argument, env: Env, v: Long)
    requires IsPlain(a, env, v)
    ensures SingleArgument(a) && WrittenArgument(a, env) == Some(v)
  {
    if a.Group? {
      assert a.side == Side(a.side.first, Done);
      SingleIsWritten(a.side, env);
    }
  }

  /** Every operator has its unit on its right. */
  predicate Neutral(o: Operators, env: Env) {
    match o
    case Done => true
    case Then(op, arg, rest) => IsPlain(arg, env, Unit(op)) && Neutral(rest, env)
  }

  /** The last operator has `v` on its right, all others their unit. */
  predicate NeutralBut(o: Operators, env: Env, v: Long) {
    match o
    case Done => false
    case Then(op, arg, Done) => IsPlain(arg, env, v)
    case Then(op, arg, rest) => IsPlain(arg, env, Unit(op)) && NeutralBut(rest, env, v)
  }

  function LastOperator(o: Operators): ArithOp
    requires o.Then?
  {
    if o.rest.Done? then o.op else LastOperator(o.rest)
  }

  lemma UnitIsNeutral(op: ArithOp, v: Long)
    ensures Combined(op, Some(v), Some(Unit(op))) == Some(v)
  {
  }

  lemma {:induction false} NeutralKeeps(o: Operators, env: Env, v: Long)
    requires Neutral(o, env)
    ensures WrittenOperators(Some(v), o, env) == Some(v) && SingleArguments(o)
  {
    if o.Then? {
      PlainArgument(o.arg, env, Unit(o.op));
      UnitIsNeutral(o.op, v);
      NeutralKeeps(o.rest, env, v);
    }
  }

  lemma {:induction false} LastDecides(o: Operators, env: Env, v: Long, c: Long)
    requires NeutralBut(o, env, c)
    ensures WrittenOperators(Some(v), o, env) == Combined(LastOperator(o), Some(v), Some(c)) && SingleArguments(o)
  {
    hide Combined, WrittenArgument, IsPlain;
    if o.rest.Done? {
      PlainArgument(o.arg, env, c);
      assert WrittenOperators(Combined(o.op, Some(v), Some(c)), Done, env) == Combined(o.op, Some(v), Some(c));
      assert SingleArguments(Done);
    } else {
      PlainArgument(o.arg, env, Unit(o.op));
      UnitIsNeutral(o.op, v);
      LastDecides(o.rest, env, v, c);
    }
  }

  /** Once the fold from the right has come to zero it stays there, or divides by it. */
  lemma {:induction false} FoldComesToZero(o: Operators, env: Env, c: Long, d: Long)
    requires NeutralBut(o, env, c) && Combined(LastOperator(o), Some(c), Some(d)) == Some(0)
    ensures FoldRight(o, env, Some(d)) in {None, Some(0)}
  {
    if o.rest.Done? {
      assert FoldRight(Done, env, Some(d)) == Some(d);
    } else {
      FoldComesToZero(o.rest, env, c, d);
    }
  }

  /** A left operand, a last operand and a right operand for which a side with `op` as its last
      operator of several is decided in another way than it is written. */
  datatype Operands = Operands(a: Long, c: Long, d: Long)

  function LeftOperands(rel: Relation, op: ArithOp): Operands {
    var equality := rel.Eq? || rel.Neq?;
    match op
    case Add => Operands(if equality then 20 else 5, -10, 10)
    case Sub => Operands(if equality then 20 else 5, 10, 10)
    case Mul => Operands(if equality then 0 else 7, 0, 5)
    case Div => Operands(if equality then 5 else 3, 1, 5)
  }

  function RightOperands(rel: Relation, op: ArithOp): Operands {
    var equality := rel.Eq? || rel.Neq?;
    match op
    case Add => Operands(if equality then 0 else 5, 10, 0)
    case Sub => Operands(if equality then 0 else 5, 10, 10)
    case Mul => Operands(if equality then 0 else 3, 0, 5)
    case Div => Operands(if equality then 1 else 5, 10, 10)
  }

  lemma LeftDiffers(c: Comparison, env: Env)
    requires c.left.ops.Then? && c.left.ops.rest.Then?
    requires var w := LeftOperands(c.rel, LastOperator(c.left.ops));
             && Evaluate(LiteralExpr(c.left.first), env) == Some(w.a) && NeutralBut(c.left.ops, env, w.c)
             && Evaluate(LiteralExpr(c.right.first), env) == Some(w.d) && Neutral(c.right.ops, env)
    ensures SingleArguments(c.left.ops) && SingleArguments(c.right.ops)
    ensures Decided(c, env) != Written(c, env)
  {
    var op := LastOperator(c.left.ops);
    var w := LeftOperands(c.rel, op);
    LastDecides(c.left.ops, env, w.a, w.c);
    NeutralKeeps(c.right.ops, env, w.d);
    UnitIsNeutral(c.left.ops.op, w.a);
    assert Evaluate(SideExpr(c.left), env) == Some(w.a);
    assert Evaluate(SideExpr(c.right), env) == Some(w.d) by {
      if c.right.ops.Then? {
        UnitIsNeutral(c.right.ops.op, w.d);
      }
    }
    FoldComesToZero(c.left.ops.rest, env, w.c, w.d);
  }

  lemma RightDiffers(c: Comparison, env: Env)
    requires c.right.ops.Then? && c.right.ops.rest.Then?
    requires LaterOperators(c.left).Done?
    requires var w := RightOperands(c.rel, LastOperator(c.right.ops));
             && Evaluate(LiteralExpr(c.left.first), env) == Some(w.a) && Neutral(c.left.ops, env)
             && Evaluate(LiteralExpr(c.right.first), env) == Some(w.d) && NeutralBut(c.right.ops, env, w.c)
    ensures SingleArguments(c.left.ops) && SingleArguments(c.right.ops)
    ensures Decided(c, env) != Written(c, env)
  {
    var op := LastOperator(c.right.ops);
    var w := RightOperands(c.rel, op);
    NeutralKeeps(c.left.ops, env, w.a);
    LastDecides(c.right.ops, env, w.d, w.c);
    UnitIsNeutral(c.right.ops.op, w.d);
    assert Evaluate(SideExpr(c.right), env) == Some(w.d);
    assert Evaluate(SideExpr(c.left), env) == Some(w.a) by {
      if c.left.ops.Then? {
        UnitIsNeutral(c.left.ops.op, w.a);
      }
    }
    assert FoldRight(Done, env, Some(w.d)) == Some(w.d);
  }

  // ---------------------------------------------------- operands given in order

  function OperatorList(o: Operators): seq<ArithOp> {
    match o case Done => [] case Then(op, _, rest) => [op] + OperatorList(rest)
  }

  /** The right operands of `o` are plain and have these values. */
  predicate Holding(o: Operators, env: Env, v: seq<Long>) {
    match o
    case Done => v == []
    case Then(_, arg, rest) => v != [] && IsPlain(arg, env, v[0]) && Holding(rest, env, v[1..])
  }

  function Units(ops: seq<ArithOp>): (v: seq<Long>)
    ensures |v| == |ops|
  {
    if ops == [] then [] else [Unit(ops[0])] + Units(ops[1..])
  }

  function UnitsBut(ops: seq<ArithOp>, c: Long): (v: seq<Long>)
    requires ops != []
    ensures |v| == |ops|
  {
    if |ops| == 1 then [c] else [Unit(ops[0])] + UnitsBut(ops[1..], c)
  }

  lemma {:induction false} HoldingUnits(o: Operators, env: Env)
    requires Holding(o, env, Units(OperatorList(o)))
    ensures Neutral(o, env)
  {
    if o.Then? {
      assert OperatorList(o)[1..] == OperatorList(o.rest);
      HoldingUnits(o.rest, env);
    }
  }

  lemma {:induction false} HoldingUnitsBut(o: Operators, env: Env, c: Long)
    requires o.Then? && Holding(o, env, UnitsBut(OperatorList(o), c))
    ensures NeutralBut(o, env, c)
  {
    assert OperatorList(o)[1..] == OperatorList(o.rest);
    if o.rest.Then? {
      HoldingUnitsBut(o.rest, env, c);
    }
  }

  lemma {:induction false} LastInList(o: Operators)
    requires o.Then?
    ensures LastOperator(o) == OperatorList(o)[|OperatorList(o)| - 1]
  {
    if o.rest.Then? {
      LastInList(o.rest);
    }
  }

  // --------------------------------------------------- sides of plain numbers

  function NumberOperators(ops: seq<ArithOp>, v: seq<Long>): (o: Operators)
    requires |v| == |ops|
    ensures o.Then? <==> ops != []
  {
    if ops == [] then Done else Then(ops[0], Plain(Number(v[0])), NumberOperators(ops[1..], v[1..]))
  }

  function NumberSide(ops: seq<ArithOp>, v: seq<Long>): Side
    requires |v| == 1 + |ops|
  {
    Side(Number(v[0]), NumberOperators(ops, v[1..]))
  }

  function NumberComparison(left: seq<ArithOp>, x: seq<Long>, rel: Relation, right: seq<ArithOp>, y: seq<Long>): Comparison
    requires |x| == 1 + |left| && |y| == 1 + |right|
  {
    Comparison(NumberSide(left, x), rel, NumberSide(right, y))
  }

  lemma {:induction false} NumbersHold(ops: seq<ArithOp>, v: seq<Long>, env: Env)
    requires |v| == |ops|
    ensures var o := NumberOperators(ops, v);
            Holding(o, env, v) && OperatorList(o) == ops && SingleArguments(o) && OperatorIdentifiers(o) == []
  {
    if ops != [] {
      NumbersHold(ops[1..], v[1..], env);
    }
  }

  const NOWHERE: Env := n => 0

  /** The code that the parser leaves for a comparison decides it as it is written. */
  predicate RunsAsWritten(c: Comparison, size: nat, vars: seq<Long>, env: Env) {
    Execute(ParseWhere(ComparisonTokens(c), 0, Reset(size)).p.code, vars) == Written(c, env)
  }

  lemma NumbersDecided(c: Comparison, size: nat)
    requires SingleArguments(c.left.ops) && SingleArguments(c.right.ops)
    requires SideIdentifiers(c.left) == [] && SideIdentifiers(c.right) == []
    requires |ComparisonCode(c, [])| < size
    ensures RunsAsWritten(c, size, [], NOWHERE) <==> Decided(c, NOWHERE) == Written(c, NOWHERE)
  {
    hide ComparisonTokens, ComparisonCode;
    var clause := Last(c);
    assert ClauseIdentifiers(clause) == [];
    assert Distinct(ClauseIdentifiers(clause)) == {};
    ClauseRegisters(clause, [], []);
    assert ClauseNames([], clause) == [];
    StartsOwnTokens(c);
    CompiledComparisonDecides(c, ComparisonTokens(c), size, [], NOWHERE);
  }

  lemma StartsOwnTokens(c: Comparison)
    ensures ClauseStartsInput(Last(c), ComparisonTokens(c))
  {
    var ts := ComparisonTokens(c);
    assert ts[0..|ts|] == ts;
  }

  /** The operators alone tell whether a comparison of numbers keeps its meaning whatever the
      numbers are: there must be no more than one on each side. */
  lemma OperatorCountDecides(left: seq<ArithOp>, rel: Relation, right: seq<ArithOp>)
    ensures (forall x: seq<Long>, y: seq<Long>, size: nat ::
               |x| == 1 + |left| && |y| == 1 + |right|
               && |ComparisonCode(NumberComparison(left, x, rel, right, y), [])| < size
               ==> RunsAsWritten(NumberComparison(left, x, rel, right, y), size, [], NOWHERE))
            <==> |left| <= 1 && |right| <= 1
  {
    if |left| <= 1 && |right| <= 1 {
      forall x: seq<Long>, y: seq<Long>, size: nat
        | |x| == 1 + |left| && |y| == 1 + |right|
          && |ComparisonCode(NumberComparison(left, x, rel, right, y), [])| < size
        ensures RunsAsWritten(NumberComparison(left, x, rel, right, y), size, [], NOWHERE)
      {
        FewOperatorsKept(left, x, rel, right, y, size);
      }
    } else {
      var (x, y) := TellingNumbers(left, rel, right);
      var c := NumberComparison(left, x, rel, right, y);
      ManyOperatorsLost(left, rel, right, |ComparisonCode(c, [])| + 1);
    }
  }

  lemma FewOperatorsKept(left: seq<ArithOp>, x: seq<Long>, rel: Relation, right: seq<ArithOp>, y: seq<Long>, size: nat)
    requires |left| <= 1 && |right| <= 1 && |x| == 1 + |left| && |y| == 1 + |right|
    requires |ComparisonCode(NumberComparison(left, x, rel, right, y), [])| < size
    ensures RunsAsWritten(NumberComparison(left, x, rel, right, y), size, [], NOWHERE)
  {
    hide RunsAsWritten, ComparisonCode;
    var c := NumberComparison(left, x, rel, right, y);
    NumbersHold(left, x[1..], NOWHERE);
    NumbersHold(right, y[1..], NOWHERE);
    NumbersDecided(c, size);
    SingleComparisonIsWritten(c, NOWHERE);
  }

  /** Numbers for which a comparison with too many operators is decided in another way. */
  function TellingNumbers(left: seq<ArithOp>, rel: Relation, right: seq<ArithOp>): (r: (seq<Long>, seq<Long>))
    requires |left| > 1 || |right| > 1
    ensures |r.0| == 1 + |left| && |r.1| == 1 + |right|
  {
    if |left| > 1 then
      var w := LeftOperands(rel, left[|left| - 1]);
      ([w.a] + UnitsBut(left, w.c), [w.d] + Units(right))
    else
      var w := RightOperands(rel, right[|right| - 1]);
      ([w.a] + Units(left), [w.d] + UnitsBut(right, w.c))
  }

  lemma ManyOperatorsLost(left: seq<ArithOp>, rel: Relation, right: seq<ArithOp>, size: nat)
    requires |left| > 1 || |right| > 1
    requires var (x, y) := TellingNumbers(left, rel, right);
             |ComparisonCode(NumberComparison(left, x, rel, right, y), [])| < size
    ensures var (x, y) := TellingNumbers(left, rel, right);
            !RunsAsWritten(NumberComparison(left, x, rel, right, y), size, [], NOWHERE)
  {
    hide RunsAsWritten, ComparisonCode, Written, Decided;
    var (x, y) := TellingNumbers(left, rel, right);
    var c := NumberComparison(left, x, rel, right, y);
    NumbersHold(left, x[1..], NOWHERE);
    NumbersHold(right, y[1..], NOWHERE);
    NumbersDecided(c, size);
    TellingOperandsDiffer(c, x, y, NOWHERE);
  }

  /** Operands with the telling values make the difference. */
  lemma TellingOperandsDiffer(c: Comparison, x: seq<Long>, y: seq<Long>, env: Env)
    requires var (left, right) := (OperatorList(c.left.ops), OperatorList(c.right.ops));
             (|left| > 1 || |right| > 1) && (x, y) == TellingNumbers(left, c.rel, right)
    requires Evaluate(LiteralExpr(c.left.first), env) == Some(x[0]) && Holding(c.left.ops, env, x[1..])
    requires Evaluate(LiteralExpr(c.right.first), env) == Some(y[0]) && Holding(c.right.ops, env, y[1..])
    ensures SingleArguments(c.left.ops) && SingleArguments(c.right.ops)
    ensures Decided(c, env) != Written(c, env)
  {
    var left, right := OperatorList(c.left.ops), OperatorList(c.right.ops);
    if |left| > 1 {
      var w := LeftOperands(c.rel, left[|left| - 1]);
      assert x[1..] == UnitsBut(left, w.c) && y[1..] == Units(right);
      HoldingUnitsBut(c.left.ops, env, w.c);
      HoldingUnits(c.right.ops, env);
      LastInList(c.left.ops);
      LeftDiffers(c, env);
    } else {
      var w := RightOperands(c.rel, right[|right| - 1]);
      assert x[1..] == Units(left) && y[1..] == UnitsBut(right, w.c);
      HoldingUnits(c.left.ops, env);
      HoldingUnitsBut(c.right.ops, env, w.c);
      LastInList(c.right.ops);
      RightDiffers(c, env);
    }
  }

  // ------------------------------------------------- sides of distinct variables

  /** Every operand is a variable. */
  predicate NamesOnly(s: Side)
    decreases s
  {
    s.first.Name? && OperatorsNamesOnly(s.ops)
  }

  predicate OperatorsNamesOnly(o: Operators)
    decreases o
  {
    match o
    case Done => true
    case Then(_, Plain(l), rest) => l.Name? && OperatorsNamesOnly(rest)
    case Then(_, Group(s), rest) => NamesOnly(s) && OperatorsNamesOnly(rest)
  }

  /** The operands of a side are counted by its operators unless a group has more than one. */
  predicate Flat(o: Operators) {
    match o case Done => true case Then(_, arg, rest) => OneOperand(arg) && Flat(rest)
  }

  lemma OneIdentifier(a: Argument)
    requires OneOperand(a) && (if a.Plain? then a.lit.Name? else a.side.first.Name?)
    ensures |ArgumentIdentifiers(a)| == 1 && ArgumentExpr(a) == Var(ArgumentIdentifiers(a)[0])
  {
    if a.Group? {
      assert OperatorIdentifiers(a.side.ops) == [];
    }
  }

  lemma {:induction false} OperandsOfOperators(o: Operators)
    requires OperatorsNamesOnly(o)
    ensures |OperatorIdentifiers(o)| >= |OperatorList(o)|
    ensures |OperatorIdentifiers(o)| == |OperatorList(o)| ==> Flat(o)
    decreases o
  {
    if o.Then? {
      OperandsOfOperators(o.rest);
      if o.arg.Group? {
        OperandsOfOperators(o.arg.side.ops);
        assert |ArgumentIdentifiers(o.arg)| >= 1 + |OperatorList(o.arg.side.ops)|;
      }
    }
  }

  /** Two operators on one level need three operands, and four when they are in a group. */
  lemma {:induction false} OperandsOfSide(s: Side)
    requires NamesOnly(s)
    ensures |SideIdentifiers(s)| >= 1 && (|SideIdentifiers(s)| <= 1 ==> s.ops.Done?)
    ensures !SingleOperator(s) ==>
              |SideIdentifiers(s)| >= 3 && (|SideIdentifiers(s)| <= 3 ==> Flat(s.ops) && |OperatorList(s.ops)| == 2)
    decreases s
  {
    OperandsOfOperators(s.ops);
    match s.ops
    case Done =>
    case Then(_, arg, rest) =>
      if rest.Done? {
        if arg.Group? {
          OperandsOfSide(arg.side);
          assert SingleOperator(s) <==> SingleOperator(arg.side);
          assert ArgumentIdentifiers(arg) == SideIdentifiers(arg.side);
        } else {
          assert SingleOperator(s);
        }
        assert OperatorIdentifiers(s.ops) == ArgumentIdentifiers(arg) + OperatorIdentifiers(rest);
        assert |OperatorList(s.ops)| == 1;
      } else {
        assert OperatorList(s.ops) == [s.ops.op] + ([rest.op] + OperatorList(rest.rest));
      }
  }

  lemma {:induction false} NamesHold(o: Operators, env: Env, v: seq<Long>)
    requires OperatorsNamesOnly(o) && Flat(o) && |v| == |OperatorIdentifiers(o)|
    requires forall i :: 0 <= i < |v| ==> env(OperatorIdentifiers(o)[i]) == v[i]
    ensures Holding(o, env, v)
  {
    if o.Then? {
      var ids := OperatorIdentifiers(o);
      OneIdentifier(o.arg);
      assert ids[0] == ArgumentIdentifiers(o.arg)[0];
      assert ids[1..] == OperatorIdentifiers(o.rest);
      assert env(ids[0]) == v[0];
      assert forall i :: 0 <= i < |v| - 1 ==> ids[1..][i] == ids[1 + i] && v[1..][i] == v[1 + i];
      NamesHold(o.rest, env, v[1..]);
    }
  }

  lemma {:induction false} FlatCount(o: Operators)
    requires OperatorsNamesOnly(o) && Flat(o)
    ensures |OperatorIdentifiers(o)| == |OperatorList(o)|
  {
    if o.Then? {
      OneIdentifier(o.arg);
      FlatCount(o.rest);
    }
  }

  /** The assignment that gives each of these names its value. */
  function Assign(ids: seq<string>, v: seq<Long>): Env
    requires |ids| == |v|
  {
    n => var i := IndexOf(ids, n); if i < |v| then v[i] else 0
  }

  lemma Assigns(ids: seq<string>, v: seq<Long>, i: nat)
    requires |ids| == |v| && NoDuplicates(ids) && i < |ids|
    ensures Assign(ids, v)(ids[i]) == v[i]
  {
    var k := IndexOf(ids, ids[i]);
    assert ids[k] == ids[i];
  }

  /** Variables that can take the telling values show the difference. */
  lemma DistinctVariablesDiffer(c: Comparison) returns (env: Env)
    requires NamesOnly(c.left) && NamesOnly(c.right)
    requires NoDuplicates(ClauseIdentifiers(Last(c)))
    requires Flat(c.left.ops) && Flat(c.right.ops)
    requires |OperatorList(c.left.ops)| > 1 || |OperatorList(c.right.ops)| > 1
    ensures SingleArguments(c.left.ops) && SingleArguments(c.right.ops)
    ensures Decided(c, env) != Written(c, env)
  {
    hide Decided, Written, TellingNumbers, NoDuplicates, Assign;
    var left, right := SideIdentifiers(c.left), SideIdentifiers(c.right);
    var (x, y) := TellingNumbers(OperatorList(c.left.ops), c.rel, OperatorList(c.right.ops));
    FlatCount(c.left.ops);
    FlatCount(c.right.ops);
    var ids := ClauseIdentifiers(Last(c));
    assert ids == left + right;
    env := Assign(ids, x + y);
    SideHolds(c.left, ids, x + y, 0, x);
    SideHolds(c.right, ids, x + y, |x|, y);
    TellingOperandsDiffer(c, x, y, env);
  }

  lemma SideHolds(s: Side, ids: seq<string>, all: seq<Long>, at: nat, v: seq<Long>)
    requires NamesOnly(s) && Flat(s.ops) && NoDuplicates(ids) && |ids| == |all|
    requires |v| == |SideIdentifiers(s)| && at + |v| <= |all|
    requires all[at..at + |v|] == v && ids[at..at + |v|] == SideIdentifiers(s)
    ensures Evaluate(LiteralExpr(s.first), Assign(ids, all)) == Some(v[0])
    ensures Holding(s.ops, Assign(ids, all), v[1..])
  {
    hide NoDuplicates, Assign, Holding;
    var env := Assign(ids, all);
    var own := SideIdentifiers(s);
    forall i | 0 <= i < |v|
      ensures env(own[i]) == v[i]
    {
      Assigns(ids, all, at + i);
      assert ids[at..at + |v|][i] == own[i] && all[at..at + |v|][i] == v[i];
    }
    assert own[0] == s.first.name;
    assert own[1..] == OperatorIdentifiers(s.ops);
    forall i | 0 <= i < |v| - 1
      ensures env(OperatorIdentifiers(s.ops)[i]) == v[1..][i]
    {
      assert OperatorIdentifiers(s.ops)[i] == own[1 + i];
    }
    NamesHold(s.ops, env, v[1..]);
  }

  /** For every comparison of pairwise different variables that get slots: its code decides it as
      written under every assignment exactly when it has no more than one operator on each level
      of each side. */
  lemma MeaningKept(c: Comparison, ts: seq<Token>, size: nat)
    requires ClauseStartsInput(Last(c), ts)
    requires NamesOnly(c.left) && NamesOnly(c.right)
    requires NoDuplicates(ClauseIdentifiers(Last(c))) && |ClauseIdentifiers(Last(c))| <= MAX_VARIABLES
    requires |ComparisonCode(c, ClauseNames([], Last(c)))| < size
    ensures var p := ParseWhere(ts, 0, Reset(size)).p;
            (forall env: Env, vars: seq<Long> :: Agrees(ClauseNames([], Last(c)), vars, env)
               ==> Execute(p.code, vars) == Written(c, env))
            <==> SingleOperator(c.left) && SingleOperator(c.right)
  {
    hide Decided, Written, NoDuplicates, Agrees, ClauseStartsInput, ParseWhere, Execute, ComparisonCode;
    var p := ParseWhere(ts, 0, Reset(size)).p;
    var names := ClauseNames([], Last(c));
    DistinctSize(ClauseIdentifiers(Last(c)));
    if SingleOperator(c.left) && SingleOperator(c.right) {
      forall env: Env, vars: seq<Long> | Agrees(names, vars, env)
        ensures Execute(p.code, vars) == Written(c, env)
      {
        SingleComparisonIsWritten(c, env);
        DecidesComparison(c, ts, size, vars, env);
      }
    } else {
      OperandsOfSide(c.left);
      OperandsOfSide(c.right);
      assert ClauseIdentifiers(Last(c)) == SideIdentifiers(c.left) + SideIdentifiers(c.right);
      var env := DistinctVariablesDiffer(c);
      var vars := SlotValues(names, env);
      SlotsAgree(c, env);
      DecidesComparison(c, ts, size, vars, env);
    }
  }

  function SlotValues(names: seq<string>, env: Env): (vars: seq<Long>)
    ensures |vars| == |names|
  {
    seq(|names|, i requires 0 <= i < |names| => env(names[i]))
  }

  lemma SlotsAgree(c: Comparison, env: Env)
    ensures var names := ClauseNames([], Last(c)); Agrees(names, SlotValues(names, env), env)
  {
    SlotsSuffice(Last(c));
  }

  lemma DecidesComparison(c: Comparison, ts: seq<Token>, size: nat, vars: seq<Long>, env: Env)
    requires ClauseStartsInput(Last(c), ts)
    requires SingleArguments(c.left.ops) && SingleArguments(c.right.ops)
    requires |Distinct(ClauseIdentifiers(Last(c)))| <= MAX_VARIABLES
    requires |ComparisonCode(c, ClauseNames([], Last(c)))| < size
    requires Agrees(ClauseNames([], Last(c)), vars, env)
    ensures Execute(ParseWhere(ts, 0, Reset(size)).p.code, vars) == Decided(c, env)
  {
    CompiledComparisonDecides(c, ts, size, vars, env);
  }
}
