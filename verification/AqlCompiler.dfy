/** The WHERE-clause compiler of the Antelope query language: a recursive descent over the
    tokens that emits prefix bytecode by shifting code already emitted to the right. */
module AqlCompiler {
  import opened MachineWords
  import opened LogicVm

  // ------------------------------------------------------------ code emission

  /** The program under construction: the code buffer, the end of the emitted code, the
      sticky error flag of the machine, and the registered variable names.
      `fault` records a write outside the buffer, which C does not check for. */
  datatype Program = Program(code: seq<Word>, end: nat, error: bool, fault: bool, names: seq<string>)
  {
    predicate Valid() { end <= |code| }
  }

  function Reset(size: nat): (p: Program)
    ensures p.Valid()
  {
    Program(seq(size, i => 0), 0, false, false, [])
  }

  /** Overwrites the words from `at` on. */
  function Blit(code: seq<Word>, at: nat, words: seq<Word>): (r: seq<Word>)
    requires at + |words| <= |code|
    ensures |r| == |code|
  {
    code[..at] + words + code[at + |words|..]
  }

  lemma BlitNothing(code: seq<Word>, at: nat, words: seq<Word>)
    requires at <= |code| && words == []
    ensures Blit(code, at, words) == code
  {
  }

  lemma BlitMore(code: seq<Word>, at: nat, words: seq<Word>, i: nat)
    requires i < |words| && at + |words| <= |code|
    ensures Blit(code, at, words[..i])[at + i := words[i]] == Blit(code, at, words[..i + 1])
  {
    assert words[..i + 1] == words[..i] + [words[i]];
  }

  function Emit(p: Program, words: seq<Word>): (r: Program)
    requires p.Valid()
    ensures r.Valid() && |r.code| == |p.code|
  {
    if p.end + |words| <= |p.code| then
      p.(code := Blit(p.code, p.end, words), end := p.end + |words|)
    else p.(fault := true)
  }

  /** Leaves room for an operator in front of the operand that follows. */
  function JumpToOperand(p: Program): (r: Program)
    requires p.Valid()
    ensures r.Valid() && |r.code| == |p.code|
  {
    if p.end + 2 >= |p.code| then p.(error := true) else p.(end := p.end + 2)
  }

  /** Moves the code from `at` on two words to the right and continues at `at`. The second
      result is the end of the moved code. */
  function ShiftForOperator(p: Program, at: nat): (r: (Program, nat))
    requires p.Valid()
    ensures r.0.Valid() && |r.0.code| == |p.code|
  {
    if p.end + 1 > |p.code| || at >= p.end then (p.(error := true), 0)
    else if p.end + 2 > |p.code| then (p.(fault := true, end := at), p.end + 2)
    else (p.(code := Blit(p.code, at + 2, p.code[at..p.end]), end := at), p.end + 2)
  }

  function SetEnd(p: Program, end: nat): (r: Program)
    requires p.Valid()
    ensures r.Valid() && |r.code| == |p.code|
  {
    if end >= |p.code| then p.(error := true) else p.(end := end)
  }

  /** Shifts the code from `at` on and writes an operator in front of it. The second result
      is where the next operator goes: the end of the shifted code. */
  function Place(p: Program, at: nat, node: Word, op: Word): (r: (Program, nat))
    requires p.Valid()
    ensures r.0.Valid() && |r.0.code| == |p.code|
  {
    var (q, end) := ShiftForOperator(p, at);
    (SetEnd(Emit(q, OpCode(node, op)), end), end)
  }

  /** Registers a name in the next free variable slot. A full table is ignored. */
  function Register(names: seq<string>, name: string): (r: seq<string>)
    ensures names <= r
    ensures |names| <= MAX_VARIABLES ==> |r| <= MAX_VARIABLES
    ensures name in r || |names| >= MAX_VARIABLES
  {
    if name in names || |names| >= MAX_VARIABLES then names else names + [name]
  }

  /** Emits a reference to a variable, or nothing when it has no slot. */
  function EmitVariable(p: Program, name: string): (r: Program)
    requires p.Valid()
    ensures r.Valid() && |r.code| == |p.code|
  {
    var names := Register(p.names, name);
    var id := IndexOf(names, name);
    var q := p.(names := names);
    if id < |names| && id < MAX_VARIABLES then Emit(q, OperandCode(VARIABLE, id)) else q
  }

  // ------------------------------------------------------------------ parsing

  datatype Token =
    | Identifier(name: string) | IntegerValue(value: Long) | StringValue | FloatValue
    | LeftParen | RightParen
    | ArithToken(op: ArithOp) | RelationToken(rel: Relation)
    | AndToken | OrToken
    | OtherToken
    | NoToken  // the end of the input

  datatype Parse = Parse(ok: bool, pos: nat, p: Program)

  function Peek(ts: seq<Token>, pos: nat): Token {
    if pos < |ts| then ts[pos] else NoToken
  }

  function After(ts: seq<Token>, pos: nat): nat {
    if pos < |ts| then pos + 1 else pos
  }

  /** What a parsing function may do to the position and the program. */
  predicate Advances(ts: seq<Token>, pos: nat, p: Program, r: Parse) {
    pos <= r.pos <= |ts| && r.p.Valid() && |r.p.code| == |p.code|
  }

  /** An operand. Strings and floats are accepted but emit nothing. A token that is no
      operand is consumed all the same. */
  function ParseOperand(ts: seq<Token>, pos: nat, p: Program): (r: Parse)
    requires pos <= |ts| && p.Valid()
    ensures Advances(ts, pos, p, r) && (r.ok ==> pos < r.pos)
  {
    match Peek(ts, pos)
    case Identifier(n) => Parse(true, pos + 1, EmitVariable(p, n))
    case IntegerValue(v) => Parse(true, pos + 1, Emit(p, OperandCode(LONG, LongToWord(v))))
    case StringValue => Parse(true, pos + 1, p)
    case FloatValue => Parse(true, pos + 1, p)
    case _ => Parse(false, After(ts, pos), p)
  }

  function ParseExpr(ts: seq<Token>, pos: nat, p: Program): (r: Parse)
    requires pos <= |ts| && p.Valid()
    ensures Advances(ts, pos, p, r)
    decreases |ts| - pos, 1
  {
    var first :=
      if Peek(ts, pos) == LeftParen then Close(ts, ParseExpr(ts, pos + 1, p))
      else ParseOperand(ts, pos, p);
    if first.ok then ParseOperators(ts, first.pos, first.p, p.end) else first
  }

  /** Consumes the closing parenthesis that must follow a group. */
  function Close(ts: seq<Token>, inner: Parse): (r: Parse)
    requires inner.pos <= |ts|
    ensures inner.pos <= r.pos <= |ts| && r.p == inner.p
    ensures r.ok <==> inner.ok && Peek(ts, inner.pos) == RightParen
  {
    if !inner.ok then inner
    else if Peek(ts, inner.pos) == RightParen then Parse(true, inner.pos + 1, inner.p)
    else Parse(false, After(ts, inner.pos), inner.p)
  }

  /** The operand of a binary operator: an operand, or else an expression that starts after
      the token that was no operand. */
  function ParseArgument(ts: seq<Token>, pos: nat, p: Program): (r: Parse)
    requires pos <= |ts| && p.Valid()
    ensures Advances(ts, pos, p, r)
    decreases |ts| - pos, 2
  {
    var operand := ParseOperand(ts, pos, p);
    if operand.ok then operand else ParseExpr(ts, operand.pos, operand.p)
  }

  /** The operators that follow a first operand whose code starts at `saved`. A closing
      parenthesis ends the expression and is consumed. */
  function ParseOperators(ts: seq<Token>, pos: nat, p: Program, saved: nat): (r: Parse)
    requires pos <= |ts| && p.Valid()
    ensures Advances(ts, pos, p, r)
    decreases |ts| - pos, 0
  {
    match Peek(ts, pos)
    case ArithToken(op) =>
      var argument := ParseArgument(ts, pos + 1, p);
      if !argument.ok then argument else
      var (placed, end) := Place(argument.p, saved, ARITH_OP, ArithCode(op));
      ParseOperators(ts, argument.pos, placed, end)
    case RightParen => Parse(true, pos + 1, p)
    case _ => Parse(true, pos, p)
  }

  function ParseComparison(ts: seq<Token>, pos: nat, p: Program): (r: Parse)
    requires pos <= |ts| && p.Valid()
    ensures Advances(ts, pos, p, r) && (r.ok && pos < |ts| ==> pos < r.pos)
  {
    var left := ParseExpr(ts, pos, JumpToOperand(p));
    if !left.ok then left else
    var q := SetEnd(left.p, p.end);
    match Peek(ts, left.pos)
    case RelationToken(rel) =>
      ParseExpr(ts, left.pos + 1, SetEnd(Emit(q, OpCode(CMP_OP, RelationCode(rel))), left.p.end))
    case _ => Parse(false, After(ts, left.pos), q)
  }

  function ParseWhere(ts: seq<Token>, pos: nat, p: Program): (r: Parse)
    requires pos <= |ts| && p.Valid()
    ensures Advances(ts, pos, p, r)
    decreases |ts| - pos, 1
  {
    var first := ParseComparison(ts, pos, p);
    if first.ok then ParseConnectives(ts, first.pos, first.p, 0) else first
  }

  /** The connectives after the first comparison; the next one is placed at `saved`. A later
      comparison that fails ends the clause without an error, because the zero that the failed
      call gives is returned and passes for no error. */
  function ParseConnectives(ts: seq<Token>, pos: nat, p: Program, saved: nat): (r: Parse)
    requires pos <= |ts| && p.Valid()
    ensures Advances(ts, pos, p, r)
    decreases |ts| - pos, 0
  {
    if Peek(ts, pos) != AndToken && Peek(ts, pos) != OrToken then Parse(true, pos, p) else
    var connective := if Peek(ts, pos) == AndToken then AND else OR;
    var (placed, end) := Place(p, saved, CMP_OP, connective);
    if Peek(ts, pos + 1) == LeftParen then
      var group := Close(ts, ParseWhere(ts, pos + 2, placed));
      if group.ok then ParseConnectives(ts, group.pos, group.p, end) else group
    else
      var next := ParseComparison(ts, pos + 1, placed);
      if next.ok then ParseConnectives(ts, next.pos, next.p, end) else Parse(true, next.pos, next.p)
  }

  /** One turn of the loop over connectives. */
  lemma ConnectivesStep(ts: seq<Token>, pos: nat, p: Program, saved: nat)
    requires pos <= |ts| && p.Valid()
    ensures ParseConnectives(ts, pos, p, saved) ==
      if Peek(ts, pos) != AndToken && Peek(ts, pos) != OrToken then Parse(true, pos, p) else
      var connective := if Peek(ts, pos) == AndToken then AND else OR;
      var (placed, end) := Place(p, saved, CMP_OP, connective);
      if Peek(ts, pos + 1) == LeftParen then
        var group := Close(ts, ParseWhere(ts, pos + 2, placed));
        if group.ok then ParseConnectives(ts, group.pos, group.p, end) else group
      else
        var next := ParseComparison(ts, pos + 1, placed);
        if next.ok then ParseConnectives(ts, next.pos, next.p, end) else Parse(true, next.pos, next.p)
  {
  }

  // ------------------------------------------------------------ source clauses

  datatype Literal = Name(name: string) | Number(value: Long)

  /** One side of a comparison: an operand followed by any number of operators. */
  datatype Side = Side(first: Literal, ops: Operators)
  datatype Operators = Done | Then(op: ArithOp, arg: Argument, rest: Operators)
  datatype Argument = Plain(lit: Literal) | Group(side: Side)

  datatype Comparison = Comparison(left: Side, rel: Relation, right: Side)
  datatype Connective = Conjunction | Disjunction
  datatype Clause = Last(c: Comparison) | Link(c: Comparison, conn: Connective, rest: Clause)

  function LiteralToken(l: Literal): Token {
    match l case Name(n) => Identifier(n) case Number(v) => IntegerValue(v)
  }

  function SideTokens(s: Side): (r: seq<Token>)
    ensures |r| > 0 && r[0] == LiteralToken(s.first)
  {
    [LiteralToken(s.first)] + OperatorTokens(s.ops)
  }

  function OperatorTokens(o: Operators): seq<Token> {
    match o
    case Done => []
    case Then(op, arg, rest) => [ArithToken(op)] + (ArgumentTokens(arg) + OperatorTokens(rest))
  }

  function ArgumentTokens(a: Argument): seq<Token> {
    match a
    case Plain(l) => [LiteralToken(l)]
    case Group(s) => [LeftParen] + (SideTokens(s) + [RightParen])
  }

  function ConnectiveToken(k: Connective): Token {
    match k case Conjunction => AndToken case Disjunction => OrToken
  }

  function ComparisonTokens(c: Comparison): seq<Token> {
    SideTokens(c.left) + ([RelationToken(c.rel)] + SideTokens(c.right))
  }

  function ClauseTokens(c: Clause): seq<Token> {
    match c
    case Last(k) => ComparisonTokens(k)
    case Link(k, conn, rest) => ComparisonTokens(k) + ([ConnectiveToken(conn)] + ClauseTokens(rest))
  }

  // The names registered by a clause, in order of first use.

  function LiteralNames(names: seq<string>, l: Literal): (r: seq<string>)
    ensures names <= r
  {
    match l case Name(n) => Register(names, n) case Number(_) => names
  }

  function SideNames(names: seq<string>, s: Side): (r: seq<string>)
    ensures names <= r
    decreases s
  {
    OperatorNames(LiteralNames(names, s.first), s.ops)
  }

  function OperatorNames(names: seq<string>, o: Operators): (r: seq<string>)
    ensures names <= r
    decreases o
  {
    match o
    case Done => names
    case Then(_, arg, rest) => OperatorNames(ArgumentNames(names, arg), rest)
  }

  function ArgumentNames(names: seq<string>, a: Argument): (r: seq<string>)
    ensures names <= r
    decreases a
  {
    match a case Plain(l) => LiteralNames(names, l) case Group(s) => SideNames(names, s)
  }

  function ComparisonNames(names: seq<string>, c: Comparison): (r: seq<string>)
    ensures names <= r
  {
    SideNames(SideNames(names, c.left), c.right)
  }

  function ClauseNames(names: seq<string>, c: Clause): (r: seq<string>)
    ensures names <= r
    decreases c
  {
    match c
    case Last(k) => ComparisonNames(names, k)
    case Link(k, _, rest) => ClauseNames(ComparisonNames(names, k), rest)
  }

  // The code a clause leaves, for the slots of `names`.

  function LiteralCode(l: Literal, names: seq<string>): (s: seq<Word>)
    ensures |s| == 3
  {
    match l
    case Name(n) => OperandCode(VARIABLE, IndexOf(names, n) % 256)
    case Number(v) => OperandCode(LONG, LongToWord(v))
  }

  /** The first operator is placed in front of the first operand. Every later one is placed
      in front of its own right operand only. */
  function SideCode(s: Side, names: seq<string>): (r: seq<Word>)
    ensures |r| >= 3
    decreases s
  {
    OperatorsCode(LiteralCode(s.first, names), s.ops, names)
  }

  function OperatorsCode(before: seq<Word>, o: Operators, names: seq<string>): (r: seq<Word>)
    ensures |r| >= |before|
    decreases o
  {
    match o
    case Done => before
    case Then(op, arg, rest) =>
      OpCode(ARITH_OP, ArithCode(op)) + (before + ArgumentCode(arg, names)) + OperatorsCode([], rest, names)
  }

  function ArgumentCode(a: Argument, names: seq<string>): (r: seq<Word>)
    ensures |r| >= 3
    decreases a
  {
    match a case Plain(l) => LiteralCode(l, names) case Group(s) => SideCode(s, names)
  }

  function ComparisonCode(c: Comparison, names: seq<string>): (r: seq<Word>)
    ensures |r| >= 8
  {
    OpCode(CMP_OP, RelationCode(c.rel)) + (SideCode(c.left, names) + SideCode(c.right, names))
  }

  function ConnectiveCode(k: Connective): Word {
    match k case Conjunction => AND case Disjunction => OR
  }

  function ClauseCode(c: Clause, names: seq<string>): (r: seq<Word>)
    ensures |r| >= 8
  {
    match c
    case Last(k) => ComparisonCode(k, names)
    case Link(k, conn, rest) =>
      OpCode(CMP_OP, ConnectiveCode(conn)) + (ComparisonCode(k, names) + ClauseCode(rest, names))
  }

  // ------------------------------------------------- emission, seen as appending

  /** The code emitted so far. */
  function Text(p: Program): seq<Word>
    requires p.Valid()
  {
    p.code[..p.end]
  }

  /** `q` is `p` with `words` appended and `names` registered. */
  predicate Appended(p: Program, q: Program, words: seq<Word>, names: seq<string>) {
    && p.Valid() && q.Valid() && |q.code| == |p.code|
    && Text(q) == Text(p) + words
    && q.end == p.end + |words|
    && q.error == p.error && q.fault == p.fault
    && q.names == names
  }

  lemma AppendedTwice(p: Program, q: Program, r: Program, w1: seq<Word>, w2: seq<Word>, names: seq<string>)
    requires Appended(p, q, w1, q.names) && Appended(q, r, w2, names)
    ensures Appended(p, r, w1 + w2, names)
  {
    assert Text(p) + w1 + w2 == Text(p) + (w1 + w2);
  }

  lemma AppendedEnd(p: Program, q: Program, words: seq<Word>, names: seq<string>)
    requires Appended(p, q, words, names)
    ensures p.Valid() && q.Valid() && |q.code| == |p.code| && q.end == p.end + |words| && q.names == names
  {
  }

  /** Appending twice, where the first part already carries its operator. */
  lemma AppendedOperator(p: Program, q: Program, r: Program, op: seq<Word>, w1: seq<Word>, w2: seq<Word>, names: seq<string>)
    requires Appended(p, q, op + w1, q.names) && Appended(q, r, w2, names)
    ensures Appended(p, r, op + (w1 + w2), names)
  {
    AppendedTwice(p, q, r, op + w1, w2, names);
    assert op + w1 + w2 == op + (w1 + w2);
  }

  lemma EmitAppends(p: Program, words: seq<Word>)
    requires p.Valid() && p.end + |words| <= |p.code|
    ensures Appended(p, Emit(p, words), words, p.names)
  {
  }

  /** Shifting code right and patching an operator in front inserts the operator there. */
  lemma PlaceInserts(base: Program, p: Program, tail: seq<Word>, node: Word, op: Word)
    requires Appended(base, p, tail, p.names)
    requires |tail| > 0 && p.end + 2 < |p.code|
    ensures Place(p, base.end, node, op).1 == Place(p, base.end, node, op).0.end
    ensures Appended(base, Place(p, base.end, node, op).0, OpCode(node, op) + tail, p.names)
  {
    var q := ShiftForOperator(p, base.end).0;
    var r := Place(p, base.end, node, op).0;
    assert tail == p.code[base.end..p.end];
    assert q.code[..base.end] == Text(base);
    assert q.code[base.end + 2..r.end] == tail;
    assert Text(r) == q.code[..base.end] + OpCode(node, op) + q.code[base.end + 2..r.end];
    assert Text(base) + OpCode(node, op) + tail == Text(base) + (OpCode(node, op) + tail);
  }

  lemma OperatorPlaced(base: Program, p: Program, q: Program, before: seq<Word>, argument: seq<Word>, op: ArithOp)
    requires Appended(base, p, before, p.names) && Appended(p, q, argument, q.names)
    requires |argument| > 0 && q.end + 2 < |q.code|
    ensures Place(q, base.end, ARITH_OP, ArithCode(op)).1 == Place(q, base.end, ARITH_OP, ArithCode(op)).0.end
    ensures Appended(base, Place(q, base.end, ARITH_OP, ArithCode(op)).0,
                     OpCode(ARITH_OP, ArithCode(op)) + (before + argument), q.names)
  {
    AppendedTwice(base, p, q, before, argument, q.names);
    PlaceInserts(base, q, before + argument, ARITH_OP, ArithCode(op));
  }

  // -------------------------------------------------- parsing emits ClauseCode

  /** The tokens `t` stand at `pos`. */
  predicate TokensAt(ts: seq<Token>, pos: nat, t: seq<Token>) {
    pos + |t| <= |ts| && ts[pos..pos + |t|] == t
  }

  lemma TokensAtSplit(ts: seq<Token>, pos: nat, a: seq<Token>, b: seq<Token>)
    requires TokensAt(ts, pos, a + b)
    ensures TokensAt(ts, pos, a) && TokensAt(ts, pos + |a|, b)
  {
    var whole := a + b;
    assert ts[pos..pos + |a|] == whole[..|a|];
    assert ts[pos + |a|..pos + |whole|] == whole[|a|..];
  }

  /** The position after an expression that the token at `pos` ends: a closing parenthesis
      is consumed, any other token is left. */
  function AfterExpr(ts: seq<Token>, pos: nat): nat {
    if Peek(ts, pos) == RightParen then pos + 1 else pos
  }

  lemma {:induction false} IndexOfInPrefix(names: seq<string>, final: seq<string>, n: string)
    requires names <= final && n in names
    ensures IndexOf(names, n) == IndexOf(final, n) < |names|
  {
    assert names[0] == final[0];
    if names[0] != n {
      assert names[1..] <= final[1..];
      IndexOfInPrefix(names[1..], final[1..], n);
    }
  }

  // Every name of the clause has a slot.

  predicate LiteralResolved(l: Literal, names: seq<string>) {
    l.Name? ==> l.name in names
  }

  predicate SideResolved(s: Side, names: seq<string>)
    decreases s
  {
    LiteralResolved(s.first, names) && OperatorsResolved(s.ops, names)
  }

  predicate OperatorsResolved(o: Operators, names: seq<string>)
    decreases o
  {
    match o
    case Done => true
    case Then(_, arg, rest) => ArgumentResolved(arg, names) && OperatorsResolved(rest, names)
  }

  predicate ArgumentResolved(a: Argument, names: seq<string>)
    decreases a
  {
    match a case Plain(l) => LiteralResolved(l, names) case Group(s) => SideResolved(s, names)
  }

  predicate ClauseResolved(c: Clause, names: seq<string>) {
    SideResolved(c.c.left, names) && SideResolved(c.c.right, names)
    && (c.Link? ==> ClauseResolved(c.rest, names))
  }

  lemma PrefixTransitive(a: seq<string>, b: seq<string>, c: seq<string>)
    requires a <= b && b <= c
    ensures a <= c
  {
  }

  lemma ParsesLiteral(l: Literal, ts: seq<Token>, pos: nat, p: Program, final: seq<string>)
    requires p.Valid() && pos < |ts| && ts[pos] == LiteralToken(l)
    requires LiteralNames(p.names, l) <= final && |final| <= MAX_VARIABLES && LiteralResolved(l, final)
    requires p.end + 3 <= |p.code|
    ensures var r := ParseOperand(ts, pos, p);
            r.ok && r.pos == pos + 1 && Appended(p, r.p, LiteralCode(l, final), LiteralNames(p.names, l))
  {
    hide Appended, Emit, Register, LongToWord, EmitVariable;
    match l
    case Name(n) =>
      EmitsVariable(p, n, final);
    case Number(v) =>
      EmitAppends(p, OperandCode(LONG, LongToWord(v)));
  }

  lemma EmitsVariable(p: Program, n: string, final: seq<string>)
    requires p.Valid() && p.end + 3 <= |p.code|
    requires Register(p.names, n) <= final && |final| <= MAX_VARIABLES && n in final
    ensures Appended(p, EmitVariable(p, n), OperandCode(VARIABLE, IndexOf(final, n)), Register(p.names, n))
    ensures IndexOf(final, n) < 256
  {
    var names := Register(p.names, n);
    assert n !in names ==> final == names;
    IndexOfInPrefix(names, final, n);
    EmitAppends(p.(names := names), OperandCode(VARIABLE, IndexOf(final, n)));
  }

  lemma {:induction false} ParsesArgument(a: Argument, ts: seq<Token>, pos: nat, p: Program, final: seq<string>)
    requires p.Valid() && pos <= |ts| && TokensAt(ts, pos, ArgumentTokens(a))
    requires ArgumentNames(p.names, a) <= final && |final| <= MAX_VARIABLES && ArgumentResolved(a, final)
    requires p.end + |ArgumentCode(a, final)| < |p.code|
    ensures var r := ParseArgument(ts, pos, p);
            && r.ok && r.pos == pos + |ArgumentTokens(a)|
            && Appended(p, r.p, ArgumentCode(a, final), ArgumentNames(p.names, a))
    decreases a
  {
    hide TokensAt, Appended, ParseExpr, SideCode, SideNames, SideResolved, LiteralCode, LiteralNames;
    ArgumentTokensAt(a, ts, pos);
    match a
    case Plain(l) =>
      ParsesLiteral(l, ts, pos, p, final);
    case Group(s) =>
      ParsesSide(s, ts, pos + 1, p, final);
  }

  lemma ArgumentTokensAt(a: Argument, ts: seq<Token>, pos: nat)
    requires TokensAt(ts, pos, ArgumentTokens(a))
    ensures pos + |ArgumentTokens(a)| <= |ts|
    ensures a.Plain? ==> |ArgumentTokens(a)| == 1 && ts[pos] == LiteralToken(a.lit)
    ensures a.Group? ==>
      var n := |SideTokens(a.side)|;
      && |ArgumentTokens(a)| == n + 2 && ts[pos] == LeftParen && TokensAt(ts, pos + 1, SideTokens(a.side))
      && ts[pos + 1 + n] == RightParen
  {
    match a
    case Plain(l) =>
      assert ts[pos..pos + 1] == [LiteralToken(l)];
    case Group(s) =>
      TokensAtSplit(ts, pos, [LeftParen], SideTokens(s) + [RightParen]);
      TokensAtSplit(ts, pos + 1, SideTokens(s), [RightParen]);
      var n := |SideTokens(s)|;
      assert ts[pos..pos + 1] == [LeftParen] && ts[pos + 1 + n..pos + 1 + n + 1] == [RightParen];
  }

  lemma {:induction false} ParsesSide(s: Side, ts: seq<Token>, pos: nat, p: Program, final: seq<string>)
    requires p.Valid() && pos <= |ts| && TokensAt(ts, pos, SideTokens(s))
    requires !Peek(ts, pos + |SideTokens(s)|).ArithToken?
    requires SideNames(p.names, s) <= final && |final| <= MAX_VARIABLES && SideResolved(s, final)
    requires p.end + |SideCode(s, final)| < |p.code|
    ensures var r := ParseExpr(ts, pos, p);
            && r.ok && r.pos == AfterExpr(ts, pos + |SideTokens(s)|)
            && Appended(p, r.p, SideCode(s, final), SideNames(p.names, s))
    decreases s
  {
    hide TokensAt, Appended, ParseOperand, LiteralResolved, OperatorsResolved, LiteralNames, OperatorNames;
    SideTokensAt(s, ts, pos);
    var lit := LiteralCode(s.first, final);
    PrefixTransitive(LiteralNames(p.names, s.first), SideNames(p.names, s), final);
    assert 3 <= |OperatorsCode(lit, s.ops, final)|;
    ParsesLiteral(s.first, ts, pos, p, final);
    var q := ParseOperand(ts, pos, p).p;
    AppendedEnd(p, q, lit, LiteralNames(p.names, s.first));
    ParsesOperators(p, lit, s.ops, ts, pos + 1, q, final);
  }

  lemma SideTokensAt(s: Side, ts: seq<Token>, pos: nat)
    requires TokensAt(ts, pos, SideTokens(s))
    ensures pos < |ts| && ts[pos] == LiteralToken(s.first) && ts[pos] != LeftParen
    ensures TokensAt(ts, pos + 1, OperatorTokens(s.ops)) && pos + 1 + |OperatorTokens(s.ops)| == pos + |SideTokens(s)| <= |ts|
  {
    TokensAtSplit(ts, pos, [LiteralToken(s.first)], OperatorTokens(s.ops));
    assert ts[pos..pos + 1] == [LiteralToken(s.first)];
  }

  lemma EmptyAppended(p: Program)
    requires p.Valid()
    ensures Appended(p, p, [], p.names)
  {
    assert Text(p) + [] == Text(p);
  }

  lemma OperatorTokensAt(op: ArithOp, arg: Argument, rest: Operators, ts: seq<Token>, pos: nat)
    requires TokensAt(ts, pos, OperatorTokens(Then(op, arg, rest)))
    ensures pos < |ts| && ts[pos] == ArithToken(op)
    ensures TokensAt(ts, pos + 1, ArgumentTokens(arg))
    ensures TokensAt(ts, pos + 1 + |ArgumentTokens(arg)|, OperatorTokens(rest))
    ensures pos + 1 + |ArgumentTokens(arg)| + |OperatorTokens(rest)| == pos + |OperatorTokens(Then(op, arg, rest))|
    ensures pos + |OperatorTokens(Then(op, arg, rest))| <= |ts|
  {
    TokensAtSplit(ts, pos, [ArithToken(op)], ArgumentTokens(arg) + OperatorTokens(rest));
    TokensAtSplit(ts, pos + 1, ArgumentTokens(arg), OperatorTokens(rest));
  }

  lemma {:induction false} ParsesOperators(base: Program, before: seq<Word>, o: Operators, ts: seq<Token>, pos: nat, p: Program, final: seq<string>)
    requires Appended(base, p, before, p.names)
    requires pos <= |ts| && TokensAt(ts, pos, OperatorTokens(o))
    requires !Peek(ts, pos + |OperatorTokens(o)|).ArithToken?
    requires OperatorNames(p.names, o) <= final && |final| <= MAX_VARIABLES && OperatorsResolved(o, final)
    requires base.end + |OperatorsCode(before, o, final)| < |p.code|
    ensures var r := ParseOperators(ts, pos, p, base.end);
            && r.ok && r.pos == AfterExpr(ts, pos + |OperatorTokens(o)|)
            && Appended(base, r.p, OperatorsCode(before, o, final), OperatorNames(p.names, o))
    decreases o
  {
    hide Place, Appended, TokensAt, ParseArgument, OpCode, ArgumentCode, ArgumentTokens, ArgumentNames, ArgumentResolved;
    match o
    case Done =>
    case Then(op, arg, rest) =>
      OperatorTokensAt(op, arg, rest, ts, pos);
      AppendedEnd(base, p, before, p.names);
      PrefixTransitive(ArgumentNames(p.names, arg), OperatorNames(p.names, o), final);
      ParsesArgument(arg, ts, pos + 1, p, final);
      var argument := ParseArgument(ts, pos + 1, p);
      AppendedEnd(p, argument.p, ArgumentCode(arg, final), ArgumentNames(p.names, arg));
      var placed := Place(argument.p, base.end, ARITH_OP, ArithCode(op)).0;
      OperatorPlaced(base, p, argument.p, before, ArgumentCode(arg, final), op);
      var code := OpCode(ARITH_OP, ArithCode(op)) + (before + ArgumentCode(arg, final));
      AppendedEnd(base, placed, code, argument.p.names);
      EmptyAppended(placed);
      ParsesOperators(placed, [], rest, ts, argument.pos, placed, final);
      var r := ParseOperators(ts, argument.pos, placed, placed.end);
      AppendedEnd(placed, r.p, OperatorsCode([], rest, final), OperatorNames(placed.names, rest));
      AppendedTwice(base, placed, r.p, code, OperatorsCode([], rest, final), r.p.names);
  }

  /** The relational operator is written into the gap left in front of the left side. */
  lemma RelationWritten(p: Program, left: Program, code: seq<Word>, rel: Relation)
    requires p.Valid() && p.end + 2 < |p.code|
    requires Appended(JumpToOperand(p), left, code, left.names) && left.end < |left.code|
    ensures var q := SetEnd(Emit(SetEnd(left, p.end), OpCode(CMP_OP, RelationCode(rel))), left.end);
            Appended(p, q, OpCode(CMP_OP, RelationCode(rel)) + code, left.names)
  {
    var op := OpCode(CMP_OP, RelationCode(rel));
    var q := SetEnd(Emit(SetEnd(left, p.end), op), left.end);
    assert Text(left) == Text(JumpToOperand(p)) + code;
    assert left.code[p.end + 2..left.end] == code;
    assert left.code[..p.end] == Text(p) by {
      assert left.code[..p.end] == Text(left)[..p.end] == Text(JumpToOperand(p))[..p.end];
    }
    assert Text(q) == left.code[..p.end] + op + left.code[p.end + 2..left.end];
    assert Text(p) + op + code == Text(p) + (op + code);
  }

  lemma ComparisonTokensAt(c: Comparison, ts: seq<Token>, pos: nat)
    requires TokensAt(ts, pos, ComparisonTokens(c))
    ensures var mid := pos + |SideTokens(c.left)|;
            && TokensAt(ts, pos, SideTokens(c.left))
            && mid < |ts| && ts[mid] == RelationToken(c.rel)
            && TokensAt(ts, mid + 1, SideTokens(c.right))
            && mid + 1 + |SideTokens(c.right)| == pos + |ComparisonTokens(c)|
  {
    TokensAtSplit(ts, pos, SideTokens(c.left), [RelationToken(c.rel)] + SideTokens(c.right));
    TokensAtSplit(ts, pos + |SideTokens(c.left)|, [RelationToken(c.rel)], SideTokens(c.right));
    assert [RelationToken(c.rel)][0] == ts[pos + |SideTokens(c.left)|];
  }

  lemma JumpedEnd(p: Program)
    requires p.Valid() && p.end + 2 < |p.code|
    ensures var q := JumpToOperand(p); q.Valid() && q.end == p.end + 2 && |q.code| == |p.code| && q.names == p.names
  {
  }

  lemma ParsesComparison(c: Comparison, ts: seq<Token>, pos: nat, p: Program, final: seq<string>)
    requires p.Valid() && pos <= |ts| && TokensAt(ts, pos, ComparisonTokens(c))
    requires !Peek(ts, pos + |ComparisonTokens(c)|).ArithToken?
    requires ComparisonNames(p.names, c) <= final && |final| <= MAX_VARIABLES
    requires SideResolved(c.left, final) && SideResolved(c.right, final)
    requires p.end + |ComparisonCode(c, final)| < |p.code|
    ensures var r := ParseComparison(ts, pos, p);
            && r.ok && r.pos == AfterExpr(ts, pos + |ComparisonTokens(c)|)
            && Appended(p, r.p, ComparisonCode(c, final), ComparisonNames(p.names, c))
  {
    hide Appended, ParseExpr, TokensAt, ComparisonTokens, Emit, JumpToOperand, SetEnd, SideCode, SideTokens, OpCode, RelationCode;
    JumpedEnd(p);
    ComparisonTokensAt(c, ts, pos);
    PrefixTransitive(SideNames(p.names, c.left), ComparisonNames(p.names, c), final);
    var lc, rc := SideCode(c.left, final), SideCode(c.right, final);
    ParsesSide(c.left, ts, pos, JumpToOperand(p), final);
    var left := ParseExpr(ts, pos, JumpToOperand(p));
    AppendedEnd(JumpToOperand(p), left.p, lc, SideNames(p.names, c.left));
    RelationWritten(p, left.p, lc, c.rel);
    var op := OpCode(CMP_OP, RelationCode(c.rel));
    var q := SetEnd(Emit(SetEnd(left.p, p.end), op), left.p.end);
    AppendedEnd(p, q, op + lc, left.p.names);
    ParsesSide(c.right, ts, left.pos + 1, q, final);
    var r := ParseExpr(ts, left.pos + 1, q);
    AppendedEnd(q, r.p, rc, SideNames(q.names, c.right));
    AppendedOperator(p, q, r.p, op, lc, rc, r.p.names);
  }

  /** A token that cannot continue a clause. */
  predicate EndsClause(t: Token) {
    !t.ArithToken? && t != AndToken && t != OrToken
  }

  lemma ConnectiveTokensAt(conn: Connective, rest: Clause, ts: seq<Token>, pos: nat)
    requires TokensAt(ts, pos, [ConnectiveToken(conn)] + ClauseTokens(rest))
    ensures pos < |ts| && ts[pos] == ConnectiveToken(conn)
    ensures TokensAt(ts, pos + 1, ClauseTokens(rest))
    ensures pos + 1 < |ts| && ts[pos + 1] != LeftParen
  {
    TokensAtSplit(ts, pos, [ConnectiveToken(conn)], ClauseTokens(rest));
    assert [ConnectiveToken(conn)][0] == ts[pos];
    assert ClauseTokens(rest)[0] == ts[pos + 1];
  }

  lemma LinkTokensAt(c: Clause, ts: seq<Token>, pos: nat)
    requires c.Link? && TokensAt(ts, pos, ClauseTokens(c))
    ensures var mid := pos + |ComparisonTokens(c.c)|;
            && TokensAt(ts, pos, ComparisonTokens(c.c))
            && TokensAt(ts, mid, [ConnectiveToken(c.conn)] + ClauseTokens(c.rest))
            && mid < |ts| && ts[mid] == ConnectiveToken(c.conn)
            && mid + 1 + |ClauseTokens(c.rest)| == pos + |ClauseTokens(c)|
  {
    var tail := [ConnectiveToken(c.conn)] + ClauseTokens(c.rest);
    TokensAtSplit(ts, pos, ComparisonTokens(c.c), tail);
    ConnectiveTokensAt(c.conn, c.rest, ts, pos + |ComparisonTokens(c.c)|);
  }

  /** The rest of a clause after its first comparison, whose code starts at the end of `base`. */
  lemma {:induction false} ParsesConnectives(c: Clause, base: Program, ts: seq<Token>, pos: nat, p: Program, final: seq<string>)
    requires Appended(base, p, ComparisonCode(c.c, final), p.names)
    requires pos <= |ts|
    requires match c
             case Last(_) => EndsClause(Peek(ts, pos))
             case Link(_, conn, rest) =>
               && TokensAt(ts, pos, [ConnectiveToken(conn)] + ClauseTokens(rest))
               && var next := pos + 1 + |ClauseTokens(rest)|;
               EndsClause(Peek(ts, next)) && EndsClause(Peek(ts, AfterExpr(ts, next)))
    requires c.Link? ==> ClauseNames(p.names, c.rest) <= final && |final| <= MAX_VARIABLES && ClauseResolved(c.rest, final)
    requires base.end + |ClauseCode(c, final)| < |p.code|
    ensures var r := ParseConnectives(ts, pos, p, base.end);
            && r.ok
            && r.pos == (if c.Last? then pos else AfterExpr(ts, pos + 1 + |ClauseTokens(c.rest)|))
            && Appended(base, r.p, ClauseCode(c, final), if c.Last? then p.names else ClauseNames(p.names, c.rest))
    decreases c, 0
  {
    hide Place, ParseComparison, ComparisonCode, ComparisonTokens, ComparisonNames;
    match c
    case Last(_) =>
    case Link(k, conn, rest) =>
      ConnectiveTokensAt(conn, rest, ts, pos);
      var op := OpCode(CMP_OP, ConnectiveCode(conn));
      var placed := Place(p, base.end, CMP_OP, ConnectiveCode(conn)).0;
      PlaceInserts(base, p, ComparisonCode(k, final), CMP_OP, ConnectiveCode(conn));
      ParsesClauseFrom(rest, ts, pos + 1, placed, final);
      var next := ParseComparison(ts, pos + 1, placed);
      var r := ParseConnectives(ts, next.pos, next.p, placed.end);
      AppendedOperator(base, placed, r.p, op, ComparisonCode(k, final), ClauseCode(rest, final), r.p.names);
  }

  /** A comparison and the connectives that follow it, emitted at the end of `p`. */
  lemma {:induction false} ParsesClauseFrom(c: Clause, ts: seq<Token>, pos: nat, p: Program, final: seq<string>)
    requires p.Valid() && pos <= |ts| && TokensAt(ts, pos, ClauseTokens(c))
    requires var next := pos + |ClauseTokens(c)|;
             EndsClause(Peek(ts, next)) && EndsClause(Peek(ts, AfterExpr(ts, next)))
    requires ClauseNames(p.names, c) <= final && |final| <= MAX_VARIABLES && ClauseResolved(c, final)
    requires p.end + |ClauseCode(c, final)| < |p.code|
    ensures var first := ParseComparison(ts, pos, p);
            var r := ParseConnectives(ts, first.pos, first.p, p.end);
            && first.ok && r.ok && r.pos == AfterExpr(ts, pos + |ClauseTokens(c)|)
            && Appended(p, r.p, ClauseCode(c, final), ClauseNames(p.names, c))
    decreases c, 1
  {
    hide Place, ParseComparison, ComparisonCode, ComparisonNames, Appended, TokensAt, ComparisonTokens;
    match c
    case Last(k) =>
      ParsesComparison(k, ts, pos, p, final);
      AppendedEnd(p, ParseComparison(ts, pos, p).p, ComparisonCode(k, final), ComparisonNames(p.names, k));
      ParsesConnectives(c, p, ts, AfterExpr(ts, pos + |ClauseTokens(c)|), ParseComparison(ts, pos, p).p, final);
    case Link(k, conn, rest) =>
      LinkTokensAt(c, ts, pos);
      PrefixTransitive(ComparisonNames(p.names, k), ClauseNames(p.names, c), final);
      ParsesComparison(k, ts, pos, p, final);
      var first := ParseComparison(ts, pos, p);
      AppendedEnd(p, first.p, ComparisonCode(k, final), ComparisonNames(p.names, k));
      ParsesConnectives(c, p, ts, first.pos, first.p, final);
  }
}
