/** What happens at the end of the code buffer: a clause whose code does not fit is always marked, by the error flag or
    as a write outside the buffer, and no other clause is. */
module AqlLimits {
  import opened MachineWords
  import opened LogicVm
  import opened AqlCompiler
  import opened AqlClauses

  /** The error flag is set, or something was written outside the buffer. */
  predicate Marked(p: Program) { p.error || p.fault }

  // ------------------------------------------------------------- marks stay

  lemma PlaceStays(p: Program, at: nat, node: Word, op: Word)
    requires p.Valid() && Marked(p)
    ensures Marked(Place(p, at, node, op).0)
  {
  }

  lemma OperandStays(ts: seq<Token>, pos: nat, p: Program)
    requires pos <= |ts| && p.Valid() && Marked(p)
    ensures Marked(ParseOperand(ts, pos, p).p)
  {
  }

  lemma {:induction false} ExprStays(ts: seq<Token>, pos: nat, p: Program)
    requires pos <= |ts| && p.Valid() && Marked(p)
    ensures Marked(ParseExpr(ts, pos, p).p)
    decreases |ts| - pos, 1
  {
    hide ParseOperand, ParseOperators;
    if Peek(ts, pos) == LeftParen {
      ExprStays(ts, pos + 1, p);
      var first := Close(ts, ParseExpr(ts, pos + 1, p));
      if first.ok {
        OperatorsStay(ts, first.pos, first.p, p.end);
      }
    } else {
      OperandStays(ts, pos, p);
      var first := ParseOperand(ts, pos, p);
      if first.ok {
        OperatorsStay(ts, first.pos, first.p, p.end);
      }
    }
  }

  lemma {:induction false} ArgumentStays(ts: seq<Token>, pos: nat, p: Program)
    requires pos <= |ts| && p.Valid() && Marked(p)
    ensures Marked(ParseArgument(ts, pos, p).p)
    decreases |ts| - pos, 2
  {
    OperandStays(ts, pos, p);
    var operand := ParseOperand(ts, pos, p);
    hide ParseOperand, ParseExpr;
    if !operand.ok {
      ExprStays(ts, operand.pos, operand.p);
    }
  }

  lemma {:induction false} OperatorsStay(ts: seq<Token>, pos: nat, p: Program, saved: nat)
    requires pos <= |ts| && p.Valid() && Marked(p)
    ensures Marked(ParseOperators(ts, pos, p, saved).p)
    decreases |ts| - pos, 0
  {
    hide ParseArgument, Place;
    match Peek(ts, pos)
    case ArithToken(op) =>
      ArgumentStays(ts, pos + 1, p);
      var argument := ParseArgument(ts, pos + 1, p);
      if argument.ok {
        PlaceStays(argument.p, saved, ARITH_OP, ArithCode(op));
        var (placed, end) := Place(argument.p, saved, ARITH_OP, ArithCode(op));
        OperatorsStay(ts, argument.pos, placed, end);
      }
    case _ =>
  }

  lemma ComparisonStays(ts: seq<Token>, pos: nat, p: Program)
    requires pos <= |ts| && p.Valid() && Marked(p)
    ensures Marked(ParseComparison(ts, pos, p).p)
  {
    hide ParseExpr;
    var left := ParseExpr(ts, pos, JumpToOperand(p));
    ExprStays(ts, pos, JumpToOperand(p));
    if left.ok {
      MarkedLeft(ts, left, p.end);
    }
  }

  /** What comes behind a left side. */
  function BehindLeft(ts: seq<Token>, left: Parse, at: nat): (r: Parse)
    requires left.pos <= |ts| && left.p.Valid()
  {
    var q := SetEnd(left.p, at);
    match Peek(ts, left.pos)
    case RelationToken(rel) =>
      ParseExpr(ts, left.pos + 1, SetEnd(Emit(q, OpCode(CMP_OP, RelationCode(rel))), left.p.end))
    case _ => Parse(false, After(ts, left.pos), q)
  }

  lemma ComparisonIs(ts: seq<Token>, pos: nat, p: Program)
    requires pos <= |ts| && p.Valid()
    ensures var left := ParseExpr(ts, pos, JumpToOperand(p));
            ParseComparison(ts, pos, p) == if !left.ok then left else BehindLeft(ts, left, p.end)
  {
    hide ParseExpr;
  }

  lemma MarkedLeft(ts: seq<Token>, left: Parse, at: nat)
    requires left.pos <= |ts| && left.p.Valid()
    requires Marked(left.p) || (left.p.end >= |left.p.code| && Peek(ts, left.pos).RelationToken?)
    ensures Marked(BehindLeft(ts, left, at).p)
  {
    hide ParseExpr;
    var q := SetEnd(left.p, at);
    if Peek(ts, left.pos).RelationToken? {
      var op := OpCode(CMP_OP, RelationCode(Peek(ts, left.pos).rel));
      var s := SetEnd(Emit(q, op), left.p.end);
      assert Marked(s);
      ExprStays(ts, left.pos + 1, s);
    }
  }

  lemma {:induction false} ConnectivesStay(ts: seq<Token>, pos: nat, p: Program, saved: nat)
    requires pos <= |ts| && p.Valid() && Marked(p)
    ensures Marked(ParseConnectives(ts, pos, p, saved).p)
    decreases |ts| - pos, 0
  {
    ConnectivesStep(ts, pos, p, saved);
    hide ParseConnectives, ParseComparison, ParseWhere, Place;
    if Peek(ts, pos) == AndToken || Peek(ts, pos) == OrToken {
      var connective := if Peek(ts, pos) == AndToken then AND else OR;
      var (placed, end) := Place(p, saved, CMP_OP, connective);
      PlaceStays(p, saved, CMP_OP, connective);
      if Peek(ts, pos + 1) == LeftParen {
        WhereStays(ts, pos + 2, placed);
        var group := Close(ts, ParseWhere(ts, pos + 2, placed));
        if group.ok {
          ConnectivesStay(ts, group.pos, group.p, end);
        }
      } else {
        ComparisonStays(ts, pos + 1, placed);
        var next := ParseComparison(ts, pos + 1, placed);
        if next.ok {
          ConnectivesStay(ts, next.pos, next.p, end);
        }
      }
    }
  }

  lemma {:induction false} WhereStays(ts: seq<Token>, pos: nat, p: Program)
    requires pos <= |ts| && p.Valid() && Marked(p)
    ensures Marked(ParseWhere(ts, pos, p).p)
    decreases |ts| - pos, 1
  {
    hide ParseComparison, ParseConnectives;
    ComparisonStays(ts, pos, p);
    var first := ParseComparison(ts, pos, p);
    if first.ok {
      ConnectivesStay(ts, first.pos, first.p, 0);
    }
  }

  // ------------------------------------------------------------ the last words

  /** An operator that leaves no room behind it is marked. */
  lemma PlaceAtLimit(p: Program, at: nat, node: Word, op: Word)
    requires p.Valid() && p.end + 2 >= |p.code|
    ensures Marked(Place(p, at, node, op).0)
  {
  }

  lemma LiteralAtLimit(l: Literal, ts: seq<Token>, pos: nat, p: Program, final: seq<string>)
    requires p.Valid() && pos < |ts| && ts[pos] == LiteralToken(l)
    requires LiteralNames(p.names, l) <= final && |final| <= MAX_VARIABLES && LiteralResolved(l, final)
    requires p.end + 3 > |p.code|
    ensures var r := ParseOperand(ts, pos, p); r.ok && r.pos == pos + 1 && Marked(r.p)
  {
    if l.Name? {
      var names := Register(p.names, l.name);
      assert l.name !in names ==> final == names;
      IndexOfInPrefix(names, final, l.name);
    }
  }

  /** The literal of a side, whether there is room for it or not. */
  predicate LiteralDone(l: Literal, p: Program, r: Parse, pos: nat, final: seq<string>)
    requires p.Valid()
  {
    && r.ok && r.pos == pos + 1
    && (p.end + 3 <= |p.code| ==> Appended(p, r.p, LiteralCode(l, final), LiteralNames(p.names, l)))
    && (p.end + 3 > |p.code| ==> Marked(r.p))
  }

  lemma LiteralIsDone(l: Literal, ts: seq<Token>, pos: nat, p: Program, final: seq<string>)
    requires p.Valid() && pos < |ts| && ts[pos] == LiteralToken(l)
    requires LiteralNames(p.names, l) <= final && |final| <= MAX_VARIABLES && LiteralResolved(l, final)
    ensures LiteralDone(l, p, ParseOperand(ts, pos, p), pos, final)
  {
    if p.end + 3 <= |p.code| {
      ParsesLiteral(l, ts, pos, p, final);
    } else {
      LiteralAtLimit(l, ts, pos, p, final);
    }
  }

  /** An argument that fills the buffer or more: it is marked, or ends at the end of the buffer. */
  lemma {:induction false} ArgumentAtLimit(a: Argument, ts: seq<Token>, pos: nat, p: Program, final: seq<string>)
    requires p.Valid() && pos <= |ts| && TokensAt(ts, pos, ArgumentTokens(a))
    requires ArgumentNames(p.names, a) <= final && |final| <= MAX_VARIABLES && ArgumentResolved(a, final)
    requires p.end + |ArgumentCode(a, final)| >= |p.code|
    ensures var r := ParseArgument(ts, pos, p); Marked(r.p) || (r.p.end >= |r.p.code| && r.ok)
    decreases a
  {
    hide TokensAt, ParseExpr, SideCode, SideNames, SideResolved, LiteralCode, LiteralNames, Appended;
    ArgumentTokensAt(a, ts, pos);
    match a
    case Plain(l) =>
      LiteralIsDone(l, ts, pos, p, final);
      if p.end + 3 <= |p.code| {
        AppendedEnd(p, ParseOperand(ts, pos, p).p, LiteralCode(l, final), LiteralNames(p.names, l));
      }
    case Group(s) =>
      SideAtLimit(s, ts, pos + 1, p, final);
      var r := ParseExpr(ts, pos + 1, p);
      if !Marked(r.p) {
        AppendedEnd(p, r.p, SideCode(s, final), SideNames(p.names, s));
      }
  }

  /** A side that fills the buffer or more: it is marked, unless it fills the buffer exactly and has no operator. */
  lemma {:induction false} SideAtLimit(s: Side, ts: seq<Token>, pos: nat, p: Program, final: seq<string>)
    requires p.Valid() && pos <= |ts| && TokensAt(ts, pos, SideTokens(s))
    requires !Peek(ts, pos + |SideTokens(s)|).ArithToken?
    requires SideNames(p.names, s) <= final && |final| <= MAX_VARIABLES && SideResolved(s, final)
    requires p.end + |SideCode(s, final)| >= |p.code|
    ensures var r := ParseExpr(ts, pos, p);
            if p.end + |SideCode(s, final)| > |p.code| || s.ops.Then? then Marked(r.p)
            else
              && r.ok && r.pos == AfterExpr(ts, pos + |SideTokens(s)|)
              && Appended(p, r.p, SideCode(s, final), SideNames(p.names, s)) && (Marked(r.p) <==> Marked(p))
    decreases s
  {
    hide TokensAt, Appended, ParseOperand, LiteralResolved, OperatorsResolved, LiteralNames, OperatorNames;
    SideTokensAt(s, ts, pos);
    var lit := LiteralCode(s.first, final);
    PrefixTransitive(LiteralNames(p.names, s.first), SideNames(p.names, s), final);
    LiteralIsDone(s.first, ts, pos, p, final);
    var q := ParseOperand(ts, pos, p);
    if p.end + 3 > |p.code| {
      OperatorsStay(ts, q.pos, q.p, p.end);
    } else {
      AppendedEnd(p, q.p, lit, LiteralNames(p.names, s.first));
      if s.ops.Then? {
        OperatorsAtLimit(p, lit, s.ops, ts, pos + 1, q.p, final);
      } else {
        SameMarks(p, q.p, lit, LiteralNames(p.names, s.first));
        PlainSide(s, ts, pos, q, p.names, final);
      }
    }
  }

  /** A side without operators is its literal. */
  lemma PlainSide(s: Side, ts: seq<Token>, pos: nat, q: Parse, names: seq<string>, final: seq<string>)
    requires s.ops.Done? && q.pos == pos + 1 <= |ts| && q.p.Valid() && !Peek(ts, pos + |SideTokens(s)|).ArithToken?
    ensures SideCode(s, final) == LiteralCode(s.first, final) && SideNames(names, s) == LiteralNames(names, s.first)
    ensures |SideTokens(s)| == 1
    ensures forall saved: nat :: ParseOperators(ts, q.pos, q.p, saved) == Parse(true, AfterExpr(ts, q.pos), q.p)
  {
  }

  lemma SameMarks(p: Program, q: Program, words: seq<Word>, names: seq<string>)
    requires Appended(p, q, words, names)
    ensures Marked(p) <==> Marked(q)
  {
  }

  /** Operators whose code fills the buffer or more are marked. */
  lemma {:induction false} OperatorsAtLimit(base: Program, before: seq<Word>, o: Operators, ts: seq<Token>, pos: nat, p: Program, final: seq<string>)
    requires Appended(base, p, before, p.names) && o.Then?
    requires pos <= |ts| && TokensAt(ts, pos, OperatorTokens(o))
    requires !Peek(ts, pos + |OperatorTokens(o)|).ArithToken?
    requires OperatorNames(p.names, o) <= final && |final| <= MAX_VARIABLES && OperatorsResolved(o, final)
    requires base.end + |OperatorsCode(before, o, final)| >= |p.code|
    ensures Marked(ParseOperators(ts, pos, p, base.end).p)
    decreases o
  {
    hide Place, Appended, TokensAt, ParseArgument, OpCode, ArgumentCode, ArgumentTokens, ArgumentNames, ArgumentResolved;
    var Then(op, arg, rest) := o;
    OperatorTokensAt(op, arg, rest, ts, pos);
    AppendedEnd(base, p, before, p.names);
    PrefixTransitive(ArgumentNames(p.names, arg), OperatorNames(p.names, o), final);
    var argument := ParseArgument(ts, pos + 1, p);
    var (placed, end) := Place(argument.p, base.end, ARITH_OP, ArithCode(op));
    if p.end + |ArgumentCode(arg, final)| >= |p.code| {
      ArgumentAtLimit(arg, ts, pos + 1, p, final);
      if Marked(argument.p) {
        PlaceStays(argument.p, base.end, ARITH_OP, ArithCode(op));
      } else {
        PlaceAtLimit(argument.p, base.end, ARITH_OP, ArithCode(op));
      }
      if argument.ok {
        OperatorsStay(ts, argument.pos, placed, end);
      }
    } else {
      ParsesArgument(arg, ts, pos + 1, p, final);
      AppendedEnd(p, argument.p, ArgumentCode(arg, final), ArgumentNames(p.names, arg));
      if argument.p.end + 2 >= |p.code| {
        PlaceAtLimit(argument.p, base.end, ARITH_OP, ArithCode(op));
        OperatorsStay(ts, argument.pos, placed, end);
      } else {
        OperatorPlaced(base, p, argument.p, before, ArgumentCode(arg, final), op);
        AppendedEnd(base, placed, OpCode(ARITH_OP, ArithCode(op)) + (before + ArgumentCode(arg, final)), argument.p.names);
        EmptyAppended(placed);
        OperatorsAtLimit(placed, [], rest, ts, argument.pos, placed, final);
      }
    }
  }

  // ------------------------------------------------------------- comparisons

  lemma ComparisonAtLimit(c: Comparison, ts: seq<Token>, pos: nat, p: Program, final: seq<string>)
    requires p.Valid() && pos <= |ts| && TokensAt(ts, pos, ComparisonTokens(c))
    requires !Peek(ts, pos + |ComparisonTokens(c)|).ArithToken?
    requires ComparisonNames(p.names, c) <= final && |final| <= MAX_VARIABLES
    requires SideResolved(c.left, final) && SideResolved(c.right, final)
    requires p.end + |ComparisonCode(c, final)| >= |p.code|
    ensures var r := ParseComparison(ts, pos, p);
            if p.end + |ComparisonCode(c, final)| > |p.code| || c.right.ops.Then? then Marked(r.p)
            else
              && r.ok && r.pos == AfterExpr(ts, pos + |ComparisonTokens(c)|)
              && Appended(p, r.p, ComparisonCode(c, final), ComparisonNames(p.names, c)) && (Marked(r.p) <==> Marked(p))
  {
    hide Appended, ParseExpr, TokensAt, ComparisonTokens, Emit, JumpToOperand, SetEnd, SideCode, SideTokens, OpCode, RelationCode;
    ComparisonIs(ts, pos, p);
    ComparisonTokensAt(c, ts, pos);
    PrefixTransitive(SideNames(p.names, c.left), ComparisonNames(p.names, c), final);
    var lc, rc := SideCode(c.left, final), SideCode(c.right, final);
    var jumped := JumpToOperand(p);
    var left := ParseExpr(ts, pos, jumped);
    hide ParseComparison;
    if p.end + 2 >= |p.code| {
      JumpAtLimit(p);
      ExprStays(ts, pos, jumped);
      MarkedLeft(ts, left, p.end);
    } else {
      JumpedEnd(p);
      if jumped.end + |lc| >= |p.code| {
        SideAtLimit(c.left, ts, pos, jumped, final);
        if !Marked(left.p) {
          AppendedEnd(jumped, left.p, lc, SideNames(p.names, c.left));
          assert !Peek(ts, pos + |SideTokens(c.left)|).RightParen?;
        }
        if left.ok {
          MarkedLeft(ts, left, p.end);
        }
      } else {
        ParsesSide(c.left, ts, pos, jumped, final);
        AppendedEnd(jumped, left.p, lc, SideNames(p.names, c.left));
        RightAtLimit(c, ts, left, p, final);
      }
    }
  }

  lemma JumpAtLimit(p: Program)
    requires p.Valid() && p.end + 2 >= |p.code|
    ensures Marked(JumpToOperand(p))
  {
  }

  /** The right side behind a left side that fits. */
  lemma RightAtLimit(c: Comparison, ts: seq<Token>, left: Parse, p: Program, final: seq<string>)
    requires p.Valid() && p.end + 2 < |p.code| && left.pos < |ts| && ts[left.pos] == RelationToken(c.rel)
    requires left.p.Valid() && Appended(JumpToOperand(p), left.p, SideCode(c.left, final), SideNames(p.names, c.left))
    requires left.p.end < |left.p.code| && TokensAt(ts, left.pos + 1, SideTokens(c.right))
    requires !Peek(ts, left.pos + 1 + |SideTokens(c.right)|).ArithToken?
    requires ComparisonNames(p.names, c) <= final && |final| <= MAX_VARIABLES && SideResolved(c.right, final)
    requires p.end + |ComparisonCode(c, final)| >= |p.code|
    ensures var r := BehindLeft(ts, left, p.end);
            if p.end + |ComparisonCode(c, final)| > |p.code| || c.right.ops.Then? then Marked(r.p)
            else
              && r.ok && r.pos == AfterExpr(ts, left.pos + 1 + |SideTokens(c.right)|)
              && Appended(p, r.p, ComparisonCode(c, final), ComparisonNames(p.names, c)) && (Marked(r.p) <==> Marked(p))
  {
    hide Appended, ParseExpr, TokensAt, Emit, SetEnd, JumpToOperand, SideCode, SideTokens, OpCode, RelationCode, Marked;
    var lc, rc := SideCode(c.left, final), SideCode(c.right, final);
    var op := OpCode(CMP_OP, RelationCode(c.rel));
    var q := SetEnd(Emit(SetEnd(left.p, p.end), op), left.p.end);
    JumpedEnd(p);
    AppendedEnd(JumpToOperand(p), left.p, lc, SideNames(p.names, c.left));
    RelationWritten(p, left.p, lc, c.rel);
    AppendedEnd(p, q, op + lc, left.p.names);
    SideAtLimit(c.right, ts, left.pos + 1, q, final);
    SameMarks(p, q, op + lc, left.p.names);
    var r := ParseExpr(ts, left.pos + 1, q);
    if p.end + |ComparisonCode(c, final)| == |p.code| && c.right.ops.Done? {
      AppendedEnd(q, r.p, rc, SideNames(q.names, c.right));
      AppendedOperator(p, q, r.p, op, lc, rc, r.p.names);
    }
  }

  // ------------------------------------------------------------- whole clauses

  /** Whether the last side of a clause has no operator: nothing is then placed behind its code. */
  predicate EndsPlain(c: Clause) {
    match c case Last(k) => k.right.ops.Done? case Link(_, _, rest) => EndsPlain(rest)
  }

  /** Whether the clause is too long for what is left of the buffer. */
  predicate TooLong(c: Clause, end: nat, size: nat, final: seq<string>) {
    end + |ClauseCode(c, final)| > size || (end + |ClauseCode(c, final)| == size && !EndsPlain(c))
  }

  lemma {:induction false} ClauseAtLimit(c: Clause, ts: seq<Token>, pos: nat, p: Program, final: seq<string>)
    requires p.Valid() && pos <= |ts| && TokensAt(ts, pos, ClauseTokens(c)) && !Marked(p)
    requires var next := pos + |ClauseTokens(c)|; EndsClause(Peek(ts, next)) && Peek(ts, next) != RightParen
    requires ClauseNames(p.names, c) <= final && |final| <= MAX_VARIABLES && ClauseResolved(c, final)
    ensures var first := ParseComparison(ts, pos, p);
            var r := if first.ok then ParseConnectives(ts, first.pos, first.p, p.end) else first;
            Marked(r.p) <==> TooLong(c, p.end, |p.code|, final)
    decreases c
  {
    hide Place, ParseComparison, ComparisonCode, ComparisonNames, Appended, TokensAt, ComparisonTokens, ParseConnectives, Marked, ConnectiveCode;
    var first := ParseComparison(ts, pos, p);
    if c.Link? {
      LinkTokensAt(c, ts, pos);
      PrefixTransitive(ComparisonNames(p.names, c.c), ClauseNames(p.names, c), final);
    }
    if p.end + |ComparisonCode(c.c, final)| >= |p.code| {
      ComparisonAtLimit(c.c, ts, pos, p, final);
      if Marked(first.p) {
        if first.ok {
          ConnectivesStay(ts, first.pos, first.p, p.end);
        }
      } else {
        AppendedEnd(p, first.p, ComparisonCode(c.c, final), ComparisonNames(p.names, c.c));
        BehindFirst(c, ts, pos, p, first, final);
      }
    } else {
      ParsesComparison(c.c, ts, pos, p, final);
      SameMarks(p, first.p, ComparisonCode(c.c, final), ComparisonNames(p.names, c.c));
      AppendedEnd(p, first.p, ComparisonCode(c.c, final), ComparisonNames(p.names, c.c));
      BehindFirst(c, ts, pos, p, first, final);
    }
  }

  /** The connectives behind a first comparison that is there. */
  lemma {:induction false} BehindFirst(c: Clause, ts: seq<Token>, pos: nat, p: Program, first: Parse, final: seq<string>)
    requires p.Valid() && pos <= |ts| && TokensAt(ts, pos, ClauseTokens(c))
    requires var next := pos + |ClauseTokens(c)|; EndsClause(Peek(ts, next)) && Peek(ts, next) != RightParen
    requires ClauseNames(p.names, c) <= final && |final| <= MAX_VARIABLES && ClauseResolved(c, final)
    requires first.pos <= |ts| && first.pos == AfterExpr(ts, pos + |ComparisonTokens(c.c)|) && first.p.Valid() && !Marked(first.p)
    requires Appended(p, first.p, ComparisonCode(c.c, final), ComparisonNames(p.names, c.c))
    requires p.end + |ComparisonCode(c.c, final)| == |p.code| ==> c.c.right.ops.Done?
    ensures Marked(ParseConnectives(ts, first.pos, first.p, p.end).p) <==> TooLong(c, p.end, |p.code|, final)
    decreases c, 0
  {
    hide Place, ParseComparison, ComparisonCode, ComparisonNames, Appended, TokensAt, ComparisonTokens, Marked, ConnectiveCode;
    ConnectivesStep(ts, first.pos, first.p, p.end);
    hide ParseConnectives;
    AppendedEnd(p, first.p, ComparisonCode(c.c, final), ComparisonNames(p.names, c.c));
    match c
    case Last(_) =>
    case Link(k, conn, rest) =>
      LinkTokensAt(c, ts, pos);
      ConnectiveTokensAt(conn, rest, ts, first.pos);
      var (placed, end) := Place(first.p, p.end, CMP_OP, ConnectiveCode(conn));
      assert ConnectiveCode(conn) == if ts[first.pos] == AndToken then AND else OR by { ConnectiveIs(conn); }
      var next := ParseComparison(ts, first.pos + 1, placed);
      if first.p.end + 2 >= |p.code| {
        PlaceAtLimit(first.p, p.end, CMP_OP, ConnectiveCode(conn));
        ComparisonStays(ts, first.pos + 1, placed);
        if next.ok {
          ConnectivesStay(ts, next.pos, next.p, end);
        }
      } else {
        PlaceInserts(p, first.p, ComparisonCode(k, final), CMP_OP, ConnectiveCode(conn));
        SameMarks(p, first.p, ComparisonCode(k, final), first.p.names);
        SameMarks(p, placed, OpCode(CMP_OP, ConnectiveCode(conn)) + ComparisonCode(k, final), first.p.names);
        AppendedEnd(p, placed, OpCode(CMP_OP, ConnectiveCode(conn)) + ComparisonCode(k, final), first.p.names);
        ClauseAtLimit(rest, ts, first.pos + 1, placed, final);
      }
  }

  lemma ConnectiveIs(conn: Connective)
    ensures ConnectiveCode(conn) == if ConnectiveToken(conn) == AndToken then AND else OR
  {
  }

  /** For every flat clause whose variables get slots: compilation sets the error flag, or writes outside the buffer,
      exactly when the code is longer than the buffer, or fills it and its last side has an operator. */
  lemma TooLongIsMarked(c: Clause, ts: seq<Token>, size: nat)
    requires ClauseStartsInput(c, ts)
    requires |Distinct(ClauseIdentifiers(c))| <= MAX_VARIABLES
    ensures Marked(ParseWhere(ts, 0, Reset(size)).p) <==>
      var n := |ClauseCode(c, ClauseNames([], c))|; n > size || (n == size && !EndsPlain(c))
  {
    SlotsSuffice(c);
    hide ParseComparison, ParseConnectives;
    ClauseAtLimit(c, ts, 0, Reset(size), ClauseNames([], c));
  }

  // ----------------------------------------------------- operands without code

  /** A comparison with a string or a float on its right is accepted, and leaves the relation with one argument: such an
      operand has no code. */
  lemma StringHasNoCode(l: Literal, rel: Relation, other: Token, ts: seq<Token>, size: nat)
    requires other == StringValue || other == FloatValue
    requires |ts| >= 3 && ts[0] == LiteralToken(l) && ts[1] == RelationToken(rel) && ts[2] == other
    requires EndsClause(Peek(ts, 3)) && Peek(ts, 3) != RightParen && size > 5
    ensures var r := ParseWhere(ts, 0, Reset(size));
            && r.ok && r.pos == 3 && !Marked(r.p)
            && r.p.code[..r.p.end] == OpCode(CMP_OP, RelationCode(rel)) + LiteralCode(l, LiteralNames([], l))
  {
    var p := Reset(size);
    var names := LiteralNames([], l);
    OneLiteralLeft(l, rel, ts, p);
    ComparisonIs(ts, 0, p);
    var left := ParseExpr(ts, 0, JumpToOperand(p));
    var op := OpCode(CMP_OP, RelationCode(rel));
    var q := SetEnd(Emit(SetEnd(left.p, 0), op), left.p.end);
    NoCode(other, ts, q);
    hide Appended, ParseComparison, LiteralCode, LiteralNames, ParseExpr, JumpToOperand, OpCode, RelationCode, Emit, SetEnd;
    hide ParseConnectives, Marked;
    var code := op + LiteralCode(l, names);
    AppendedText(p, q, code, names);
    assert Text(p) + code == code;
  }

  lemma OneLiteralLeft(l: Literal, rel: Relation, ts: seq<Token>, p: Program)
    requires |ts| >= 2 && ts[0] == LiteralToken(l) && ts[1] == RelationToken(rel)
    requires p.Valid() && p.names == [] && p.end + 5 < |p.code|
    ensures var left := ParseExpr(ts, 0, JumpToOperand(p));
            var op := OpCode(CMP_OP, RelationCode(rel));
            && left.ok && left.pos == 1 && left.p.Valid()
            && Appended(p, SetEnd(Emit(SetEnd(left.p, p.end), op), left.p.end), op + LiteralCode(l, LiteralNames([], l)), LiteralNames([], l))
  {
    var names := LiteralNames([], l);
    var jumped := JumpToOperand(p);
    JumpedEnd(p);
    assert LiteralResolved(l, names) && |names| <= 1;
    ParsesLiteral(l, ts, 0, jumped, names);
    var operand := ParseOperand(ts, 0, jumped);
    assert ParseExpr(ts, 0, jumped) == ParseOperators(ts, 1, operand.p, jumped.end) == Parse(true, 1, operand.p);
    AppendedEnd(jumped, operand.p, LiteralCode(l, names), names);
    hide Appended, LiteralCode, LiteralNames, ParseExpr, JumpToOperand, ParseOperand;
    RelationWritten(p, operand.p, LiteralCode(l, names), rel);
  }

  lemma NoCode(other: Token, ts: seq<Token>, q: Program)
    requires other == StringValue || other == FloatValue
    requires |ts| >= 3 && ts[2] == other && EndsClause(Peek(ts, 3)) && Peek(ts, 3) != RightParen && q.Valid()
    ensures ParseExpr(ts, 2, q) == Parse(true, 3, q) && ParseConnectives(ts, 3, q, 0) == Parse(true, 3, q)
  {
    assert ParseOperand(ts, 2, q) == Parse(true, 3, q);
    assert ParseOperators(ts, 3, q, q.end) == Parse(true, 3, q);
  }

  lemma AppendedText(p: Program, q: Program, words: seq<Word>, names: seq<string>)
    requires Appended(p, q, words, names)
    ensures q.Valid() && Text(q) == Text(p) + words && (Marked(p) <==> Marked(q))
  {
  }
}
