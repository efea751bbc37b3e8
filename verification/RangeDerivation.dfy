/** The second pass of the logic machine over a program: from the comparisons it derives, for
    each variable, a range of values that an index search can be limited to. */
module RangeDerivation {
  import opened MachineWords
  import opened LogicVm

  datatype Derivation = Derivation(min: Long, max: Long, derived: bool)

  /** One entry for each variable slot. */
  type Table = t: seq<Derivation> | |t| == MAX_VARIABLES 
    witness [Derivation(0, 0, false), Derivation(0, 0, false), Derivation(0, 0, false), Derivation(0, 0, false)]

  const Cleared: Table :=
    [Derivation(0, 0, false), Derivation(0, 0, false), Derivation(0, 0, false), Derivation(0, 0, false)]

  function Smaller(a: Long, b: Long): Long { if a < b then a else b }
  function Larger(a: Long, b: Long): Long { if a > b then a else b }

  /** One slot of an intersection: a range derived on one side only is taken over. */
  function IntersectSlot(r: Derivation, a: Derivation, b: Derivation): Derivation {
    if !a.derived && !b.derived then r
    else if !b.derived then Derivation(a.min, a.max, true)
    else if !a.derived then Derivation(b.min, b.max, true)
    else Derivation(Larger(a.min, b.min), Smaller(a.max, b.max), true)
  }

  /** One slot of a union: here, too, a range derived on one side only is taken over. */
  function UniteSlot(r: Derivation, a: Derivation, b: Derivation): Derivation {
    if !a.derived && !b.derived then r
    else if !b.derived then Derivation(a.min, a.max, true)
    else if !a.derived then Derivation(b.min, b.max, true)
    else Derivation(Smaller(a.min, b.min), Larger(a.max, b.max), true)
  }

  function Intersect(r: Table, a: Table, b: Table): Table {
    seq(MAX_VARIABLES, i requires 0 <= i < MAX_VARIABLES => IntersectSlot(r[i], a[i], b[i]))
  }

  function Unite(r: Table, a: Table, b: Table): Table {
    seq(MAX_VARIABLES, i requires 0 <= i < MAX_VARIABLES => UniteSlot(r[i], a[i], b[i]))
  }

  /** The range for `variable op value`, whichever side the variable is on. */
  function RangeFor(op: Word, value: Long): Option<Derivation> {
    if op == RelationCode(Eq) then Some(Derivation(value, value, true))
    else if op == RelationCode(Ge) then Some(Derivation(WrapLong(value + 1), LONG_MAX, true))
    else if op == RelationCode(Geq) then Some(Derivation(value, LONG_MAX, true))
    else if op == RelationCode(Le) then Some(Derivation(LONG_MIN, WrapLong(value - 1), true))
    else if op == RelationCode(Leq) then Some(Derivation(LONG_MIN, value, true))
    else None
  }

  datatype Derived = Derived(status: Status, ip: nat, table: Table)

  /** Derives the ranges of the relation at `ip` into `table`. */
  function Derive(code: seq<Word>, ip: nat, table: Table): (r: Derived)
    requires ip <= |code|
    ensures ip <= r.ip <= |code|
    decreases |code| - ip
  {
    if ip + 2 > |code| then Derived(Fault, ip, table)
    else if IsConnective(code[ip + 1]) then
      var op := code[ip + 1];
      if op != AND && op != OR then Derived(DerivationError, ip + 2, table) else
      var d1 := Derive(code, ip + 2, Cleared);
      if d1.status.IsError() then Failed(d1, table) else
      var d2 := Derive(code, d1.ip, Cleared);
      if d2.status.IsError() then Failed(d2, table)
      else Derived(True, d2.ip,
                   if op == AND then Intersect(table, d1.table, d2.table) else Unite(table, d1.table, d2.table))
    else DeriveComparison(code, code[ip + 1], ip + 2, table)
  }

  function Failed(d: Derived, table: Table): (r: Derived)
    ensures r.ip == d.ip
  {
    Derived(if d.status.Fault? then Fault else DerivationError, d.ip, table)
  }

  /** A comparison of two plain operands, one of which is not a variable. */
  function DeriveComparison(code: seq<Word>, op: Word, ip: nat, table: Table): (r: Derived)
    requires ip <= |code|
    ensures ip <= r.ip <= |code|
  {
    if ip + 1 > |code| then Derived(Fault, ip, table)
    else if code[ip] != OPERAND then Derived(DerivationError, ip + 1, table)
    else if ip + 3 > |code| then Derived(Fault, ip + 1, table)
    else if ip + 4 > |code| then Derived(Fault, ip + 3, table)
    else if code[ip + 3] != OPERAND then Derived(DerivationError, ip + 4, table)
    else if ip + 6 > |code| then Derived(Fault, ip + 4, table)
    else if code[ip + 1] == VARIABLE && code[ip + 4] == VARIABLE then Derived(DerivationError, ip + 6, table)
    else
      var id := VariableId(if code[ip + 1] == VARIABLE then code[ip + 2] else code[ip + 5]);
      var value := WordToLong(if code[ip + 1] == VARIABLE then code[ip + 5] else code[ip + 2]);
      if id >= MAX_VARIABLES then Derived(DerivationError, ip + 6, table) else
      match RangeFor(op, value)
      case Some(range) => Derived(True, ip + 6, table[id := range])
      case None => Derived(DerivationError, ip + 6, table[id := Derivation(LONG_MIN, LONG_MAX, table[id].derived)])
  }

  // -------------------------------------------------------- what is derived

  /** The comparison derives the range `range` for the variable in slot `id`. */
  function LeafTarget(l: Expr, r: Expr, names: seq<string>): int
    requires !l.Bin? && !r.Bin? && !(l.Var? && r.Var?)
  {
    if l.Var? then IndexOf(names, l.name)
    else if r.Var? then IndexOf(names, r.name)
    else VariableId(LongToWord(r.value))
  }

  function LeafValue(l: Expr, r: Expr): Long
    requires !l.Bin? && !r.Bin? && !(l.Var? && r.Var?)
  {
    if l.Var? then r.value else l.value
  }

  /** The conditions for which a derivation succeeds. */
  predicate Accepted(c: Condition, names: seq<string>) {
    match c
    case Cmp(rel, l, r) =>
      !l.Bin? && !r.Bin? && !(l.Var? && r.Var?) && rel != Neq && LeafTarget(l, r, names) < MAX_VARIABLES
    case Not(_) => false
    case And(d, e) => Accepted(d, names) && Accepted(e, names)
    case Or(d, e) => Accepted(d, names) && Accepted(e, names)
  }

  /** The table that the derivation of an accepted condition leaves, computed on the
      condition itself. */
  function RangesOf(c: Condition, names: seq<string>): Table
    requires Accepted(c, names)
  {
    match c
    case Cmp(rel, l, r) => Cleared[LeafTarget(l, r, names) := RangeFor(RelationCode(rel), LeafValue(l, r)).value]
    case And(d, e) => Intersect(Cleared, RangesOf(d, names), RangesOf(e, names))
    case Or(d, e) => Unite(Cleared, RangesOf(d, names), RangesOf(e, names))
  }

  /** Derivation over the bytecode of a condition succeeds exactly when the condition is
      accepted, and then computes its ranges. */
  lemma {:induction false} DerivesRanges(c: Condition, names: seq<string>, code: seq<Word>, ip: nat)
    requires LiesAt(code, ip, ConditionCode(c, names))
    requires Resolved(c, names) && |names| <= MAX_VARIABLES
    ensures var d := Derive(code, ip, Cleared);
            && (d.status == True <==> Accepted(c, names))
            && (d.status == True || d.status == DerivationError)
            && (d.status == True ==> d.table == RangesOf(c, names) && d.ip == ip + |ConditionCode(c, names)|)
  {
    hide Derive, LiesAt, OpCode, Intersect, Unite, ExprCode;
    match c
    case Cmp(rel, l, r) =>
      DerivesLeaf(rel, l, r, names, code, ip);
    case Not(d) =>
      ReadOpCode(code, ip, CMP_OP, NOT, ConditionCode(d, names));
      RejectsNegation(code, ip);
    case And(d, e) =>
      ReadPair(code, ip, AND, ConditionCode(d, names), ConditionCode(e, names));
      DerivesRanges(d, names, code, ip + 2);
      DerivesRanges(e, names, code, ip + 2 + |ConditionCode(d, names)|);
      DerivesBoth(c, d, e, names, code, ip);
    case Or(d, e) =>
      ReadPair(code, ip, OR, ConditionCode(d, names), ConditionCode(e, names));
      DerivesRanges(d, names, code, ip + 2);
      DerivesRanges(e, names, code, ip + 2 + |ConditionCode(d, names)|);
      DerivesBoth(c, d, e, names, code, ip);
  }

  /** The derivation at a position comes to the ranges of the condition, or is rejected with it. */
  predicate DerivedAt(c: Condition, names: seq<string>, code: seq<Word>, ip: nat)
    requires ip <= |code|
  {
    var d := Derive(code, ip, Cleared);
    && (d.status == True <==> Accepted(c, names))
    && (d.status == True || d.status == DerivationError)
    && (d.status == True ==> d.table == RangesOf(c, names) && d.ip == ip + |ConditionCode(c, names)|)
  }

  lemma DerivesBoth(c: Condition, d: Condition, e: Condition, names: seq<string>, code: seq<Word>, ip: nat)
    requires c == And(d, e) || c == Or(d, e)
    requires ip + 2 + |ConditionCode(d, names)| + |ConditionCode(e, names)| <= |code|
    requires code[ip + 1] == if c.And? then AND else OR
    requires DerivedAt(d, names, code, ip + 2) && DerivedAt(e, names, code, ip + 2 + |ConditionCode(d, names)|)
    ensures DerivedAt(c, names, code, ip)
  {
    hide Derive, Intersect, Unite;
    DerivesConnective(code, ip);
  }

  lemma RejectsNegation(code: seq<Word>, ip: nat)
    requires ip + 2 <= |code| && code[ip + 1] == NOT
    ensures Derive(code, ip, Cleared).status == DerivationError
  {
  }

  lemma DerivesConnective(code: seq<Word>, ip: nat)
    requires ip + 2 <= |code| && (code[ip + 1] == AND || code[ip + 1] == OR)
    ensures var d1 := Derive(code, ip + 2, Cleared);
            var d2 := Derive(code, d1.ip, Cleared);
            Derive(code, ip, Cleared) ==
              if d1.status.IsError() then Failed(d1, Cleared)
              else if d2.status.IsError() then Failed(d2, Cleared)
              else Derived(True, d2.ip, if code[ip + 1] == AND then Intersect(Cleared, d1.table, d2.table)
                                        else Unite(Cleared, d1.table, d2.table))
  {
    hide Intersect, Unite, DeriveComparison;
  }

  lemma DerivesLeaf(rel: Relation, l: Expr, r: Expr, names: seq<string>, code: seq<Word>, ip: nat)
    requires LiesAt(code, ip, ConditionCode(Cmp(rel, l, r), names))
    requires ExprResolved(l, names) && ExprResolved(r, names) && |names| <= MAX_VARIABLES
    ensures var d := Derive(code, ip, Cleared);
            && (d.status == True <==> Accepted(Cmp(rel, l, r), names))
            && (d.status == True || d.status == DerivationError)
            && (d.status == True ==> d.table == RangesOf(Cmp(rel, l, r), names)
                                     && d.ip == ip + |ConditionCode(Cmp(rel, l, r), names)|)
  {
    hide LiesAt, OpCode, RangeFor, WordToLong, LongToWord;
    var lc, rc := ExprCode(l, names), ExprCode(r, names);
    ReadOpCode(code, ip, CMP_OP, RelationCode(rel), lc + rc);
    LiesAtSplit(code, ip + 2, lc, rc);
    ReadNode(l, names, code, ip + 2);
    ReadNode(r, names, code, ip + 2 + |lc|);
    DerivesComparison(rel, code, ip);
    RangeForRelation(rel, if !l.Bin? && !r.Bin? && !(l.Var? && r.Var?) then LeafValue(l, r) else 0);
  }

  lemma DerivesComparison(rel: Relation, code: seq<Word>, ip: nat)
    requires ip + 2 <= |code| && code[ip + 1] == RelationCode(rel)
    ensures Derive(code, ip, Cleared) == DeriveComparison(code, RelationCode(rel), ip + 2, Cleared)
  {
    assert RelationCode(rel) / 0x80 == 0;
  }

  lemma RangeForRelation(rel: Relation, value: Long)
    ensures RangeFor(RelationCode(rel), value).Some? <==> rel != Neq
  {
  }

  /** The first word of an expression's code tells an operand from an operation. */
  lemma ReadNode(e: Expr, names: seq<string>, code: seq<Word>, ip: nat)
    requires LiesAt(code, ip, ExprCode(e, names))
    requires ExprResolved(e, names) && |names| <= MAX_VARIABLES
    ensures ip + 3 <= |code| && code[ip] == if e.Bin? then ARITH_OP else OPERAND
    ensures !e.Bin? ==> |ExprCode(e, names)| == 3
    ensures e.Var? ==> code[ip + 1] == VARIABLE && VariableId(code[ip + 2]) == IndexOf(names, e.name)
    ensures e.Const? ==> code[ip + 1] == LONG && code[ip + 2] == LongToWord(e.value) && WordToLong(code[ip + 2]) == e.value
  {
    match e
    case Var(n) => ReadOperand(code, ip, VARIABLE, IndexOf(names, n) % 256);
    case Const(v) => ReadOperand(code, ip, LONG, LongToWord(v));
    case Bin(op, l, r) => ReadOpCode(code, ip, ARITH_OP, ArithCode(op), ExprCode(l, names) + ExprCode(r, names));
  }

  // ------------------------------------------------------------- soundness

  predicate Inside(d: Derivation, x: Long) {
    d.derived ==> d.min <= x <= d.max
  }

  /** Every satisfying assignment gives every variable a value inside its derived range. */
  ghost predicate Sound(c: Condition, names: seq<string>)
    requires Accepted(c, names) && |names| <= MAX_VARIABLES
  {
    forall env: Env, n :: n in names && TotalTruth(c, env)
                          ==> Inside(RangesOf(c, names)[IndexOf(names, n)], env(n))
  }

  /** Conditions that a caller can rely on: each comparison has its variable on the left (or
      is an equality with a constant), and the two sides of every OR constrain the same
      variables. */
  predicate Reliable(c: Condition) {
    match c
    case Cmp(rel, l, r) => rel != Neq && ((l.Var? && r.Const?) || (rel == Eq && l.Const? && r.Var?))
    case Not(_) => false
    case And(d, e) => Reliable(d) && Reliable(e)
    case Or(d, e) => Reliable(d) && Reliable(e) && Constrained(d) == Constrained(e)
  }

  function Constrained(c: Condition): set<string> {
    match c
    case Cmp(_, l, r) => (if l.Var? then {l.name} else {}) + (if r.Var? then {r.name} else {})
    case Not(d) => Constrained(d)
    case And(d, e) => Constrained(d) + Constrained(e)
    case Or(d, e) => Constrained(d) + Constrained(e)
  }

  /** The constants on either side of `x` that a relation allows lie in its range. */
  lemma RangeForHolds(rel: Relation, x: Long, value: Long)
    requires rel != Neq
    ensures RangeFor(RelationCode(rel), value).Some?
    ensures Holds(rel, x, value) ==> Inside(RangeFor(RelationCode(rel), value).value, x)
  {
  }

  lemma {:induction false} ReliableRanges(c: Condition, names: seq<string>, env: Env, n: string)
    requires Reliable(c) && Resolved(c, names) && |names| <= MAX_VARIABLES && n in names
    ensures Accepted(c, names)
    ensures RangesOf(c, names)[IndexOf(names, n)].derived <==> n in Constrained(c)
    ensures TotalTruth(c, env) ==> Inside(RangesOf(c, names)[IndexOf(names, n)], env(n))
  {
    match c
    case Cmp(rel, l, r) =>
      var v := if l.Var? then l.name else r.name;
      if IndexOf(names, v) == IndexOf(names, n) {
        IndexOfInjective(names, v, n);
      }
      RangeForHolds(rel, env(v), LeafValue(l, r));
    case And(d, e) =>
      ReliableRanges(d, names, env, n);
      ReliableRanges(e, names, env, n);
    case Or(d, e) =>
      ReliableRanges(d, names, env, n);
      ReliableRanges(e, names, env, n);
  }

  lemma IndexOfInjective(names: seq<string>, a: string, b: string)
    requires a in names && b in names && IndexOf(names, a) == IndexOf(names, b)
    ensures a == b
  {
  }

  /** Derivation is sound for every reliable condition, and constrains exactly its variables. */
  lemma ReliableIsSound(c: Condition, names: seq<string>)
    requires Reliable(c) && Resolved(c, names) && |names| <= MAX_VARIABLES
    ensures Accepted(c, names) && Sound(c, names)
    ensures forall n :: n in names ==> (RangesOf(c, names)[IndexOf(names, n)].derived <==> n in Constrained(c))
  {
    ReliableAccepted(c, names);
    forall env: Env, n | n in names
      ensures RangesOf(c, names)[IndexOf(names, n)].derived <==> n in Constrained(c)
      ensures TotalTruth(c, env) ==> Inside(RangesOf(c, names)[IndexOf(names, n)], env(n))
    {
      ReliableRanges(c, names, env, n);
    }
  }

  lemma {:induction false} ReliableAccepted(c: Condition, names: seq<string>)
    requires Reliable(c) && Resolved(c, names) && |names| <= MAX_VARIABLES
    ensures Accepted(c, names)
  {
    match c
    case Cmp(_, _, _) =>
    case And(d, e) =>
      ReliableAccepted(d, names);
      ReliableAccepted(e, names);
    case Or(d, e) =>
      ReliableAccepted(d, names);
      ReliableAccepted(e, names);
  }

  // ------------------------------------------- where derivation is not sound

  /** The constants for which a comparison written constant-first still derives a sound range. */
  predicate HarmlessConstant(rel: Relation, k: Long) {
    match rel
    case Eq => true
    case Neq => true
    case Ge => k == LONG_MIN || k == LONG_MAX
    case Geq => k == LONG_MIN
    case Le => k == LONG_MIN || k == LONG_MAX
    case Leq => k == LONG_MAX
  }

  /** `k rel x` derives the range of `x rel k`: apart from equality, that is sound only for
      constants at the ends of the value range. */
  lemma ConstantFirstIsSound(rel: Relation, k: Long, x: string, names: seq<string>)
    requires rel != Neq && x in names && |names| <= MAX_VARIABLES
    ensures Accepted(Cmp(rel, Const(k), Var(x)), names)
    ensures Sound(Cmp(rel, Const(k), Var(x)), names) <==> HarmlessConstant(rel, k)
  {
    hide RangesOf, IndexOf, RangeFor, Accepted;
    var c := Cmp(rel, Const(k), Var(x));
    RangeForDerived(rel, k);
    var range := RangeFor(RelationCode(rel), k).value;
    ConstantFirstSlot(rel, k, x, names, x);
    ConstantFirstRange(rel, k);
    if HarmlessConstant(rel, k) {
      forall env: Env, n | n in names && TotalTruth(c, env)
        ensures Inside(RangesOf(c, names)[IndexOf(names, n)], env(n))
      {
        ConstantFirstSlot(rel, k, x, names, n);
      }
    } else {
      var w: Long := if rel.Ge? || rel.Geq? then LONG_MIN else LONG_MAX;
      var env: Env := _ => w;
      assert TotalTruth(c, env);
      assert !Inside(RangesOf(c, names)[IndexOf(names, x)], env(x));
    }
  }

  lemma ConstantFirstSlot(rel: Relation, k: Long, x: string, names: seq<string>, n: string)
    requires rel != Neq && x in names && n in names && |names| <= MAX_VARIABLES
    ensures var c := Cmp(rel, Const(k), Var(x));
            && Accepted(c, names)
            && RangesOf(c, names)[IndexOf(names, n)] ==
               if n == x then RangeFor(RelationCode(rel), k).value else Derivation(0, 0, false)
  {
    if IndexOf(names, n) == IndexOf(names, x) {
      IndexOfInjective(names, n, x);
    }
  }

  /** A harmless constant admits no value outside the range; any other one admits an end of
      the value range that lies outside. */
  lemma ConstantFirstRange(rel: Relation, k: Long)
    requires rel != Neq
    ensures RangeFor(RelationCode(rel), k).Some?
    ensures HarmlessConstant(rel, k) ==>
            forall x: Long :: Holds(rel, k, x) ==> Inside(RangeFor(RelationCode(rel), k).value, x)
    ensures !HarmlessConstant(rel, k) ==>
            var w: Long := if rel.Ge? || rel.Geq? then LONG_MIN else LONG_MAX;
            Holds(rel, k, w) && !Inside(RangeFor(RelationCode(rel), k).value, w)
  {
  }

  /** A comparison of two constants derives a range for the variable whose slot number happens
      to be the low byte of the second constant. That is sound exactly when the comparison is
      false or the range is everything. */
  lemma ConstantPairIsSound(rel: Relation, a: Long, b: Long, names: seq<string>)
    requires rel != Neq && |names| <= MAX_VARIABLES
    requires var id := VariableId(LongToWord(b)); id < |names| && IndexOf(names, names[id]) == id
    ensures Accepted(Cmp(rel, Const(a), Const(b)), names)
    ensures RangesOf(Cmp(rel, Const(a), Const(b)), names)[VariableId(LongToWord(b))].derived
    ensures Sound(Cmp(rel, Const(a), Const(b)), names) <==> !Holds(rel, a, b) || IsFull(RangeFor(RelationCode(rel), a).value)
  {
    var c := Cmp(rel, Const(a), Const(b));
    var id := VariableId(LongToWord(b));
    var range := RangeFor(RelationCode(rel), a).value;
    assert RangesOf(c, names)[id] == range;
    if Holds(rel, a, b) && !IsFull(range) {
      var w: Long := if range.min > LONG_MIN then LONG_MIN else LONG_MAX;
      var env: Env := _ => w;
      assert TotalTruth(c, env);
      assert !Inside(RangesOf(c, names)[IndexOf(names, names[id])], env(names[id]));
    }
  }

  predicate IsFull(d: Derivation) { d.min == LONG_MIN && d.max == LONG_MAX }

  lemma RangeForDerived(rel: Relation, k: Long)
    requires rel != Neq
    ensures RangeFor(RelationCode(rel), k).Some? && RangeFor(RelationCode(rel), k).value.derived
  {
  }

  /** Some assignment satisfies the condition. */
  ghost predicate Satisfiable(c: Condition) {
    exists env: Env :: TotalTruth(c, env)
  }

  /** Satisfiability of one comparison can be read off its constant. */
  lemma ComparisonIsSatisfiable(rel: Relation, x: string, k: Long)
    requires rel != Neq
    ensures Satisfiable(Cmp(rel, Var(x), Const(k))) <==> !(rel.Ge? && k == LONG_MAX) && !(rel.Le? && k == LONG_MIN)
  {
    if !(rel.Ge? && k == LONG_MAX) && !(rel.Le? && k == LONG_MIN) {
      var v: Long := if rel.Ge? then k + 1 else if rel.Le? then k - 1 else k;
      var env: Env := _ => v;
      assert TotalTruth(Cmp(rel, Var(x), Const(k)), env);
    }
  }

  /** The truth of a reliable condition depends on the variables that it constrains, and on no
      other. */
  lemma {:induction false} TruthNeedsConstrained(c: Condition, env: Env, other: Env)
    requires Reliable(c) && forall n :: n in Constrained(c) ==> env(n) == other(n)
    ensures TotalTruth(c, env) == TotalTruth(c, other)
  {
    match c
    case Cmp(_, _, _) =>
    case And(d, e) =>
      TruthNeedsConstrained(d, env, other);
      TruthNeedsConstrained(e, env, other);
    case Or(d, e) =>
      TruthNeedsConstrained(d, env, other);
      TruthNeedsConstrained(e, env, other);
  }

  /** Every range of a variable that `e` constrains and `d` does not is everything. */
  predicate OnlyFullRanges(d: Condition, e: Condition, names: seq<string>)
    requires Accepted(e, names) && |names| <= MAX_VARIABLES
  {
    forall n :: n in names && n in Constrained(e) && n !in Constrained(d) ==> IsFull(RangesOf(e, names)[IndexOf(names, n)])
  }

  /** An OR derives the range of a variable that only one branch constrains, although the other
      branch leaves it free. For any two reliable branches that is sound exactly when no branch can
      hold while the other one alone has a range that excludes anything. */
  lemma OneSidedUnionIsSound(d: Condition, e: Condition, names: seq<string>)
    requires Reliable(d) && Reliable(e) && Resolved(Or(d, e), names) && |names| <= MAX_VARIABLES
    ensures Accepted(d, names) && Accepted(e, names)
    ensures Sound(Or(d, e), names) <==>
            && (!Satisfiable(d) || OnlyFullRanges(d, e, names))
            && (!Satisfiable(e) || OnlyFullRanges(e, d, names))
  {
    hide RangesOf, IndexOf, Reliable, TotalTruth, Accepted, Constrained;
    ReliableAccepted(d, names);
    ReliableAccepted(e, names);
    UnionAccepted(d, e, names);
    if Satisfiable(d) && !OnlyFullRanges(d, e, names) {
      BranchEscapes(d, e, Or(d, e), names);
    } else if Satisfiable(e) && !OnlyFullRanges(e, d, names) {
      BranchEscapes(e, d, Or(d, e), names);
    } else {
      forall env: Env, n | n in names && TotalTruth(Or(d, e), env)
        ensures Inside(RangesOf(Or(d, e), names)[IndexOf(names, n)], env(n))
      {
        UnionTruth(d, e, env);
        if TotalTruth(d, env) {
          UnionHolds(d, e, Or(d, e), names, env, n);
        } else {
          UnionHolds(e, d, Or(d, e), names, env, n);
        }
      }
    }
  }

  lemma UnionAccepted(d: Condition, e: Condition, names: seq<string>)
    requires Accepted(d, names) && Accepted(e, names)
    ensures Accepted(Or(d, e), names)
  {
  }

  lemma UnionTruth(d: Condition, e: Condition, env: Env)
    ensures TotalTruth(Or(d, e), env) <==> TotalTruth(d, env) || TotalTruth(e, env)
  {
  }

  /** One slot of the ranges that an OR derives. */
  lemma UnionSlot(d: Condition, e: Condition, names: seq<string>, i: nat)
    requires Accepted(d, names) && Accepted(e, names) && i < MAX_VARIABLES
    ensures Accepted(Or(d, e), names)
    ensures RangesOf(Or(d, e), names)[i] ==
            UniteSlot(Derivation(0, 0, false), RangesOf(d, names)[i], RangesOf(e, names)[i])
  {
    assert Cleared[i] == Derivation(0, 0, false);
  }

  /** While one branch holds, the ranges of the OR hold, unless the other branch adds a range. */
  lemma UnionHolds(d: Condition, e: Condition, c: Condition, names: seq<string>, env: Env, n: string)
    requires Reliable(d) && Reliable(e) && Resolved(d, names) && Resolved(e, names)
    requires |names| <= MAX_VARIABLES && n in names && TotalTruth(d, env)
    requires Accepted(c, names) && Accepted(e, names) && (c == Or(d, e) || c == Or(e, d)) && OnlyFullRanges(d, e, names)
    ensures Inside(RangesOf(c, names)[IndexOf(names, n)], env(n))
  {
    hide RangesOf, Reliable, TotalTruth, Accepted, Constrained, Resolved;
    var i := IndexOf(names, n);
    ReliableRanges(d, names, env, n);
    ReliableRanges(e, names, env, n);
    if c == Or(d, e) {
      UnionSlot(d, e, names, i);
    } else {
      UnionSlot(e, d, names, i);
    }
  }

  /** A branch can hold while a variable that it leaves free has a value outside its range. */
  lemma BranchEscapes(d: Condition, e: Condition, c: Condition, names: seq<string>)
    requires Reliable(d) && Reliable(e) && Resolved(d, names) && Resolved(e, names) && |names| <= MAX_VARIABLES
    requires Accepted(c, names) && Accepted(e, names) && (c == Or(d, e) || c == Or(e, d))
    requires Satisfiable(d) && !OnlyFullRanges(d, e, names)
    ensures !Sound(c, names)
  {
    hide RangesOf, Reliable, TotalTruth, Accepted, Constrained, Resolved;
    var n :| n in names && n in Constrained(e) && n !in Constrained(d) && !IsFull(RangesOf(e, names)[IndexOf(names, n)]);
    var i := IndexOf(names, n);
    var range := RangesOf(e, names)[i];
    var env: Env :| TotalTruth(d, env);
    var w: Long := if range.min > LONG_MIN then LONG_MIN else LONG_MAX;
    var free: Env := m => if m == n then w else env(m);
    TruthNeedsConstrained(d, env, free);
    ReliableRanges(d, names, free, n);
    ReliableRanges(e, names, free, n);
    if c == Or(d, e) {
      UnionSlot(d, e, names, i);
      UnionTruth(d, e, free);
    } else {
      UnionSlot(e, d, names, i);
      UnionTruth(e, d, free);
    }
    assert TotalTruth(c, free) && !Inside(RangesOf(c, names)[IndexOf(names, n)], free(n));
  }
}
