/** How narrow derived ranges are: an AND derives exactly the values that its comparisons allow, and an
    OR the least range around both branches. */
module RangeExact {
  import opened MachineWords
  import opened LogicVm
  import opened RangeDerivation

  /** Conditions without OR. */
  predicate Conjunctive(c: Condition) {
    match c
    case Cmp(_, _, _) => true
    case Not(_) => false
    case And(d, e) => Conjunctive(d) && Conjunctive(e)
    case Or(_, _) => false
  }

  /** A comparison that asks for more than the greatest or less than the least value: its bound wraps
      around. */
  predicate AtEnd(rel: Relation, k: Long) { (rel.Ge? && k == LONG_MAX) || (rel.Le? && k == LONG_MIN) }

  predicate IsAbout(l: Expr, r: Expr, n: string) { l == Var(n) || r == Var(n) }

  /** The value satisfies every comparison on the variable, other than those at the ends. */
  predicate Meets(c: Condition, n: string, x: Long) {
    match c
    case Cmp(rel, Var(m), Const(k)) => m == n && !AtEnd(rel, k) ==> Holds(rel, x, k)
    case Cmp(rel, Const(k), Var(m)) => m == n ==> x == k
    case Cmp(_, _, _) => true
    case Not(_) => true
    case And(d, e) => Meets(d, n, x) && Meets(e, n, x)
    case Or(d, e) => Meets(d, n, x) || Meets(e, n, x)
  }

  /** The range derived for a variable. */
  function RangeOn(c: Condition, names: seq<string>, n: string): Derivation
    requires Accepted(c, names) && n in names && |names| <= MAX_VARIABLES
  {
    RangesOf(c, names)[IndexOf(names, n)]
  }

  /** The range of a comparison with a variable. */
  lemma ComparisonIsExact(rel: Relation, l: Expr, r: Expr, names: seq<string>, n: string, x: Long)
    requires Reliable(Cmp(rel, l, r)) && Resolved(Cmp(rel, l, r), names) && |names| <= MAX_VARIABLES && n in names
    ensures Accepted(Cmp(rel, l, r), names)
    ensures Inside(RangeOn(Cmp(rel, l, r), names, n), x) <==> Meets(Cmp(rel, l, r), n, x)
  {
    var v := if l.Var? then l.name else r.name;
    if IndexOf(names, v) == IndexOf(names, n) {
      IndexOfInjective(names, v, n);
    }
    RangeForValues(rel, LeafValue(l, r), x);
    hide RangeFor;
  }

  /** Away from the ends the range of a comparison is what the comparison allows; at the ends it is
      everything. */
  lemma RangeForValues(rel: Relation, k: Long, x: Long)
    requires rel != Neq
    ensures RangeFor(RelationCode(rel), k).Some? && RangeFor(RelationCode(rel), k).value.derived
    ensures Inside(RangeFor(RelationCode(rel), k).value, x) <==> (!AtEnd(rel, k) ==> Holds(rel, x, k))
  {
  }

  /** What an AND derives holds the values that are in the ranges of both sides, and no other; this holds
      for any conditions on either side. */
  lemma AndIsIntersection(d: Condition, e: Condition, names: seq<string>, n: string, x: Long)
    requires Accepted(d, names) && Accepted(e, names) && n in names && |names| <= MAX_VARIABLES
    ensures Accepted(And(d, e), names)
    ensures Inside(RangeOn(And(d, e), names, n), x) <==> Inside(RangeOn(d, names, n), x) && Inside(RangeOn(e, names, n), x)
  {
    IntersectionSlot(d, e, names, IndexOf(names, n));
    hide RangesOf, IndexOf, Accepted;
  }

  lemma IntersectionSlot(d: Condition, e: Condition, names: seq<string>, i: nat)
    requires Accepted(d, names) && Accepted(e, names) && i < MAX_VARIABLES
    ensures Accepted(And(d, e), names)
    ensures RangesOf(And(d, e), names)[i] ==
            IntersectSlot(Derivation(0, 0, false), RangesOf(d, names)[i], RangesOf(e, names)[i])
  {
    assert Cleared[i] == Derivation(0, 0, false);
  }

  /** For every reliable condition without OR: a value lies in the range derived for a variable exactly
      when it satisfies every comparison on that variable, but for comparisons at the ends of the value
      range, which constrain nothing. */
  lemma {:induction false} ConjunctionIsExact(c: Condition, names: seq<string>, n: string, x: Long)
    requires Reliable(c) && Conjunctive(c) && Resolved(c, names) && |names| <= MAX_VARIABLES && n in names
    ensures Accepted(c, names)
    ensures Inside(RangeOn(c, names, n), x) <==> Meets(c, n, x)
  {
    match c
    case Cmp(rel, l, r) => ComparisonIsExact(rel, l, r, names, n, x);
    case And(d, e) =>
      ConjunctionIsExact(d, names, n, x);
      ConjunctionIsExact(e, names, n, x);
      AndIsIntersection(d, e, names, n, x);
  }

  // ------------------------------------------------------------ alternatives

  predicate IsEmpty(d: Derivation) { d.min > d.max }

  /** Every value of the range is between the bounds. */
  ghost predicate Between(d: Derivation, low: Long, high: Long) {
    forall x: Long :: Inside(d, x) ==> low <= x <= high
  }

  /** Every value of `a` and of `b` lies in `u`, and whatever bounds have all of them have all of `u`. */
  ghost predicate IsLeastAround(u: Derivation, a: Derivation, b: Derivation) {
    && (forall x: Long :: Inside(a, x) || Inside(b, x) ==> Inside(u, x))
    && (forall low: Long, high: Long :: Between(a, low, high) && Between(b, low, high) ==> Between(u, low, high))
  }

  /** No bound of a branch that nothing can satisfy sticks out. */
  predicate EmptyIsCovered(a: Derivation, b: Derivation) {
    && (IsEmpty(a) && !IsEmpty(b) ==> b.min <= a.min && a.max <= b.max)
    && (IsEmpty(b) && !IsEmpty(a) ==> a.min <= b.min && b.max <= a.max)
    && (IsEmpty(a) && IsEmpty(b) ==> a.min > b.max && b.min > a.max)
  }

  /** An OR derives the least range around the ranges of its branches exactly when no bound of an empty
      branch range sticks out; so it does whenever both branch ranges hold a value. */
  lemma OrIsLeast(d: Condition, e: Condition, names: seq<string>, n: string)
    requires Reliable(d) && Reliable(e) && Resolved(Or(d, e), names) && |names| <= MAX_VARIABLES
    requires n in names && n in Constrained(d) && n in Constrained(e)
    ensures Accepted(d, names) && Accepted(e, names) && Accepted(Or(d, e), names)
    ensures var a, b, u := RangeOn(d, names, n), RangeOn(e, names, n), RangeOn(Or(d, e), names, n);
            && (IsLeastAround(u, a, b) <==> EmptyIsCovered(a, b))
            && (!IsEmpty(a) && !IsEmpty(b) ==> IsLeastAround(u, a, b))
  {
    ReliableAccepted(d, names);
    ReliableAccepted(e, names);
    var env: Env := _ => 0;
    ReliableRanges(d, names, env, n);
    ReliableRanges(e, names, env, n);
    UnionSlot(d, e, names, IndexOf(names, n));
    hide RangesOf, IndexOf, Reliable, Constrained, Resolved, IsLeastAround;
    HullIsLeast(RangeOn(d, names, n), RangeOn(e, names, n));
  }

  /** The bounds that have all of a range. */
  lemma BetweenIs(d: Derivation, low: Long, high: Long)
    requires d.derived
    ensures Between(d, low, high) <==> IsEmpty(d) || (low <= d.min && d.max <= high)
  {
    if Between(d, low, high) && !IsEmpty(d) {
      assert Inside(d, d.min) && Inside(d, d.max);
    }
  }

  lemma HullIsLeast(a: Derivation, b: Derivation)
    requires a.derived && b.derived
    ensures IsLeastAround(UniteSlot(Derivation(0, 0, false), a, b), a, b) <==> EmptyIsCovered(a, b)
  {
    var u := UniteSlot(Derivation(0, 0, false), a, b);
    hide Between;
    if EmptyIsCovered(a, b) {
      forall low: Long, high: Long | Between(a, low, high) && Between(b, low, high)
        ensures Between(u, low, high)
      {
        BetweenIs(a, low, high);
        BetweenIs(b, low, high);
        BetweenIs(u, low, high);
      }
    } else {
      var low: Long := if !IsEmpty(a) then a.min else if !IsEmpty(b) then b.min else 1;
      var high: Long := if !IsEmpty(a) then a.max else if !IsEmpty(b) then b.max else 0;
      BetweenIs(a, low, high);
      BetweenIs(b, low, high);
      BetweenIs(u, low, high);
    }
  }

  /** A bound that sticks out: nothing satisfies `x >= 6 AND x <= 3`, and yet its lower bound widens the
      range of an OR with `x >= 10`. */
  lemma EmptyBranchWidens()
    ensures var d := And(Cmp(Geq, Var("x"), Const(6)), Cmp(Leq, Var("x"), Const(3)));
            var e := Cmp(Geq, Var("x"), Const(10));
            && Accepted(Or(d, e), ["x"]) && !Satisfiable(d)
            && RangeOn(Or(d, e), ["x"], "x") == Derivation(6, LONG_MAX, true)
  {
    assert IndexOf(["x"], "x") == 0;
  }
}
