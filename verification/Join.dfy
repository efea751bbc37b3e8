/** The indexed equi-join: a coroutine that returns after every row it finds and jumps back into
    its inner loop when it is called again. */
module Join {
  import opened MachineWords
  import S = IndexSelect

  /** The rows of the right relation from `from` on with a value, in order: what an index
      iterator for that value enumerates. */
  function RowsWith(right: seq<Long>, v: Long, from: nat): (rows: seq<nat>)
    requires from <= |right|
    decreases |right| - from
  {
    if from == |right| then []
    else (if right[from] == v then [from] else []) + RowsWith(right, v, from + 1)
  }

  /** What an index iterator for a value delivers, call after call: rows, or a read outside the relation. */
  datatype Lookup = Rows(rows: seq<nat>) | Astray

  /** An index, by what its iterators deliver for each value. */
  type Index = Long -> Lookup

  /** The handle: the current left row, what its iterator still has to deliver, and whether the next
      call starts over at the outer loop. */
  datatype Handle = Handle(left: nat, rest: Lookup, indexStep: bool)

  datatype Result = GotRow(left: nat, right: nat) | Finished | Undefined

  const Fresh: Handle := Handle(0, Rows([]), true)

  /** The outer loop from left row `left` on. */
  function Outer(l: seq<Long>, index: Index, left: nat): (r: (Result, Handle))
    ensures r.0.GotRow? ==> !r.1.indexStep && left <= r.1.left == r.0.left < |l|
    decreases |l| - left, 1
  {
    if left >= |l| then (Finished, Handle(left, Rows([]), true))
    else Inner(l, index, left, index(l[left]))
  }

  /** The inner loop on one left row. */
  function Inner(l: seq<Long>, index: Index, left: nat, rest: Lookup): (r: (Result, Handle))
    requires left < |l|
    ensures r.0.GotRow? ==> !r.1.indexStep && left <= r.1.left == r.0.left < |l|
    ensures r.0.GotRow? ==>
      if rest == Rows([]) then left < r.1.left else rest.Rows? && r.1 == Handle(left, Rows(rest.rows[1..]), false)
    decreases |l| - left, 0
  {
    match rest
    case Astray => (Undefined, Handle(left, Astray, false))
    case Rows(rows) =>
      if rows == [] then Outer(l, index, left + 1)
      else (GotRow(left, rows[0]), Handle(left, Rows(rows[1..]), false))
  }

  predicate Valid(l: seq<Long>, h: Handle) { h.indexStep || h.left < |l| }

  function ProcessJoin(l: seq<Long>, index: Index, h: Handle): (r: (Result, Handle))
    requires Valid(l, h)
    ensures r.0.GotRow? ==> Valid(l, r.1)
  {
    if h.indexStep then Outer(l, index, 0) else Inner(l, index, h.left, h.rest)
  }

  function Remaining(h: Handle): nat { if h.rest.Rows? then |h.rest.rows| else 0 }

  /** The pairs of rows that repeated calls yield, and the result that ends them. */
  function JoinAll(l: seq<Long>, index: Index, h: Handle): (r: (seq<(nat, nat)>, Result))
    requires Valid(l, h)
    decreases if h.indexStep then |l| + 1 else |l| - h.left, Remaining(h)
  {
    var (result, next) := ProcessJoin(l, index, h);
    match result
    case GotRow(i, j) =>
      var (pairs, end) := JoinAll(l, index, next);
      ([(i, j)] + pairs, end)
    case _ => ([], result)
  }

  /** The equi-join as a plain nested scan of both relations, from left row `i` and right row `j`
      on. */
  function NestedScan(l: seq<Long>, right: seq<Long>, i: nat, j: nat): seq<(nat, nat)>
    requires i <= |l| && j <= |right|
    decreases |l| - i, |right| - j
  {
    if i == |l| then []
    else if j == |right| then NestedScan(l, right, i + 1, 0)
    else (if l[i] == right[j] then [(i, j)] else []) + NestedScan(l, right, i, j + 1)
  }

  function Pairs(i: nat, rows: seq<nat>): (ps: seq<(nat, nat)>)
    ensures |ps| == |rows|
  {
    if rows == [] then [] else [(i, rows[0])] + Pairs(i, rows[1..])
  }

  lemma {:induction false} ScanOfRow(l: seq<Long>, right: seq<Long>, i: nat, j: nat)
    requires i < |l| && j <= |right|
    ensures NestedScan(l, right, i, j) == Pairs(i, RowsWith(right, l[i], j)) + NestedScan(l, right, i + 1, 0)
    decreases |right| - j
  {
    if j < |right| {
      ScanOfRow(l, right, i, j + 1);
      var later, tail := RowsWith(right, l[i], j + 1), NestedScan(l, right, i + 1, 0);
      if l[i] == right[j] {
        PairsStartWith(i, j, later);
        assert [(i, j)] + Pairs(i, later) + tail == [(i, j)] + (Pairs(i, later) + tail);
      } else {
        assert [] + later == later;
        assert [] + NestedScan(l, right, i, j + 1) == NestedScan(l, right, i, j + 1);
      }
    }
  }

  lemma PairsStartWith(i: nat, j: nat, rows: seq<nat>)
    ensures Pairs(i, [j] + rows) == [(i, j)] + Pairs(i, rows)
  {
    assert ([j] + rows)[1..] == rows;
  }

  /** What each left row in turn yields with its own iterator. */
  function Product(l: seq<Long>, index: Index, i: nat): (r: (seq<(nat, nat)>, Result))
    requires i <= |l|
    decreases |l| - i
  {
    if i == |l| then ([], Finished) else
    match index(l[i])
    case Astray => ([], Undefined)
    case Rows(rows) =>
      var (pairs, end) := Product(l, index, i + 1);
      (Pairs(i, rows) + pairs, end)
  }

  lemma {:induction false} OuterYields(l: seq<Long>, index: Index, h: Handle, i: nat)
    requires Valid(l, h) && i <= |l| && ProcessJoin(l, index, h) == Outer(l, index, i)
    ensures JoinAll(l, index, h) == Product(l, index, i)
    decreases |l| - i, 0
  {
    if i < |l| {
      var next := Handle(i, index(l[i]), false);
      assert ProcessJoin(l, index, next) == Inner(l, index, i, index(l[i])) == Outer(l, index, i);
      assert JoinAll(l, index, h) == JoinAll(l, index, next);
      if index(l[i]).Rows? {
        hide Product;
        InnerYields(l, index, i, index(l[i]).rows);
        ProductFirst(l, index, i);
      }
    }
  }

  lemma ProductFirst(l: seq<Long>, index: Index, i: nat)
    requires i < |l| && index(l[i]).Rows?
    ensures Product(l, index, i) ==
      (Pairs(i, index(l[i]).rows) + Product(l, index, i + 1).0, Product(l, index, i + 1).1)
  {
  }

  lemma {:induction false} InnerYields(l: seq<Long>, index: Index, left: nat, rows: seq<nat>)
    requires left < |l|
    ensures var tail := Product(l, index, left + 1);
            JoinAll(l, index, Handle(left, Rows(rows), false)) == (Pairs(left, rows) + tail.0, tail.1)
    decreases |l| - left - 1, 1, |rows|
  {
    hide Product;
    var h := Handle(left, Rows(rows), false);
    var tail := Product(l, index, left + 1);
    if rows == [] {
      OuterYields(l, index, h, left + 1);
      assert [] + tail.0 == tail.0;
    } else {
      InnerYields(l, index, left, rows[1..]);
      assert [(left, rows[0])] + (Pairs(left, rows[1..]) + tail.0) == Pairs(left, rows) + tail.0;
    }
  }

  /** The index delivers for a value the rows that have it, in their order. */
  predicate Enumerates(index: Index, right: seq<Long>, v: Long) { index(v) == Rows(RowsWith(right, v, 0)) }

  /** Every pair is tagged with its left row. */
  lemma {:induction false} ProductStartsAt(l: seq<Long>, index: Index, i: nat, p: (nat, nat))
    requires i <= |l| && p in Product(l, index, i).0
    ensures i <= p.0
    decreases |l| - i
  {
    if i < |l| && index(l[i]).Rows? {
      PairsTagged(i, index(l[i]).rows);
      hide Pairs;
      if p !in Pairs(i, index(l[i]).rows) {
        ProductStartsAt(l, index, i + 1, p);
      }
    }
  }

  lemma {:induction false} PairsTagged(i: nat, rows: seq<nat>)
    ensures forall k :: 0 <= k < |rows| ==> Pairs(i, rows)[k] == (i, rows[k])
  {
    if rows != [] {
      PairsTagged(i, rows[1..]);
    }
  }

  /** Two lists of rows for one left row, each followed by pairs of later left rows only, are the same when
      the whole lists of pairs are. */
  lemma {:induction false} PairsSplit(i: nat, a: seq<nat>, x: seq<(nat, nat)>, b: seq<nat>, y: seq<(nat, nat)>)
    requires Pairs(i, a) + x == Pairs(i, b) + y
    requires (forall p :: p in x ==> i < p.0) && (forall p :: p in y ==> i < p.0)
    ensures a == b && x == y
    decreases |a|
  {
    if a == [] || b == [] {
      assert [] + x == x && [] + y == y;
      assert x != [] ==> x[0] in x;
      assert y != [] ==> y[0] in y;
    } else {
      var u, v := Pairs(i, a[1..]) + x, Pairs(i, b[1..]) + y;
      assert Pairs(i, a) + x == [(i, a[0])] + u && Pairs(i, b) + y == [(i, b[0])] + v;
      assert ([(i, a[0])] + u)[1..] == u && ([(i, b[0])] + v)[1..] == v;
      assert ([(i, a[0])] + u)[0] == ([(i, b[0])] + v)[0];
      PairsSplit(i, a[1..], x, b[1..], y);
      assert a == [a[0]] + a[1..] && b == [b[0]] + b[1..];
    }
  }

  /** From one left row on, the product is the nested scan exactly when the index enumerates the rows for
      each value. */
  lemma {:induction false} ProductIsScan(l: seq<Long>, right: seq<Long>, index: Index, i: nat)
    requires i <= |l|
    ensures Product(l, index, i) == (NestedScan(l, right, i, 0), Finished)
            <==> forall k :: i <= k < |l| ==> Enumerates(index, right, l[k])
    decreases |l| - i
  {
    if i < |l| {
      ProductIsScan(l, right, index, i + 1);
      ScanOfRow(l, right, i, 0);
      var rows := RowsWith(right, l[i], 0);
      var later := NestedScan(l, right, i + 1, 0);
      forall p | p in later ensures i < p.0 {
        ScanContains(l, right, i + 1, 0, p);
      }
      if index(l[i]).Rows? {
        ProductFirst(l, index, i);
        var tail := Product(l, index, i + 1);
        forall p | p in tail.0 ensures i < p.0 {
          ProductStartsAt(l, index, i + 1, p);
        }
        hide Product, NestedScan, Pairs;
        if Product(l, index, i) == (NestedScan(l, right, i, 0), Finished) {
          PairsSplit(i, index(l[i]).rows, tail.0, rows, later);
        }
      } else {
        assert !Enumerates(index, right, l[i]);
      }
    }
  }

  /** Join completeness, for every index: repeated calls on a fresh handle yield exactly the nested scan of both
      relations, in its order, and then finish, if and only if the iterators deliver for the value
      of each left row the right rows that have it. */
  lemma JoinIsComplete(l: seq<Long>, right: seq<Long>, index: Index)
    ensures JoinAll(l, index, Fresh) == (NestedScan(l, right, 0, 0), Finished)
            <==> forall k :: 0 <= k < |l| ==> Enumerates(index, right, l[k])
  {
    OuterYields(l, index, Fresh, 0);
    ProductIsScan(l, right, index, 0);
  }

  predicate Before(p: (nat, nat), q: (nat, nat)) { p.0 < q.0 || (p.0 == q.0 && p.1 < q.1) }

  /** Rows `p.0` and `p.1` join, and `p` does not come before `q`. */
  predicate Joins(l: seq<Long>, right: seq<Long>, p: (nat, nat), q: (nat, nat)) {
    p.0 < |l| && p.1 < |right| && l[p.0] == right[p.1] && !Before(p, q)
  }

  lemma JoinsStep(l: seq<Long>, right: seq<Long>, i: nat, j: nat, p: (nat, nat))
    requires i < |l| && j < |right|
    ensures Joins(l, right, p, (i, j)) <==> (p == (i, j) && l[i] == right[j]) || Joins(l, right, p, (i, j + 1))
  {
  }

  lemma JoinsEnds(l: seq<Long>, right: seq<Long>, i: nat, p: (nat, nat))
    ensures i < |l| ==> (Joins(l, right, p, (i, |right|)) <==> Joins(l, right, p, (i + 1, 0)))
    ensures forall j :: !Joins(l, right, p, (|l|, j))
  {
  }

  lemma {:induction false} ScanContains(l: seq<Long>, right: seq<Long>, i: nat, j: nat, p: (nat, nat))
    requires i <= |l| && j <= |right|
    ensures p in NestedScan(l, right, i, j) <==> Joins(l, right, p, (i, j))
    decreases |l| - i, |right| - j
  {
    hide Joins, NestedScan;
    JoinsEnds(l, right, i, p);
    ScanHas(l, right, i, j, p);
    if i < |l| {
      if j == |right| {
        ScanContains(l, right, i + 1, 0, p);
      } else {
        ScanContains(l, right, i, j + 1, p);
        JoinsStep(l, right, i, j, p);
      }
    }
  }

  lemma ScanHas(l: seq<Long>, right: seq<Long>, i: nat, j: nat, p: (nat, nat))
    requires i <= |l| && j <= |right|
    ensures i == |l| ==> p !in NestedScan(l, right, i, j)
    ensures i < |l| && j == |right| ==> (p in NestedScan(l, right, i, j) <==> p in NestedScan(l, right, i + 1, 0))
    ensures i < |l| && j < |right| ==>
      (p in NestedScan(l, right, i, j) <==> (l[i] == right[j] && p == (i, j)) || p in NestedScan(l, right, i, j + 1))
  {
    if i < |l| && j < |right| {
      var later := NestedScan(l, right, i, j + 1);
      var first := if l[i] == right[j] then [(i, j)] else [];
      assert NestedScan(l, right, i, j) == first + later;
      hide NestedScan;
      assert p in first + later <==> p in first || p in later;
    }
  }

  /** Left-major order, without repetition. */
  predicate Sorted(ps: seq<(nat, nat)>) {
    forall a, b :: 0 <= a < b < |ps| ==> Before(ps[a], ps[b])
  }

  lemma {:induction false} ScanIsSorted(l: seq<Long>, right: seq<Long>, i: nat, j: nat)
    requires i <= |l| && j <= |right|
    ensures Sorted(NestedScan(l, right, i, j))
    decreases |l| - i, |right| - j
  {
    hide Sorted;
    if i == |l| {
      NothingIsSorted();
    } else {
      if j == |right| {
        ScanIsSorted(l, right, i + 1, 0);
        assert NestedScan(l, right, i, j) == NestedScan(l, right, i + 1, 0);
      } else {
        ScanIsSorted(l, right, i, j + 1);
        var later := NestedScan(l, right, i, j + 1);
        if l[i] == right[j] {
          forall q | q in later ensures Before((i, j), q) { ScanContains(l, right, i, j + 1, q); }
          assert NestedScan(l, right, i, j) == [(i, j)] + later;
          StaysSorted((i, j), later);
        } else {
          assert NestedScan(l, right, i, j) == [] + later == later;
        }
      }
    }
  }

  /** The nested scan lists exactly the pairs of rows with equal values, each once, in
      left-major order. */
  lemma ScanIsEquiJoin(l: seq<Long>, right: seq<Long>)
    ensures var ps := NestedScan(l, right, 0, 0);
            && (forall p :: p in ps <==> p.0 < |l| && p.1 < |right| && l[p.0] == right[p.1])
            && Sorted(ps)
  {
    forall p: (nat, nat) ensures p in NestedScan(l, right, 0, 0) <==> Joins(l, right, p, (0, 0)) {
      ScanContains(l, right, 0, 0, p);
    }
    ScanIsSorted(l, right, 0, 0);
  }

  lemma NothingIsSorted()
    ensures Sorted([])
  {
  }

  lemma StaysSorted(p: (nat, nat), later: seq<(nat, nat)>)
    requires Sorted(later) && forall q :: q in later ==> Before(p, q)
    ensures Sorted([p] + later)
  {
    var ps := [p] + later;
    forall a, b | 0 <= a < b < |ps|
      ensures Before(ps[a], ps[b])
    {
      assert ps[b] == later[b - 1];
    }
  }

  /** After it has finished, another call does not stay finished but starts the join again. */
  lemma RestartsAfterFinish(l: seq<Long>, index: Index, h: Handle)
    requires Valid(l, h) && ProcessJoin(l, index, h).0 == Finished
    ensures var next := ProcessJoin(l, index, h).1;
            Valid(l, next) && JoinAll(l, index, next) == JoinAll(l, index, Fresh)
  {
    FinishesWithStep(l, index, if h.indexStep then 0 else h.left + 1);
    var next := ProcessJoin(l, index, h).1;
    assert ProcessJoin(l, index, next) == ProcessJoin(l, index, Fresh);
  }

  lemma {:induction false} FinishesWithStep(l: seq<Long>, index: Index, left: nat)
    ensures Outer(l, index, left).0 == Finished ==> Outer(l, index, left).1.indexStep
    decreases |l| - left
  {
    if left < |l| {
      FinishesWithStep(l, index, left + 1);
    }
  }

  // ------------------------------------------------------- the inline index

  /** What an iterator of the inline index still delivers. */
  function IteratorRows(right: seq<Long>, it: S.Iterator): (r: Lookup)
    ensures it.next > 0 ==> r.Rows?
    decreases if it.next == 0 then 1 else 0, if it.start + it.next <= it.end then it.end + 1 - (it.start + it.next) else 0
  {
    var (probe, next) := S.GetNext(right, it);
    match probe
    case Outside => Astray
    case Invalid => Rows([])
    case At(row) => Rows([row] + IteratorRows(right, next).rows)
  }

  /** One call of get_next, seen from what the iterator still delivers. */
  lemma IteratorStep(right: seq<Long>, it: S.Iterator)
    ensures var (probe, next) := S.GetNext(right, it);
            match probe
            case Outside => next == it && IteratorRows(right, it) == Astray
            case Invalid => IteratorRows(right, it) == Rows([])
            case At(row) =>
              && IteratorRows(right, it).Rows? && IteratorRows(right, next).Rows?
              && IteratorRows(right, it).rows == [row] + IteratorRows(right, next).rows
              && IteratorRows(right, it).rows[1..] == IteratorRows(right, next).rows
  {
    hide S.BinarySearch;
    var (probe, next) := S.GetNext(right, it);
    if probe.At? {
      assert next.next > 0;
    }
  }

  /** The inline index on a column. */
  function InlineIndex(right: seq<Long>): Index {
    (v: Long) => IteratorRows(right, S.Iterator(v, v, 0, 0, 0))
  }

  /** On a strictly increasing column the inline index enumerates the rows for exactly the values from the
      first one up; below it, the search leaves the relation. */
  lemma InlineIndexEnumerates(right: seq<Long>, v: Long)
    requires S.Increasing(right)
    ensures Enumerates(InlineIndex(right), right, v) <==> right != [] && right[0] <= v
  {
    S.SearchResult(right, v, true);
    var s := S.BinarySearch(right, v, true);
    if s.At? {
      var it := S.Iterator(v, v, 1, s.row, s.row);
      assert IteratorRows(right, it) == Rows([]);
      RowsWithOne(right, v, s.row, 0);
    } else if s == S.Invalid {
      RowsWithNone(right, v, 0);
    }
  }

  /** The join through the inline index on a strictly increasing column is the equi-join exactly when no
      left value lies below the first right value. */
  lemma InlineJoinIsComplete(l: seq<Long>, right: seq<Long>)
    requires S.Increasing(right)
    ensures JoinAll(l, InlineIndex(right), Fresh) == (NestedScan(l, right, 0, 0), Finished)
            <==> l == [] || (right != [] && forall k :: 0 <= k < |l| ==> right[0] <= l[k])
  {
    hide S.Increasing, JoinAll, NestedScan, Enumerates, InlineIndex;
    JoinIsComplete(l, right, InlineIndex(right));
    forall k | 0 <= k < |l|
      ensures Enumerates(InlineIndex(right), right, l[k]) <==> right != [] && right[0] <= l[k]
    {
      InlineIndexEnumerates(right, l[k]);
    }
    if l != [] {
      InlineIndexEnumerates(right, l[0]);
    }
  }

  lemma {:induction false} RowsWithNone(right: seq<Long>, v: Long, from: nat)
    requires from <= |right| && forall i :: from <= i < |right| ==> right[i] != v
    ensures RowsWith(right, v, from) == []
    decreases |right| - from
  {
    if from < |right| {
      RowsWithNone(right, v, from + 1);
    }
  }

  lemma {:induction false} RowsWithOne(right: seq<Long>, v: Long, r: nat, from: nat)
    requires S.Increasing(right) && from <= r < |right| && right[r] == v
    ensures RowsWith(right, v, from) == [r]
    decreases |right| - from
  {
    if from < r {
      RowsWithOne(right, v, r, from + 1);
    } else {
      RowsWithNone(right, v, from + 1);
    }
  }
}
