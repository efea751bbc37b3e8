/** The MaxHeap index: an implicit binary tree of hash ranges, each with a bucket of key-value
    pairs that is filled once and never moved. */
module MaxHeap {

  const BUCKET_SIZE: nat := 128
  const NODE_LIMIT: nat := 511
  const NODE_DEPTH: nat := 9
  const KEY_MAX: nat := 65535

  type Key = k: int | 0 <= k <= KEY_MAX
  type Value = v: int | 0 <= v <= KEY_MAX

  datatype Node = Node(min: Key, max: Key)
  datatype Pair = Pair(key: Key, value: Value)

  /** The (0, 0) range marks a node that does not exist. */
  predicate Empty(n: Node) { n.min == 0 && n.max == 0 }

  const NoNode: Node := Node(0, 0)
  const NoPair: Pair := Pair(0, 0)

  /** The heap file, the next free slot of each bucket, and the bucket file. */
  datatype Heap = Heap(nodes: seq<Node>, slots: seq<nat>, store: seq<seq<Pair>>)

  predicate Shaped(h: Heap) {
    && |h.nodes| == |h.slots| == |h.store| == NODE_LIMIT
    && (forall b :: 0 <= b < NODE_LIMIT ==> |h.store[b]| == BUCKET_SIZE)
  }

  // ------------------------------------------------------------- operations

  predicate Within(n: Node, min: Key, max: Key) { n.min <= min && max <= n.max }

  /** Where heap_insert puts a range, from node `i` on: the first node that does not exist, going
      to the first child of a node that contains the range and to the next node otherwise. */
  function InsertFrom(nodes: seq<Node>, i: nat, min: Key, max: Key): (r: nat)
    requires |nodes| == NODE_LIMIT
    ensures r <= NODE_LIMIT && (r < NODE_LIMIT ==> Empty(nodes[r]))
    decreases NODE_LIMIT - i
  {
    if i >= NODE_LIMIT then NODE_LIMIT
    else if Empty(nodes[i]) then i
    else if Within(nodes[i], min, max) then InsertFrom(nodes, 2 * i + 1, min, max)
    else InsertFrom(nodes, i + 1, min, max)
  }

  datatype Option<+T> = None | Some(value: T)

  function HeapInsert(nodes: seq<Node>, min: Key, max: Key): (r: Option<seq<Node>>)
    requires |nodes| == NODE_LIMIT
    ensures r.Some? ==> |r.value| == NODE_LIMIT
  {
    var i := InsertFrom(nodes, 0, min, max);
    if min > max || i >= NODE_LIMIT then None else Some(nodes[i := Node(min, max)])
  }

  /** heap_find from node `i` on: the node whose range has the hashed key. A node without room
      for children in the tree is never found. */
  function FindFrom(nodes: seq<Node>, hashed: Key, i: nat): (r: Option<nat>)
    requires |nodes| == NODE_LIMIT
    ensures r.Some? ==> i <= r.value && 2 * r.value + 1 < NODE_LIMIT && !Empty(nodes[r.value])
    decreases NODE_LIMIT - i
  {
    if i >= NODE_LIMIT || Empty(nodes[i]) then None
    else if Within(nodes[i], hashed, hashed) then (if 2 * i + 1 >= NODE_LIMIT then None else Some(i))
    else FindFrom(nodes, hashed, i + 1)
  }

  /** The nodes that repeated calls of heap_find deliver. */
  function PathFrom(nodes: seq<Node>, hashed: Key, i: nat): (path: seq<nat>)
    requires |nodes| == NODE_LIMIT
    decreases NODE_LIMIT - i
  {
    var f := FindFrom(nodes, hashed, i);
    if f.None? then [] else [f.value] + PathFrom(nodes, hashed, 2 * f.value + 1)
  }

  /** The middle of a node's range, where it is split. */
  function Mean(n: Node): Key
    requires n.min <= n.max
  {
    n.min + (n.max - n.min) / 2
  }

  /** Splitting a node inserts its two halves; the first half stays when the second fails. */
  function Split(nodes: seq<Node>, b: nat): (r: (seq<Node>, bool))
    requires |nodes| == NODE_LIMIT && b < NODE_LIMIT && nodes[b].min <= nodes[b].max
    ensures |r.0| == NODE_LIMIT
  {
    var mean := Mean(nodes[b]);
    var small := HeapInsert(nodes, nodes[b].min, mean);
    if small.None? then (nodes, false) else
    var large := HeapInsert(small.value, (mean + 1) % (KEY_MAX + 1), nodes[b].max);
    if large.None? then (small.value, false) else (large.value, true)
  }

  /** Writes a pair into the next free slot. */
  function Append(h: Heap, b: nat, p: Pair): (r: (Heap, bool))
    requires Shaped(h) && b < NODE_LIMIT
    ensures Shaped(r.0)
  {
    if h.slots[b] >= BUCKET_SIZE then (h, false)
    else (h.(store := h.store[b := h.store[b][h.slots[b] := p]], slots := h.slots[b := h.slots[b] + 1]), true)
  }

  /** insert_item from the last bucket its search found: a full bucket is split first. */
  function InsertAt(h: Heap, hash: Key -> Key, p: Pair, b: nat): (r: (Heap, bool))
    requires Shaped(h) && b < NODE_LIMIT && h.nodes[b].min <= h.nodes[b].max
    ensures Shaped(r.0)
  {
    if h.slots[b] == BUCKET_SIZE then
      var (nodes, ok) := Split(h.nodes, b);
      var h' := h.(nodes := nodes);
      if !ok then (h', false) else
      var child := FindFrom(nodes, hash(p.key), 2 * b + 1);
      if child.None? then (h', false) else Append(h', child.value, p)
    else Append(h, b, p)
  }

  predicate Ranged(nodes: seq<Node>) {
    forall b :: 0 <= b < |nodes| ==> nodes[b].min <= nodes[b].max
  }

  function InsertItem(h: Heap, hash: Key -> Key, p: Pair): (r: (Heap, bool))
    requires Shaped(h) && Ranged(h.nodes)
    ensures Shaped(r.0)
  {
    var path := PathFrom(h.nodes, hash(p.key), 0);
    if path == [] || path[|path| - 1] >= NODE_LIMIT then (h, false)
    else InsertAt(h, hash, p, path[|path| - 1])
  }

  /** create: a zero-filled heap with the root range. */
  function Create(): (h: Heap)
    ensures Shaped(h)
  {
    Heap(seq(NODE_LIMIT, _ => NoNode)[0 := Node(0, KEY_MAX)], seq(NODE_LIMIT, _ => 0),
         seq(NODE_LIMIT, _ => seq(BUCKET_SIZE, _ => NoPair)))
  }

  // ---------------------------------------------------------- dyadic ranges

  function Pow2(n: nat): (p: nat)
    ensures p >= 1
  {
    if n == 0 then 1 else 2 * Pow2(n - 1)
  }

  function Level(i: nat): nat {
    if i == 0 then 0 else Level((i - 1) / 2) + 1
  }

  /** The range that belongs to node `i`: the halves of its parent's. */
  function Interval(i: nat): (r: (int, int)) {
    if i == 0 then (0, KEY_MAX) else
    var p := Interval((i - 1) / 2);
    var mean := p.0 + (p.1 - p.0) / 2;
    if i % 2 == 1 then (p.0, mean) else (mean + 1, p.1)
  }

  lemma {:induction false} Width(i: nat)
    requires Level(i) <= 16
    ensures Interval(i).1 - Interval(i).0 + 1 == Pow2(16 - Level(i))
    ensures 0 <= Interval(i).0 <= Interval(i).1 <= KEY_MAX
    decreases i
  {
    if i == 0 {
      assert Pow2(16) == 65536 by {
        assert Pow2(4) == 16 && Pow2(8) == 256 && Pow2(12) == 4096;
      }
    } else {
      Width((i - 1) / 2);
    }
  }

  lemma {:induction false} LevelOf(i: nat)
    ensures Pow2(Level(i)) <= i + 1 < 2 * Pow2(Level(i))
    decreases i
  {
    if i > 0 {
      LevelOf((i - 1) / 2);
    }
  }

  /** The place of a node on its level. */
  function Offset(i: nat): (j: nat) {
    if i == 0 then 0 else 2 * Offset((i - 1) / 2) + if i % 2 == 1 then 0 else 1
  }

  lemma {:induction false} OffsetOnLevel(i: nat)
    ensures Offset(i) == i - (Pow2(Level(i)) - 1)
    decreases i
  {
    if i > 0 {
      OffsetOnLevel((i - 1) / 2);
    }
  }

  lemma HalfTimes(j: int, half: int)
    ensures j * (2 * half) == (2 * j) * half
    ensures j * (2 * half) + half == (2 * j + 1) * half
  {
  }

  lemma {:induction false} StartOfRange(i: nat)
    requires Level(i) <= 16
    ensures Interval(i).0 == Offset(i) * Pow2(16 - Level(i))
    decreases i
  {
    if i > 0 {
      var p := (i - 1) / 2;
      var half := Pow2(16 - Level(i));
      assert Pow2(16 - Level(p)) == 2 * half;
      assert Offset(i) == 2 * Offset(p) + if i % 2 == 1 then 0 else 1;
      assert Level(p) <= 16;
      Width(p);
      IntervalOfChild(i);
      hide Level, Pow2, Interval, Offset;
      StartOfRange(p);
      HalfTimes(Offset(p), half);
    }
  }

  /** Node `i` of level `d` has the (i - (2^d - 1))-th range of width 2^(16 - d). */
  lemma IntervalIsDyadic(i: nat)
    requires Level(i) <= 16
    ensures Interval(i).0 == (i - (Pow2(Level(i)) - 1)) * Pow2(16 - Level(i))
    ensures Interval(i).1 == Interval(i).0 + Pow2(16 - Level(i)) - 1
  {
    hide Level, Pow2, Interval, Offset;
    StartOfRange(i);
    OffsetOnLevel(i);
    Width(i);
  }

  lemma IntervalOfChild(i: nat)
    requires i > 0
    ensures var p := Interval((i - 1) / 2);
            && (i % 2 == 1 ==> Interval(i) == (p.0, p.0 + (p.1 - p.0) / 2))
            && (i % 2 == 0 ==> Interval(i) == (p.0 + (p.1 - p.0) / 2 + 1, p.1))
  {
  }

  lemma {:induction false} Levels(i: nat)
    ensures i < 1 ==> Level(i) == 0
    ensures 1 <= i < 3 ==> Level(i) == 1
    ensures 3 <= i < 7 ==> Level(i) == 2
    ensures 7 <= i < 15 ==> Level(i) == 3
    ensures 15 <= i < 31 ==> Level(i) == 4
    ensures 31 <= i < 63 ==> Level(i) == 5
    ensures 63 <= i < 127 ==> Level(i) == 6
    ensures 127 <= i < 255 ==> Level(i) == 7
    ensures 255 <= i < 511 ==> Level(i) == 8
    decreases i
  {
    if i > 0 {
      Levels((i - 1) / 2);
    }
  }

  lemma Bounds(i: nat)
    requires i < NODE_LIMIT
    ensures 0 <= Interval(i).0 && Interval(i).0 + 255 <= Interval(i).1 <= KEY_MAX
    ensures i < 255 ==> Level(i) < 8
  {
    Levels(i);
    Width(i);
    WideEnough(16 - Level(i));
  }

  lemma {:induction false} WideEnough(n: nat)
    ensures n >= 8 ==> Pow2(n) >= 256
  {
    if n == 8 {
      assert Pow2(4) == 16;
    } else if n > 8 {
      WideEnough(n - 1);
    }
  }

  lemma Halves(p: nat)
    ensures var m := Interval(p).0 + (Interval(p).1 - Interval(p).0) / 2;
            Interval(2 * p + 1) == (Interval(p).0, m) && Interval(2 * p + 2) == (m + 1, Interval(p).1)
  {
    assert (2 * p + 1 - 1) / 2 == p && (2 * p + 2 - 1) / 2 == p;
    IntervalOfChild(2 * p + 1);
    IntervalOfChild(2 * p + 2);
  }

  // ---------------------------------------------------------- tree invariant

  predicate InPlace(nodes: seq<Node>, i: nat)
    requires i < |nodes|
  {
    !Empty(nodes[i]) ==> nodes[i].min == Interval(i).0 && nodes[i].max == Interval(i).1
  }

  /** A child exists only below an existing node, and a second child only beside a first. */
  predicate Family(nodes: seq<Node>, p: nat)
    requires 2 * p + 2 < |nodes|
  {
    && (!Empty(nodes[2 * p + 1]) ==> !Empty(nodes[p]))
    && (!Empty(nodes[2 * p + 2]) ==> !Empty(nodes[2 * p + 1]))
  }

  predicate Twins(nodes: seq<Node>, p: nat)
    requires 2 * p + 2 < |nodes|
  {
    !Empty(nodes[2 * p + 1]) ==> !Empty(nodes[2 * p + 2])
  }

  ghost predicate Dyadic(nodes: seq<Node>) {
    && |nodes| == NODE_LIMIT
    && !Empty(nodes[0])
    && (forall i :: 0 <= i < NODE_LIMIT ==> InPlace(nodes, i))
    && (forall p :: 0 <= p < 255 ==> Family(nodes, p))
  }

  /** Children come in pairs. */
  ghost predicate Paired(nodes: seq<Node>)
    requires |nodes| == NODE_LIMIT
  {
    forall p :: 0 <= p < 255 ==> Twins(nodes, p)
  }

  /** heap_insert passes from the root to the children of any node that contains the range. */
  lemma {:induction false} Reaches(nodes: seq<Node>, b: nat, min: Key, max: Key)
    requires Dyadic(nodes) && b < 255 && !Empty(nodes[b])
    requires Interval(b).0 <= min <= max <= Interval(b).1
    ensures InsertFrom(nodes, 0, min, max) == InsertFrom(nodes, 2 * b + 1, min, max)
    decreases b
  {
    if b == 0 {
      RootPasses(nodes, min, max);
    } else {
      var p := (b - 1) / 2;
      ParentContains(nodes, p, b);
      hide Dyadic, Interval, InsertFrom;
      Reaches(nodes, p, min, max);
      FirstToSecond(nodes, p, b, min, max);
    }
  }

  lemma RootPasses(nodes: seq<Node>, min: Key, max: Key)
    requires Dyadic(nodes)
    ensures InsertFrom(nodes, 0, min, max) == InsertFrom(nodes, 1, min, max)
  {
    assert InPlace(nodes, 0);
  }

  lemma ParentContains(nodes: seq<Node>, p: nat, b: nat)
    requires Dyadic(nodes) && (b == 2 * p + 1 || b == 2 * p + 2) && b < 255 && !Empty(nodes[b])
    ensures !Empty(nodes[p]) && Interval(p).0 <= Interval(b).0 && Interval(b).1 <= Interval(p).1
  {
    assert Family(nodes, p);
    Halves(p);
    Bounds(p);
    hide Interval;
  }

  lemma FirstToSecond(nodes: seq<Node>, p: nat, b: nat, min: Key, max: Key)
    requires Dyadic(nodes) && p < 127 && (b == 2 * p + 1 || b == 2 * p + 2) && !Empty(nodes[b])
    requires Interval(b).0 <= min <= max <= Interval(b).1
    ensures InsertFrom(nodes, 2 * p + 1, min, max) == InsertFrom(nodes, 2 * b + 1, min, max)
  {
    assert Family(nodes, p) && InPlace(nodes, b) && InPlace(nodes, 2 * p + 1);
    Halves(p);
    Bounds(p);
    hide Interval;
    if b == 2 * p + 2 {
      assert InsertFrom(nodes, 2 * p + 1, min, max) == InsertFrom(nodes, b, min, max);
    }
  }

  function RangeOf(i: nat): (n: Node)
    requires i < NODE_LIMIT
    ensures n.min <= n.max && !Empty(n)
  {
    Bounds(i);
    Node(Interval(i).0, Interval(i).1)
  }

  /** Adding the next child of an existing node keeps the tree in place. */
  lemma AddChild(nodes: seq<Node>, b: nat, c: nat)
    requires Dyadic(nodes) && b < 255 && !Empty(nodes[b])
    requires c == 2 * b + 1 || (c == 2 * b + 2 && !Empty(nodes[2 * b + 1]))
    requires Empty(nodes[c])
    ensures Dyadic(nodes[c := RangeOf(c)])
  {
    var r := nodes[c := RangeOf(c)];
    forall i | 0 <= i < NODE_LIMIT ensures InPlace(r, i) {
      assert InPlace(nodes, i);
    }
    forall p | 0 <= p < 255 ensures Family(r, p) {
      assert Family(nodes, p);
      hide Interval;
    }
  }

  /** The first half of a node's range goes to its first child, or nowhere. */
  lemma PlacesFirstHalf(nodes: seq<Node>, b: nat)
    requires Dyadic(nodes) && b < 255 && !Empty(nodes[b])
    requires Empty(nodes[2 * b + 1]) || b >= 127
    ensures nodes[b] == RangeOf(b) && Mean(RangeOf(b)) == RangeOf(2 * b + 1).max < KEY_MAX
    ensures HeapInsert(nodes, RangeOf(b).min, RangeOf(2 * b + 1).max) ==
      if Empty(nodes[2 * b + 1]) then Some(nodes[2 * b + 1 := RangeOf(2 * b + 1)]) else None
  {
    var first := 2 * b + 1;
    var min, mean := RangeOf(b).min, RangeOf(first).max;
    assert InPlace(nodes, b) && InPlace(nodes, first);
    Bounds(b);
    Halves(b);
    Reaches(nodes, b, min, mean);
    assert Node(min, mean) == RangeOf(first);
    hide Interval, Dyadic, InPlace, RangeOf;
    if !Empty(nodes[first]) {
      assert nodes[first] == RangeOf(first);
      assert InsertFrom(nodes, first, min, mean) == NODE_LIMIT;
    }
  }

  /** The second half then goes to its second child. */
  lemma PlacesSecondHalf(nodes: seq<Node>, b: nat)
    requires Dyadic(nodes) && b < 255 && !Empty(nodes[b])
    requires !Empty(nodes[2 * b + 1]) && Empty(nodes[2 * b + 2])
    ensures RangeOf(2 * b + 2).min == RangeOf(2 * b + 1).max + 1 && RangeOf(2 * b + 2).max == RangeOf(b).max
    ensures HeapInsert(nodes, RangeOf(2 * b + 2).min, RangeOf(b).max) ==
      Some(nodes[2 * b + 2 := RangeOf(2 * b + 2)])
  {
    var first, second := 2 * b + 1, 2 * b + 2;
    var min, max := RangeOf(second).min, RangeOf(b).max;
    assert InPlace(nodes, first);
    Bounds(b);
    Halves(b);
    Reaches(nodes, b, min, max);
    assert Node(min, max) == RangeOf(second);
    assert nodes[first].max < max;
    hide Interval, Dyadic, InPlace, RangeOf;
    assert InsertFrom(nodes, first, min, max) == InsertFrom(nodes, second, min, max) == second;
  }

  /** The tree with both children of `b`. */
  function WithChildren(nodes: seq<Node>, b: nat): (r: seq<Node>)
    requires |nodes| == NODE_LIMIT && b < 255
    ensures |r| == NODE_LIMIT
  {
    nodes[2 * b + 1 := RangeOf(2 * b + 1)][2 * b + 2 := RangeOf(2 * b + 2)]
  }

  lemma ChildrenKeepTree(nodes: seq<Node>, b: nat)
    requires Dyadic(nodes) && Paired(nodes) && b < 255 && !Empty(nodes[b]) && Empty(nodes[2 * b + 1])
    ensures Dyadic(nodes[2 * b + 1 := RangeOf(2 * b + 1)]) && Empty(nodes[2 * b + 2])
    ensures Dyadic(WithChildren(nodes, b)) && Paired(WithChildren(nodes, b))
  {
    var half := nodes[2 * b + 1 := RangeOf(2 * b + 1)];
    assert Family(nodes, b);
    AddChild(nodes, b, 2 * b + 1);
    AddChild(half, b, 2 * b + 2);
    hide Dyadic, RangeOf;
    forall p | 0 <= p < 255 ensures Twins(WithChildren(nodes, b), p) {
      assert Twins(nodes, p);
    }
  }

  lemma SplitValue(nodes: seq<Node>, b: nat, half: seq<Node>, whole: seq<Node>)
    requires |nodes| == |half| == NODE_LIMIT && b < NODE_LIMIT
    requires nodes[b].min <= nodes[b].max && Mean(nodes[b]) < KEY_MAX
    requires HeapInsert(nodes, nodes[b].min, Mean(nodes[b])) == Some(half)
    requires HeapInsert(half, Mean(nodes[b]) + 1, nodes[b].max) == Some(whole)
    ensures Split(nodes, b) == (whole, true)
  {
    hide HeapInsert, Mean;
  }

  /** Splitting an existing node that has no children gives it its two halves, in a tree that
      stays in place with its children in pairs. */
  lemma SplitsInHalves(nodes: seq<Node>, b: nat)
    requires |nodes| == NODE_LIMIT && Dyadic(nodes) && Paired(nodes) && b < 255 && !Empty(nodes[b]) && Empty(nodes[2 * b + 1])
    ensures nodes[b] == RangeOf(b) && Split(nodes, b) == (WithChildren(nodes, b), true)
    ensures Dyadic(WithChildren(nodes, b)) && Paired(WithChildren(nodes, b))
  {
    hide Dyadic, Paired, RangeOf, HeapInsert, Split, Mean, Interval, InsertFrom, Empty;
    var first, second := 2 * b + 1, 2 * b + 2;
    var half := nodes[first := RangeOf(first)];
    var whole := WithChildren(nodes, b);
    assert whole == half[second := RangeOf(second)];
    hide WithChildren;
    ChildrenKeepTree(nodes, b);
    PlacesFirstHalf(nodes, b);
    assert half[b] == nodes[b] && half[second] == nodes[second];
    PlacesSecondHalf(half, b);
    SplitValue(nodes, b, half, whole);
  }

  /** Splitting a node of the last searched level again does nothing. */
  lemma SplitsOnce(nodes: seq<Node>, b: nat)
    requires Dyadic(nodes) && 127 <= b < 255 && !Empty(nodes[b]) && !Empty(nodes[2 * b + 1])
    ensures nodes[b] == RangeOf(b) && Split(nodes, b) == (nodes, false)
  {
    PlacesFirstHalf(nodes, b);
  }

  // ------------------------------------------------------------ search path

  predicate Covers(i: nat, hashed: Key) { Interval(i).0 <= hashed <= Interval(i).1 }

  /** The child of `b` whose half of the range has the key. */
  function ChildFor(b: nat, hashed: Key): (c: nat)
    requires Covers(b, hashed)
    ensures (c == 2 * b + 1 || c == 2 * b + 2) && Covers(c, hashed)
    ensures forall d :: (d == 2 * b + 1 || d == 2 * b + 2) && Covers(d, hashed) ==> d == c
  {
    Halves(b);
    if hashed <= Interval(b).0 + (Interval(b).1 - Interval(b).0) / 2 then 2 * b + 1 else 2 * b + 2
  }

  /** Going down from `b` one child at a time, for as long as the child exists and can be found. */
  function Descend(nodes: seq<Node>, hashed: Key, b: nat): (path: seq<nat>)
    requires |nodes| == NODE_LIMIT && b < 255 && Covers(b, hashed)
    ensures |path| > 0 && path[0] == b
    decreases NODE_LIMIT - b
  {
    var c := ChildFor(b, hashed);
    if c >= 255 || Empty(nodes[c]) then [b] else [b] + Descend(nodes, hashed, c)
  }

  lemma FindsChild(nodes: seq<Node>, hashed: Key, b: nat)
    requires Dyadic(nodes) && Paired(nodes) && b < 255 && Covers(b, hashed)
    ensures var c := ChildFor(b, hashed);
            FindFrom(nodes, hashed, 2 * b + 1) == if c >= 255 || Empty(nodes[c]) then None else Some(c)
  {
    var first, second := 2 * b + 1, 2 * b + 2;
    assert Family(nodes, b) && Twins(nodes, b) && InPlace(nodes, first) && InPlace(nodes, second);
    var c := ChildFor(b, hashed);
    hide Interval, ChildFor, Dyadic, Paired, Family, Twins;
    if !Empty(nodes[first]) && c == second {
      assert FindFrom(nodes, hashed, first) == FindFrom(nodes, hashed, second);
    }
  }

  lemma FindsRoot(nodes: seq<Node>, hashed: Key)
    requires Dyadic(nodes)
    ensures Covers(0, hashed) && FindFrom(nodes, hashed, 0) == Some(0)
  {
    assert InPlace(nodes, 0);
  }

  lemma {:induction false} PathBelow(nodes: seq<Node>, hashed: Key, b: nat)
    requires Dyadic(nodes) && Paired(nodes) && b < 255 && Covers(b, hashed)
    ensures [b] + PathFrom(nodes, hashed, 2 * b + 1) == Descend(nodes, hashed, b)
    decreases NODE_LIMIT - b
  {
    assert |nodes| == NODE_LIMIT;
    hide Dyadic, Paired, Covers, FindFrom, ChildFor, Interval, PathFrom, Descend;
    FindsChild(nodes, hashed, b);
    var c := ChildFor(b, hashed);
    PathStep(nodes, hashed, 2 * b + 1);
    DescendStep(nodes, hashed, b);
    if c < 255 && !Empty(nodes[c]) {
      PathBelow(nodes, hashed, c);
    } else {
      assert [b] + [] == [b];
    }
  }

  lemma DescendStep(nodes: seq<Node>, hashed: Key, b: nat)
    requires |nodes| == NODE_LIMIT && b < 255 && Covers(b, hashed)
    ensures var c := ChildFor(b, hashed);
            Descend(nodes, hashed, b) == if c >= 255 || Empty(nodes[c]) then [b] else [b] + Descend(nodes, hashed, c)
  {
    hide Covers, ChildFor, Interval;
  }

  lemma PathStep(nodes: seq<Node>, hashed: Key, i: nat)
    requires |nodes| == NODE_LIMIT
    ensures var f := FindFrom(nodes, hashed, i);
            PathFrom(nodes, hashed, i) ==
              if f.None? then [] else [f.value] + PathFrom(nodes, hashed, 2 * f.value + 1)
  {
  }

  lemma PathIsDescent(nodes: seq<Node>, hashed: Key)
    requires Dyadic(nodes) && Paired(nodes)
    ensures Covers(0, hashed) && PathFrom(nodes, hashed, 0) == Descend(nodes, hashed, 0)
  {
    FindsRoot(nodes, hashed);
    PathBelow(nodes, hashed, 0);
    hide Dyadic, Paired, Covers, FindFrom, Descend;
    PathStep(nodes, hashed, 0);
  }

  /** Every searchable node that exists and whose range has the key is on the path. */
  lemma {:induction false} OnPath(nodes: seq<Node>, hashed: Key, b: nat) returns (k: nat)
    requires Dyadic(nodes) && b < 255 && !Empty(nodes[b]) && Covers(b, hashed) && Covers(0, hashed)
    ensures var path := Descend(nodes, hashed, 0);
            k < |path| && path[k] == b && path[k..] == Descend(nodes, hashed, b)
    decreases b
  {
    k := 0;
    if b > 0 {
      var p := (b - 1) / 2;
      assert Family(nodes, p);
      Halves(p);
      Bounds(p);
      assert Covers(p, hashed) && b == ChildFor(p, hashed);
      hide Dyadic, Covers, ChildFor, Interval;
      var j := OnPath(nodes, hashed, p);
      k := j + 1;
      var path := Descend(nodes, hashed, 0);
      assert path[j..] == [p] + Descend(nodes, hashed, b);
      assert path[k..] == path[j..][1..];
      assert path[k] == path[k..][0];
    }
  }
}
