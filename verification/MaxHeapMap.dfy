/** The MaxHeap index against a plain collection of pairs: what an insertion adds, when it fails,
    and what a lookup through the bucket cache answers. */
module MaxHeapMap {
  import opened MaxHeap

  // --------------------------------------------------------------- contents

  predicate Counted(slots: seq<nat>, store: seq<seq<Pair>>) {
    && |slots| == |store| == NODE_LIMIT
    && (forall b :: 0 <= b < NODE_LIMIT ==> slots[b] <= BUCKET_SIZE == |store[b]|)
  }

  /** The pairs in the used slots of the buckets from `i` on. */
  ghost function ContentsFrom(slots: seq<nat>, store: seq<seq<Pair>>, i: nat): (r: multiset<Pair>)
    requires Counted(slots, store) && i <= NODE_LIMIT
    decreases NODE_LIMIT - i
  {
    if i == NODE_LIMIT then multiset{}
    else BucketContents(slots, store, i) + ContentsFrom(slots, store, i + 1)
  }

  ghost function BucketContents(slots: seq<nat>, store: seq<seq<Pair>>, b: nat): (r: multiset<Pair>)
    requires Counted(slots, store) && b < NODE_LIMIT
  {
    multiset(store[b][..slots[b]])
  }

  ghost function Contents(h: Heap): (r: multiset<Pair>)
    requires Counted(h.slots, h.store)
  {
    ContentsFrom(h.slots, h.store, 0)
  }

  /** A bucket is within its size, is used only for a searchable node that exists, and holds only
      keys of the node's range. */
  predicate BucketFits(h: Heap, hash: Key -> Key, b: nat)
    requires Shaped(h) && b < NODE_LIMIT
  {
    && h.slots[b] <= BUCKET_SIZE
    && (b >= 255 || Empty(h.nodes[b]) ==> h.slots[b] == 0)
    && (h.slots[b] == 0 ==> h.store[b][0] == NoPair)
    && (forall s :: 0 <= s < h.slots[b] ==> Covers(b, hash(h.store[b][s].key)))
  }

  /** Only a full bucket is split. */
  predicate SplitWhenFull(h: Heap, p: nat)
    requires Shaped(h) && p < 255
  {
    !Empty(h.nodes[2 * p + 1]) ==> h.slots[p] == BUCKET_SIZE
  }

  ghost predicate HeapInvariant(h: Heap, hash: Key -> Key) {
    && Shaped(h) && Dyadic(h.nodes) && Paired(h.nodes)
    && (forall b :: 0 <= b < NODE_LIMIT ==> BucketFits(h, hash, b))
    && (forall p :: 0 <= p < 255 ==> SplitWhenFull(h, p))
  }

  lemma InvariantParts(h: Heap, hash: Key -> Key)
    requires HeapInvariant(h, hash)
    ensures Shaped(h) && Dyadic(h.nodes) && Paired(h.nodes) && Counted(h.slots, h.store)
    ensures Ranged(h.nodes)
  {
    forall b | 0 <= b < NODE_LIMIT
      ensures h.nodes[b].min <= h.nodes[b].max && h.slots[b] <= BUCKET_SIZE == |h.store[b]|
    {
      assert InPlace(h.nodes, b) && BucketFits(h, hash, b);
      Bounds(b);
    }
  }

  lemma FreshTree()
    ensures Dyadic(Create().nodes) && Paired(Create().nodes)
    ensures forall b :: 0 < b < NODE_LIMIT ==> Create().nodes[b] == NoNode
  {
    var nodes := Create().nodes;
    assert nodes[0] == Node(0, KEY_MAX) && forall b :: 0 < b < NODE_LIMIT ==> nodes[b] == NoNode;
    hide Create;
    forall b | 0 <= b < NODE_LIMIT ensures InPlace(nodes, b) {
    }
    forall p | 0 <= p < 255 ensures Family(nodes, p) && Twins(nodes, p) {
    }
  }

  lemma FreshInvariant(hash: Key -> Key)
    ensures HeapInvariant(Create(), hash) && Contents(Create()) == multiset{}
  {
    hide Create, Dyadic, Paired, BucketFits, SplitWhenFull;
    var h := Create();
    FreshTree();
    FreshBuckets();
    UnusedFits(h, hash);
    NothingStored(h.slots, h.store, 0);
  }

  lemma UnusedFits(h: Heap, hash: Key -> Key)
    requires Shaped(h) && forall b :: 0 < b < NODE_LIMIT ==> h.nodes[b] == NoNode
    requires forall b :: 0 <= b < NODE_LIMIT ==> h.slots[b] == 0 && h.store[b][0] == NoPair
    ensures forall b :: 0 <= b < NODE_LIMIT ==> BucketFits(h, hash, b)
    ensures forall p :: 0 <= p < 255 ==> SplitWhenFull(h, p)
  {
    hide Covers;
  }

  lemma FreshBuckets()
    ensures var h := Create();
            && Counted(h.slots, h.store)
            && forall b :: 0 <= b < NODE_LIMIT ==> h.slots[b] == 0 && h.store[b][0] == NoPair
  {
  }

  lemma {:induction false} NothingStored(slots: seq<nat>, store: seq<seq<Pair>>, i: nat)
    requires Counted(slots, store) && i <= NODE_LIMIT
    requires forall b :: 0 <= b < NODE_LIMIT ==> slots[b] == 0
    ensures ContentsFrom(slots, store, i) == multiset{}
    decreases NODE_LIMIT - i
  {
    if i < NODE_LIMIT {
      NothingStored(slots, store, i + 1);
    }
  }

  // -------------------------------------------------------------- insertion

  lemma AppendToBucket(h: Heap, b: nat, p: Pair)
    requires Shaped(h) && Counted(h.slots, h.store) && b < NODE_LIMIT && h.slots[b] < BUCKET_SIZE
    ensures var r := Append(h, b, p).0;
            && Append(h, b, p).1 && Counted(r.slots, r.store) && r.nodes == h.nodes
            && r.store[b][..r.slots[b]] == h.store[b][..h.slots[b]] + [p]
            && forall c :: 0 <= c < NODE_LIMIT && c != b ==> r.store[c] == h.store[c] && r.slots[c] == h.slots[c]
  {
    var r := Append(h, b, p).0;
    assert r.store[b][..r.slots[b]] == h.store[b][..h.slots[b]] + [p];
  }

  lemma AppendToContents(h: Heap, b: nat, p: Pair)
    requires Shaped(h) && Counted(h.slots, h.store) && b < NODE_LIMIT && h.slots[b] < BUCKET_SIZE
    ensures var r := Append(h, b, p).0;
            && Append(h, b, p).1 && Counted(r.slots, r.store)
            && BucketContents(r.slots, r.store, b) == BucketContents(h.slots, h.store, b) + multiset{p}
            && forall c :: 0 <= c < NODE_LIMIT && c != b ==>
                 BucketContents(r.slots, r.store, c) == BucketContents(h.slots, h.store, c)
  {
    AppendToBucket(h, b, p);
    hide Append;
  }

  lemma {:induction false} AppendAdds(h: Heap, b: nat, p: Pair, i: nat)
    requires Shaped(h) && Counted(h.slots, h.store) && b < NODE_LIMIT && h.slots[b] < BUCKET_SIZE && i <= NODE_LIMIT
    ensures var r := Append(h, b, p).0;
            && Append(h, b, p).1 && Counted(r.slots, r.store)
            && ContentsFrom(r.slots, r.store, i) ==
               ContentsFrom(h.slots, h.store, i) + if i <= b then multiset{p} else multiset{}
    decreases NODE_LIMIT - i
  {
    hide Append, BucketContents, Shaped, Counted;
    AppendToContents(h, b, p);
    if i < NODE_LIMIT {
      AppendAdds(h, b, p, i + 1);
    }
  }

  lemma AppendKeepsInvariant(h: Heap, hash: Key -> Key, b: nat, p: Pair)
    requires HeapInvariant(h, hash) && b < 255 && !Empty(h.nodes[b]) && h.slots[b] < BUCKET_SIZE
    requires Covers(b, hash(p.key))
    ensures HeapInvariant(Append(h, b, p).0, hash)
  {
    var r := Append(h, b, p).0;
    forall c | 0 <= c < NODE_LIMIT ensures BucketFits(r, hash, c) {
      assert BucketFits(h, hash, c);
      hide Covers;
    }
    forall c | 0 <= c < 255 ensures SplitWhenFull(r, c) {
      assert SplitWhenFull(h, c);
    }
  }

  lemma ChildrenKeepInvariant(h: Heap, hash: Key -> Key, b: nat)
    requires HeapInvariant(h, hash) && b < 255 && !Empty(h.nodes[b]) && h.slots[b] == BUCKET_SIZE
    requires Empty(h.nodes[2 * b + 1])
    ensures HeapInvariant(h.(nodes := WithChildren(h.nodes, b)), hash)
  {
    ChildrenKeepTree(h.nodes, b);
    var r := h.(nodes := WithChildren(h.nodes, b));
    hide Dyadic, Paired;
    forall c | 0 <= c < NODE_LIMIT ensures BucketFits(r, hash, c) {
      assert BucketFits(h, hash, c);
      hide Covers, RangeOf;
    }
    forall c | 0 <= c < 255 ensures SplitWhenFull(r, c) {
      assert SplitWhenFull(h, c);
      hide RangeOf;
    }
  }

  predicate Searched(h: Heap, hashed: Key, path: seq<nat>)
    requires Shaped(h)
  {
    forall k :: 0 <= k < |path| ==> path[k] < 255 && !Empty(h.nodes[path[k]]) && Covers(path[k], hashed)
  }

  predicate FullButLast(h: Heap, path: seq<nat>)
    requires Shaped(h)
  {
    forall k :: 0 <= k < |path| - 1 ==> path[k] < path[k + 1] && path[k] < NODE_LIMIT && h.slots[path[k]] == BUCKET_SIZE
  }

  predicate NothingBelow(h: Heap, hashed: Key, b: nat)
    requires Shaped(h) && Covers(b, hashed)
  {
    var c := ChildFor(b, hashed);
    c >= 255 || Empty(h.nodes[c])
  }

  /** What is known of the search path from `b` on: one bucket per level at most, all of them but
      the last full, and no bucket to be found below the last. */
  ghost predicate FullPath(h: Heap, hashed: Key, b: nat, path: seq<nat>)
    requires Shaped(h)
  {
    && 0 < |path| && path[0] == b && Searched(h, hashed, path) && FullButLast(h, path)
    && Level(path[|path| - 1]) == Level(b) + |path| - 1 < 8
    && NothingBelow(h, hashed, path[|path| - 1])
  }

  lemma FullPathStep(h: Heap, hashed: Key, b: nat, rest: seq<nat>)
    requires Shaped(h) && b < 255 && !Empty(h.nodes[b]) && Covers(b, hashed)
    requires h.slots[b] == BUCKET_SIZE && FullPath(h, hashed, ChildFor(b, hashed), rest)
    ensures FullPath(h, hashed, b, [b] + rest)
  {
    var c := ChildFor(b, hashed);
    assert Level(c) == Level(b) + 1;
    hide Covers, ChildFor, Level, Interval;
    hide NothingBelow;
    var path := [b] + rest;
    assert path[|path| - 1] == rest[|rest| - 1];
    SearchedStep(h, hashed, b, rest);
    FullStep(h, b, rest);
    hide Searched, FullButLast;
  }

  lemma SearchedStep(h: Heap, hashed: Key, b: nat, rest: seq<nat>)
    requires Shaped(h) && b < 255 && !Empty(h.nodes[b]) && Covers(b, hashed) && Searched(h, hashed, rest)
    ensures Searched(h, hashed, [b] + rest)
  {
    hide Covers;
  }

  lemma FullStep(h: Heap, b: nat, rest: seq<nat>)
    requires Shaped(h) && b < NODE_LIMIT && h.slots[b] == BUCKET_SIZE && rest != [] && b < rest[0] && FullButLast(h, rest)
    ensures FullButLast(h, [b] + rest)
  {
    var path := [b] + rest;
    forall k | 0 <= k < |path| - 1
      ensures path[k] < path[k + 1] && path[k] < NODE_LIMIT && h.slots[path[k]] == BUCKET_SIZE
    {
      if k > 0 {
        assert path[k] == rest[k - 1] && path[k + 1] == rest[k];
      }
    }
  }

  lemma {:induction false} PathIsFull(h: Heap, hash: Key -> Key, hashed: Key, b: nat)
    requires HeapInvariant(h, hash) && b < 255 && !Empty(h.nodes[b]) && Covers(b, hashed)
    ensures FullPath(h, hashed, b, Descend(h.nodes, hashed, b))
    decreases NODE_LIMIT - b
  {
    Bounds(b);
    var c := ChildFor(b, hashed);
    assert SplitWhenFull(h, b) && Family(h.nodes, b);
    hide HeapInvariant, Dyadic, Paired, Covers, ChildFor, Level;
    if c < 255 && !Empty(h.nodes[c]) {
      PathIsFull(h, hash, hashed, c);
      hide FullPath;
      FullPathStep(h, hashed, b, Descend(h.nodes, hashed, c));
    }
  }

  /** The path of a hash, from the root. */
  lemma SearchPathIsFull(h: Heap, hash: Key -> Key, hashed: Key)
    requires HeapInvariant(h, hash)
    ensures FullPath(h, hashed, 0, PathFrom(h.nodes, hashed, 0))
  {
    PathIsDescent(h.nodes, hashed);
    PathIsFull(h, hash, hashed, 0);
  }

  /** All eight buckets on the path hold 128 pairs. */
  predicate PathExhausted(h: Heap, hashed: Key)
    requires Shaped(h)
  {
    var path := PathFrom(h.nodes, hashed, 0);
    |path| == 8 && forall k :: 0 <= k < |path| ==> path[k] < NODE_LIMIT && h.slots[path[k]] == BUCKET_SIZE
  }

  /** The heap once bucket `b` has its children. */
  function Grown(h: Heap, b: nat): (r: Heap)
    requires Shaped(h) && b < 255
    ensures Shaped(r)
  {
    h.(nodes := WithChildren(h.nodes, b))
  }

  lemma SplitGoesToChild(h: Heap, hash: Key -> Key, hashed: Key, b: nat)
    requires HeapInvariant(h, hash) && b < 255 && !Empty(h.nodes[b]) && h.slots[b] == BUCKET_SIZE
    requires Covers(b, hashed) && Empty(h.nodes[2 * b + 1])
    ensures h.nodes[b] == RangeOf(b) && Split(h.nodes, b) == (Grown(h, b).nodes, true)
    ensures HeapInvariant(Grown(h, b), hash)
    ensures var c := ChildFor(b, hashed);
            && FindFrom(Grown(h, b).nodes, hashed, 2 * b + 1) == (if c >= 255 then None else Some(c))
            && (c < 255 ==> !Empty(Grown(h, b).nodes[c]) && h.slots[c] == 0)
            && (c >= 255 <==> b >= 127)
  {
    SplitsInHalves(h.nodes, b);
    ChildrenKeepInvariant(h, hash, b);
    FindsChild(Grown(h, b).nodes, hashed, b);
    var c := ChildFor(b, hashed);
    hide Dyadic, Paired, Covers, RangeOf, FindFrom, Interval;
    assert BucketFits(h, hash, c) && Family(h.nodes, b);
  }

  /** Where a pair goes when `b` is the last bucket on its path: into `b` when there is room, into
      the new child when `b` is split, and nowhere when the children could not be found. */
  function Placed(h: Heap, hashed: Key, b: nat, p: Pair): (r: (Heap, bool))
    requires Shaped(h) && b < 255 && Covers(b, hashed)
    ensures Shaped(r.0)
  {
    if h.slots[b] < BUCKET_SIZE then Append(h, b, p)
    else if b < 127 then Append(Grown(h, b), ChildFor(b, hashed), p)
    else (if Empty(h.nodes[2 * b + 1]) then Grown(h, b) else h, false)
  }

  lemma PlacesFrom(h: Heap, hash: Key -> Key, p: Pair, b: nat)
    requires Shaped(h) && HeapInvariant(h, hash) && b < 255 && !Empty(h.nodes[b]) && Covers(b, hash(p.key))
    requires h.nodes[b].min <= h.nodes[b].max
    requires var c := ChildFor(b, hash(p.key)); c >= 255 || Empty(h.nodes[c])
    ensures InsertAt(h, hash, p, b) == Placed(h, hash(p.key), b, p)
    ensures h.slots[b] <= BUCKET_SIZE
    ensures h.slots[b] == BUCKET_SIZE && b < 127 ==> Empty(h.nodes[2 * b + 1])
  {
    var hashed := hash(p.key);
    assert BucketFits(h, hash, b) && Family(h.nodes, b) && Twins(h.nodes, b);
    assert ChildFor(b, hashed) == 2 * b + 1 || ChildFor(b, hashed) == 2 * b + 2;
    hide Dyadic, Paired, Covers, ChildFor, FindFrom, Split, Append;
    if h.slots[b] == BUCKET_SIZE {
      if Empty(h.nodes[2 * b + 1]) {
        SplitGoesToChild(h, hash, hashed, b);
        hide HeapInvariant, WithChildren;
      } else {
        SplitsOnce(h.nodes, b);
        hide HeapInvariant;
      }
    }
  }

  /** The last bucket on the path of a key, and what its fill says about the whole path. */
  lemma LastBucket(h: Heap, hash: Key -> Key, key: Key) returns (b: nat)
    requires Shaped(h) && HeapInvariant(h, hash)
    ensures var path := PathFrom(h.nodes, hash(key), 0);
            path != [] && b == path[|path| - 1] < 255
    ensures !Empty(h.nodes[b]) && Covers(b, hash(key)) && h.slots[b] <= BUCKET_SIZE
    ensures var c := ChildFor(b, hash(key)); c >= 255 || Empty(h.nodes[c])
    ensures PathExhausted(h, hash(key)) <==> h.slots[b] == BUCKET_SIZE && b >= 127
  {
    var path := PathFrom(h.nodes, hash(key), 0);
    SearchPathIsFull(h, hash, hash(key));
    b := path[|path| - 1];
    assert BucketFits(h, hash, b);
    hide HeapInvariant, Dyadic, Paired, Covers, ChildFor, PathFrom, Interval, BucketFits;
    Levels(b);
    assert Level(0) == 0;
    hide Level;
    if |path| == 8 && h.slots[b] == BUCKET_SIZE {
      assert forall k :: 0 <= k < |path| ==> k < |path| - 1 || path[k] == b;
    }
  }

  lemma InsertsAtLast(h: Heap, hash: Key -> Key, p: Pair, b: nat)
    requires Shaped(h) && Ranged(h.nodes)
    requires var path := PathFrom(h.nodes, hash(p.key), 0); path != [] && b == path[|path| - 1] < NODE_LIMIT
    ensures InsertItem(h, hash, p) == InsertAt(h, hash, p, b)
  {
  }

  lemma PlacedEffect(h: Heap, hash: Key -> Key, p: Pair, b: nat)
    requires Shaped(h) && HeapInvariant(h, hash) && b < 255 && !Empty(h.nodes[b]) && Covers(b, hash(p.key))
    requires h.slots[b] <= BUCKET_SIZE
    requires h.slots[b] == BUCKET_SIZE && b < 127 ==> Empty(h.nodes[2 * b + 1])
    ensures var (r, ok) := Placed(h, hash(p.key), b, p);
            && HeapInvariant(r, hash) && Counted(h.slots, h.store) && Counted(r.slots, r.store)
            && Contents(r) == Contents(h) + (if ok then multiset{p} else multiset{})
            && (ok <==> h.slots[b] < BUCKET_SIZE || b < 127)
  {
    InvariantParts(h, hash);
    var hashed := hash(p.key);
    var c := ChildFor(b, hashed);
    hide HeapInvariant, Dyadic, Paired, Covers, ChildFor, Append, Interval;
    if h.slots[b] < BUCKET_SIZE {
      AppendKeepsInvariant(h, hash, b, p);
      AppendAdds(h, b, p, 0);
    } else if Empty(h.nodes[2 * b + 1]) {
      SplitGoesToChild(h, hash, hashed, b);
      if b < 127 {
        AppendKeepsInvariant(Grown(h, b), hash, c, p);
        AppendAdds(Grown(h, b), c, p, 0);
      }
    }
  }

  /** insert_item keeps the invariant, adds exactly the pair when it succeeds and nothing when it
      fails, and fails exactly when the eight buckets on the path of the hash are full. */
  lemma InsertionEffect(h: Heap, hash: Key -> Key, p: Pair)
    requires HeapInvariant(h, hash)
    ensures Counted(h.slots, h.store) && Shaped(h) && Ranged(h.nodes)
    ensures var (r, ok) := InsertItem(h, hash, p);
            && HeapInvariant(r, hash) && Counted(r.slots, r.store)
            && Contents(r) == Contents(h) + (if ok then multiset{p} else multiset{})
            && (ok <==> !PathExhausted(h, hash(p.key)))
  {
    hide HeapInvariant, Dyadic, Paired, Covers, ChildFor, PathFrom, Interval, Contents, PathExhausted;
    hide InsertItem, InsertAt, Placed, Counted, Ranged;
    InvariantParts(h, hash);
    var b := LastBucket(h, hash, p.key);
    assert h.nodes[b].min <= h.nodes[b].max by {
      InPlaceRange(h.nodes, b);
    }
    PlacesFrom(h, hash, p, b);
    InsertsAtLast(h, hash, p, b);
    PlacedEffect(h, hash, p, b);
  }

  lemma InPlaceRange(nodes: seq<Node>, b: nat)
    requires Ranged(nodes) && b < |nodes|
    ensures nodes[b].min <= nodes[b].max
  {
  }

  // --------------------------------------------------------------- capacity

  lemma {:induction false} ContentsShrink(h: Heap, i: nat, j: nat)
    requires Counted(h.slots, h.store) && i <= j <= NODE_LIMIT
    ensures |ContentsFrom(h.slots, h.store, j)| <= |ContentsFrom(h.slots, h.store, i)|
    decreases j - i
  {
    if i < j {
      ContentsShrink(h, i + 1, j);
    }
  }

  lemma {:induction false} FullBucketsHold(h: Heap, path: seq<nat>)
    requires Counted(h.slots, h.store) && |path| > 0
    requires forall k :: 0 <= k < |path| ==> path[k] < NODE_LIMIT && h.slots[path[k]] == BUCKET_SIZE
    requires forall k :: 0 <= k < |path| - 1 ==> path[k] < path[k + 1]
    ensures |ContentsFrom(h.slots, h.store, path[0])| >= BUCKET_SIZE * |path|
    decreases |path|
  {
    var b := path[0];
    assert |BucketContents(h.slots, h.store, b)| == BUCKET_SIZE;
    if |path| > 1 {
      var rest := path[1..];
      assert forall k :: 0 <= k < |rest| ==> rest[k] == path[k + 1];
      assert path[0] < path[1];
      FullBucketsHold(h, rest);
      ContentsShrink(h, b + 1, rest[0]);
    }
  }

  /** An exhausted path holds 1024 pairs by itself. */
  lemma ExhaustionNeedsManyPairs(h: Heap, hash: Key -> Key, hashed: Key)
    requires HeapInvariant(h, hash)
    ensures Counted(h.slots, h.store) && Shaped(h)
    ensures PathExhausted(h, hashed) ==> |Contents(h)| >= 1024
  {
    InvariantParts(h, hash);
    SearchPathIsFull(h, hash, hashed);
    hide HeapInvariant, Dyadic, Paired, Covers, ChildFor, PathFrom;
    if PathExhausted(h, hashed) {
      var path := PathFrom(h.nodes, hashed, 0);
      FullBucketsHold(h, path);
    }
  }

  // ------------------------------------------------------- insertion phases

  /** Inserting pairs one after another, and the pairs for which that succeeded. */
  ghost function InsertAll(h: Heap, hash: Key -> Key, ps: seq<Pair>): (r: (Heap, seq<Pair>))
    requires HeapInvariant(h, hash)
    ensures HeapInvariant(r.0, hash)
    decreases |ps|
  {
    if ps == [] then (h, []) else
    InsertionEffect(h, hash, ps[0]);
    var (next, ok) := InsertItem(h, hash, ps[0]);
    var (last, rest) := InsertAll(next, hash, ps[1..]);
    (last, (if ok then [ps[0]] else []) + rest)
  }

  /** The heap holds what it held before and exactly the accepted pairs, each as often as it was
      accepted; as long as it holds at most 1024 pairs, all are accepted. */
  lemma {:induction false} InsertAllAdds(h: Heap, hash: Key -> Key, ps: seq<Pair>)
    requires HeapInvariant(h, hash)
    ensures var (r, accepted) := InsertAll(h, hash, ps);
            && Counted(h.slots, h.store) && Counted(r.slots, r.store)
            && Contents(r) == Contents(h) + multiset(accepted)
            && (|Contents(h)| + |ps| <= 1024 ==> accepted == ps)
    decreases |ps|
  {
    hide HeapInvariant, Contents, InsertItem, PathExhausted, Ranged, Counted, Shaped;
    InvariantParts(h, hash);
    if ps == [] {
      assert InsertAll(h, hash, ps) == (h, []);
    } else {
      var p, tail := ps[0], ps[1..];
      InsertionEffect(h, hash, p);
      ExhaustionNeedsManyPairs(h, hash, hash(p.key));
      var (next, ok) := InsertItem(h, hash, p);
      InsertAllAdds(next, hash, tail);
      InsertAllStep(h, hash, ps);
      hide InsertAll;
      var rest := InsertAll(next, hash, tail).1;
      AcceptedMultiset(p, ok, rest);
      if |Contents(h)| + |ps| <= 1024 {
        assert ok && |Contents(next)| == |Contents(h)| + 1 && rest == tail;
        assert ps == [p] + tail;
      }
    }
  }

  lemma AcceptedMultiset(p: Pair, ok: bool, rest: seq<Pair>)
    ensures multiset((if ok then [p] else []) + rest) == (if ok then multiset{p} else multiset{}) + multiset(rest)
  {
  }

  lemma InsertAllStep(h: Heap, hash: Key -> Key, ps: seq<Pair>)
    requires HeapInvariant(h, hash) && ps != [] && Shaped(h) && Ranged(h.nodes)
    requires HeapInvariant(InsertItem(h, hash, ps[0]).0, hash)
    ensures var (next, ok) := InsertItem(h, hash, ps[0]);
            var (last, rest) := InsertAll(next, hash, ps[1..]);
            InsertAll(h, hash, ps) == (last, (if ok then [ps[0]] else []) + rest)
  {
    hide HeapInvariant, InsertItem, Ranged;
  }

  /** In every heap reached from a fresh one, an existing node of level d has exactly its dyadic range,
      which is never the (0, 0) of a node that does not exist; below the root its parent and its
      sibling exist, and its parent's bucket is full. */
  lemma ReachableIsDyadic(hash: Key -> Key, ps: seq<Pair>, i: nat)
    requires i < NODE_LIMIT
    ensures HeapInvariant(Create(), hash)
    ensures var h := InsertAll(Create(), hash, ps).0;
            Shaped(h) && (!Empty(h.nodes[i]) ==>
              var d := Level(i);
              && d <= 8 && Pow2(d) <= i + 1 < 2 * Pow2(d)
              && h.nodes[i].min == (i - (Pow2(d) - 1)) * Pow2(16 - d)
              && h.nodes[i].max == h.nodes[i].min + Pow2(16 - d) - 1
              && (i > 0 ==>
                    && !Empty(h.nodes[(i - 1) / 2]) && h.slots[(i - 1) / 2] == BUCKET_SIZE
                    && !Empty(h.nodes[if i % 2 == 1 then i + 1 else i - 1])))
  {
    hide Create, InsertAll, HeapInvariant, Pow2, Level, Shaped;
    FreshInvariant(hash);
    var h := InsertAll(Create(), hash, ps).0;
    InvariantParts(h, hash);
    if !Empty(h.nodes[i]) {
      NodeFacts(h, hash, i);
      hide Interval;
      LevelBelowNine(i);
      LevelOf(i);
      IntervalIsDyadic(i);
    }
  }

  lemma LevelBelowNine(i: nat)
    requires i < NODE_LIMIT
    ensures Level(i) <= 8
  {
    Levels(i);
    hide Level;
  }

  lemma NodeFacts(h: Heap, hash: Key -> Key, i: nat)
    requires Shaped(h) && HeapInvariant(h, hash) && i < NODE_LIMIT && !Empty(h.nodes[i])
    ensures h.nodes[i].min == Interval(i).0 && h.nodes[i].max == Interval(i).1
    ensures i > 0 ==>
      && !Empty(h.nodes[(i - 1) / 2]) && h.slots[(i - 1) / 2] == BUCKET_SIZE
      && !Empty(h.nodes[if i % 2 == 1 then i + 1 else i - 1])
  {
    assert InPlace(h.nodes, i);
    hide Interval;
    if i > 0 {
      var p := (i - 1) / 2;
      assert Family(h.nodes, p) && Twins(h.nodes, p) && SplitWhenFull(h, p);
    }
  }
}
