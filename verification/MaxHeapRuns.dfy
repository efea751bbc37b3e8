/** Insertions and lookups in any order: when the cached bucket goes stale, and what a lookup then
    answers. */
module MaxHeapRuns {
  import opened MaxHeap
  import opened MaxHeapMap
  import opened MaxHeapLookup

  /** The bucket that takes a pair with this key: the last one on its path, or the new child on its side
      when that one is full. */
  function Target(h: Heap, hash: Key -> Key, key: Key): (b: nat)
    requires Shaped(h)
    ensures b < NODE_LIMIT
  {
    var path := PathFrom(h.nodes, hash(key), 0);
    if path == [] || path[|path| - 1] >= 255 then 0 else
    var b := path[|path| - 1];
    var mean := h.nodes[b].min + (h.nodes[b].max - h.nodes[b].min) / 2;
    if h.slots[b] < BUCKET_SIZE then b else if hash(key) <= mean then 2 * b + 1 else 2 * b + 2
  }

  /** The slot that the pair goes to is cached, and holds another pair there. */
  predicate LeavesStale(h: Heap, c: Cache, hash: Key -> Key, p: Pair)
    requires Shaped(h) && CacheShaped(c)
  {
    var b := Target(h, hash, p.key);
    c.bucket == b && h.slots[b] < BUCKET_SIZE && c.pairs[h.slots[b]] != p
  }

  /** What an insertion does to slots and storage. */
  ghost predicate Stored(h: Heap, r: Heap, b: nat, p: Pair)
    requires Shaped(h) && Shaped(r) && b < NODE_LIMIT
  {
    && h.slots[b] < BUCKET_SIZE && r.slots == h.slots[b := h.slots[b] + 1]
    && r.store == h.store[b := h.store[b][h.slots[b] := p]]
  }

  lemma AppendStores(h: Heap, g: Heap, b: nat, p: Pair)
    requires Shaped(h) && Shaped(g) && g.slots == h.slots && g.store == h.store && b < NODE_LIMIT && h.slots[b] < BUCKET_SIZE
    ensures Append(g, b, p).1 && Stored(h, Append(g, b, p).0, b, p)
  {
  }

  predicate EndsIn(path: seq<nat>, b: nat) { path != [] && path[|path| - 1] == b }

  /** A successful insertion writes into the target, and a failed one writes into no bucket; the target
      is then the last bucket on the path of the key. */
  lemma InsertStores(h: Heap, hash: Key -> Key, p: Pair)
    requires Shaped(h) && HeapInvariant(h, hash) && Ranged(h.nodes)
    ensures var (r, ok) := InsertItem(h, hash, p);
            var b := Target(h, hash, p.key);
            && (!ok ==> r.slots == h.slots && r.store == h.store)
            && (ok ==> Stored(h, r, b, p) && (h.slots[b] == 0 || (r.nodes == h.nodes && EndsIn(PathFrom(h.nodes, hash(p.key), 0), b))))
  {
    hide HeapInvariant, Dyadic, Paired, Covers, ChildFor, PathFrom, Interval, PathExhausted, InsertItem, InsertAt, Append, Stored;
    var hashed := hash(p.key);
    var b := LastBucket(h, hash, p.key);
    InPlaceRange(h.nodes, b);
    PlacesFrom(h, hash, p, b);
    InsertsAtLast(h, hash, p, b);
    TargetIs(h, hash, p.key, b);
    if h.slots[b] < BUCKET_SIZE {
      AppendStores(h, h, b, p);
      AppendNodes(h, b, p);
    } else if b < 127 {
      SplitGoesToChild(h, hash, hashed, b);
      AppendStores(h, Grown(h, b), ChildFor(b, hashed), p);
    }
  }

  lemma AppendNodes(h: Heap, b: nat, p: Pair)
    requires Shaped(h) && b < NODE_LIMIT
    ensures Append(h, b, p).0.nodes == h.nodes
  {
  }

  lemma TargetIs(h: Heap, hash: Key -> Key, key: Key, b: nat)
    requires Shaped(h) && HeapInvariant(h, hash) && b < 255 && !Empty(h.nodes[b]) && Covers(b, hash(key))
    requires var path := PathFrom(h.nodes, hash(key), 0); path != [] && path[|path| - 1] == b
    ensures Target(h, hash, key) == if h.slots[b] < BUCKET_SIZE then b else ChildFor(b, hash(key))
  {
    assert InPlace(h.nodes, b);
    hide PathFrom, Interval, HeapInvariant;
  }

  /** The target of an insertion that succeeded is where the next search for the key begins. */
  lemma TargetIsLast(h: Heap, hash: Key -> Key, p: Pair)
    requires Shaped(h) && HeapInvariant(h, hash) && Ranged(h.nodes) && InsertItem(h, hash, p).1
    ensures var r := InsertItem(h, hash, p).0;
            var path := PathFrom(r.nodes, hash(p.key), 0);
            && EndsIn(path, Target(h, hash, p.key))
            && (forall k :: 0 <= k < |path| ==> path[k] < 255)
            && (forall k :: 0 <= k < |path| - 1 ==> path[k] < path[k + 1])
  {
    hide HeapInvariant, Dyadic, Paired, Covers, ChildFor, PathFrom, Interval, InsertItem, PathExhausted, Contents, Counted;
    var hashed := hash(p.key);
    var r := InsertItem(h, hash, p).0;
    InsertStores(h, hash, p);
    InsertionEffect(h, hash, p);
    SearchPathIsFull(r, hash, hashed);
    var path := PathFrom(r.nodes, hashed, 0);
    var t := Target(h, hash, p.key);
    hide Target;
    if h.slots[t] == 0 {
      assert r.store[t][0] == p && r.slots[t] == 1;
      var k := TargetOnPath(r, hash, p, t, 0);
    }
  }

  lemma TargetOnPath(r: Heap, hash: Key -> Key, p: Pair, b: nat, s: nat) returns (k: nat)
    requires Shaped(r) && HeapInvariant(r, hash) && b < NODE_LIMIT && s < r.slots[b] && s < BUCKET_SIZE && r.store[b][s] == p
    ensures var path := PathFrom(r.nodes, hash(p.key), 0); k < |path| && path[k] == b
  {
    assert BucketFits(r, hash, b);
    hide Covers, PathFrom, Paired;
    PathIsDescent(r.nodes, hash(p.key));
    hide HeapInvariant;
    k := OnPath(r.nodes, hash(p.key), b);
  }

  // ------------------------------------------------- the lookup that follows

  ghost predicate NotHeld(held: multiset<Pair>, key: Key) {
    forall q: Pair :: q in held ==> q.key != key
  }

  /** No used slot of the bucket has the key. */
  predicate Lacks(h: Heap, b: nat, key: Key)
    requires Shaped(h) && b < NODE_LIMIT
  {
    forall s :: 0 <= s < h.slots[b] && s < BUCKET_SIZE ==> h.store[b][s].key != key
  }

  lemma NotHeldLacks(h: Heap, key: Key, b: nat)
    requires Shaped(h) && Counted(h.slots, h.store) && NotHeld(Contents(h), key) && b < NODE_LIMIT
    ensures Lacks(h, b, key)
  {
    hide Contents, Counted;
    forall s | 0 <= s < h.slots[b] && s < BUCKET_SIZE ensures h.store[b][s].key != key {
      SlotIsHeld(h, b, s);
    }
  }

  lemma SlotIsHeld(h: Heap, b: nat, s: nat)
    requires Shaped(h) && Counted(h.slots, h.store) && b < NODE_LIMIT && s < h.slots[b] && s < BUCKET_SIZE
    ensures h.store[b][s] in Contents(h)
  {
    hide ContentsFrom;
    assert h.store[b][..h.slots[b]][s] == h.store[b][s];
    StoredIsContained(h, b, h.store[b][s], 0);
  }

  /** Loading leaves the heap as it is, whatever the cache holds, and reads what is stored. */
  lemma LoadReads(h: Heap, hash: Key -> Key, c: Cache, b: nat)
    requires HeapInvariant(h, hash) && CacheShaped(c) && b < NODE_LIMIT
    ensures h.slots[b] <= BUCKET_SIZE && Load(h, c, b).0 == h
    ensures c.bucket == b ==> Load(h, c, b).1 == c
    ensures c.bucket != b ==>
      var r := Load(h, c, b).1; r.bucket == b && forall s :: 0 <= s < h.slots[b] ==> r.pairs[s] == h.store[b][s]
  {
    assert BucketFits(h, hash, b);
    hide Dyadic, Paired, Covers;
    if c.bucket != b {
      var pairs := BucketRead(h, b, c.pairs);
      if h.slots[b] == 0 {
        assert pairs[0] == NoPair;
        assert h.slots[b := 0] == h.slots;
      }
    }
  }

  /** Buckets that lack the key, and are not the one cached, give nothing. */
  lemma {:induction false} SearchFindsNothing(h: Heap, hash: Key -> Key, c: Cache, path: seq<nat>, key: Key)
    requires HeapInvariant(h, hash) && Shaped(h) && Counted(h.slots, h.store) && CacheShaped(c)
    requires forall k :: 0 <= k < |path| ==> path[k] < NODE_LIMIT && path[k] != c.bucket && Lacks(h, path[k], key)
    requires forall k :: 0 <= k < |path| - 1 ==> path[k] < path[k + 1]
    ensures SearchPath(h, c, path, key).0 == None
    decreases |path|
  {
    hide HeapInvariant, Load;
    if path != [] {
      var rest, b := path[..|path| - 1], path[|path| - 1];
      LoadReads(h, hash, c, b);
      var c' := Load(h, c, b).1;
      assert Lacks(h, b, key);
      Increasing(path);
      SearchFindsNothing(h, hash, c', rest, key);
    }
  }

  lemma {:induction false} Increasing(path: seq<nat>)
    requires path != [] && forall k :: 0 <= k < |path| - 1 ==> path[k] < path[k + 1]
    ensures forall k :: 0 <= k < |path| - 1 ==> path[k] < path[|path| - 1]
    decreases |path|
  {
    if |path| > 1 {
      Increasing(path[..|path| - 1]);
    }
  }

  /** A search that begins in a bucket whose cached copy lacks the pair does not find it. */
  lemma SearchMisses(h: Heap, hash: Key -> Key, c: Cache, path: seq<nat>, p: Pair)
    requires HeapInvariant(h, hash) && Shaped(h) && Counted(h.slots, h.store) && CacheShaped(c)
    requires path != [] && path[|path| - 1] == c.bucket
    requires forall k :: 0 <= k < |path| ==> path[k] < NODE_LIMIT
    requires forall k :: 0 <= k < |path| - 1 ==> path[k] < path[k + 1] && Lacks(h, path[k], p.key)
    requires forall s :: 0 <= s < h.slots[c.bucket] ==> c.pairs[s] != p
    ensures SearchPath(h, c, path, p.key).0 != Some(p.value)
  {
    hide HeapInvariant, Load;
    var rest, b := path[..|path| - 1], path[|path| - 1];
    LoadReads(h, hash, c, b);
    Increasing(path);
    SearchFindsNothing(h, hash, c, rest, p.key);
  }

  lemma StoredCoherent(h: Heap, r: Heap, c: Cache, b: nat, p: Pair)
    requires Shaped(h) && Shaped(r) && CacheShaped(c) && Coherent(h, c) && b < NODE_LIMIT && Stored(h, r, b, p)
    ensures Coherent(r, c) <==> c.bucket != b || c.pairs[h.slots[b]] == p
    ensures c.bucket == b && c.pairs[h.slots[b]] != p && (forall s :: 0 <= s < h.slots[b] ==> h.store[b][s] != p) ==>
      forall s :: 0 <= s < r.slots[b] ==> c.pairs[s] != p
  {
    var n := h.slots[b];
    if c.bucket == b {
      assert c.pairs[..n + 1] == c.pairs[..n] + [c.pairs[n]];
      assert r.store[b][..n + 1] == h.store[b][..n] + [p];
      assert forall s :: 0 <= s < n ==> c.pairs[s] == c.pairs[..n][s] == h.store[b][..n][s];
      if c.pairs[n] != p {
        assert c.pairs[..n + 1][n] != r.store[b][..n + 1][n];
      }
    }
  }

  /** For any heap and any cache that is up to date: after the insertion of a pair whose key was not
      held, the next lookup of the key agrees with the pairs held exactly when the insertion left no
      stale slot in the cache. */
  lemma NextLookupAgrees(h: Heap, hash: Key -> Key, c: Cache, p: Pair)
    requires Shaped(h) && HeapInvariant(h, hash) && Counted(h.slots, h.store) && Ranged(h.nodes) && CacheShaped(c) && Coherent(h, c)
    requires NotHeld(Contents(h), p.key) && InsertItem(h, hash, p).1
    ensures var r := InsertItem(h, hash, p).0;
            && Shaped(r) && HeapInvariant(r, hash) && Counted(r.slots, r.store)
            && (Coherent(r, c) <==> !LeavesStale(h, c, hash, p))
            && (Agrees(Contents(r), p.key, p.key, GetNext(r, c, hash, p.key, p.key).0) <==> !LeavesStale(h, c, hash, p))
  {
    hide HeapInvariant, Contents, PathFrom, InsertItem, Counted, Coherent, GetNext, Target, PathExhausted, Agrees;
    var r := InsertItem(h, hash, p).0;
    InsertionEffect(h, hash, p);
    InsertStores(h, hash, p);
    var b := Target(h, hash, p.key);
    StoredCoherent(h, r, c, b, p);
    if LeavesStale(h, c, hash, p) {
      StaleLookup(h, r, hash, c, p);
    } else {
      GetNextAnswers(r, hash, c, p.key, p.key);
    }
  }

  lemma StaleLookup(h: Heap, r: Heap, hash: Key -> Key, c: Cache, p: Pair)
    requires Shaped(h) && HeapInvariant(h, hash) && Counted(h.slots, h.store) && Ranged(h.nodes) && CacheShaped(c) && Coherent(h, c)
    requires NotHeld(Contents(h), p.key) && InsertItem(h, hash, p) == (r, true)
    requires Shaped(r) && HeapInvariant(r, hash) && Counted(r.slots, r.store)
    requires Contents(r) == Contents(h) + multiset{p} && Stored(h, r, Target(h, hash, p.key), p)
    requires LeavesStale(h, c, hash, p)
    ensures !Agrees(Contents(r), p.key, p.key, GetNext(r, c, hash, p.key, p.key).0)
  {
    hide HeapInvariant, Contents, PathFrom, InsertItem, Coherent, Target, Counted;
    var b := Target(h, hash, p.key);
    var path := PathFrom(r.nodes, hash(p.key), 0);
    TargetIsLast(h, hash, p);
    forall d | 0 <= d < NODE_LIMIT ensures Lacks(h, d, p.key) {
      NotHeldLacks(h, p.key, d);
    }
    StoredCoherent(h, r, c, b, p);
    assert Lacks(h, b, p.key);
    Increasing(path);
    forall k | 0 <= k < |path| - 1 ensures Lacks(r, path[k], p.key) {
      assert Lacks(h, path[k], p.key);
    }
    assert r.slots[b] <= BUCKET_SIZE;
    SearchMisses(r, hash, c, path, p);
    PathBounds(r.nodes, hash(p.key), 0);
    assert GetNext(r, c, hash, p.key, p.key).0 == SearchPath(r, c, path, p.key).0;
    hide SearchPath, GetNext, Stored;
    NoOtherAnswer(Contents(h), p, SearchPath(r, c, path, p.key).0);
  }

  lemma NoOtherAnswer(held: multiset<Pair>, p: Pair, r: Option<Value>)
    requires NotHeld(held, p.key) && r != Some(p.value)
    ensures !Agrees(held + multiset{p}, p.key, p.key, r)
  {
    assert p in held + multiset{p};
  }

  // --------------------------------------------------- runs of both operations

  datatype Step = Insert(p: Pair) | Lookup(min: Key, max: Key)

  predicate Proper(s: Step) { s.Lookup? ==> s.min <= s.max }

  ghost predicate Good(h: Heap, c: Cache, hash: Key -> Key) {
    Shaped(h) && HeapInvariant(h, hash) && Counted(h.slots, h.store) && Ranged(h.nodes) && CacheShaped(c)
  }

  lemma {:induction false} SearchKeepsHeap(h: Heap, hash: Key -> Key, c: Cache, path: seq<nat>, key: Key)
    requires HeapInvariant(h, hash) && Shaped(h) && Counted(h.slots, h.store) && CacheShaped(c)
    requires forall k :: 0 <= k < |path| ==> path[k] < NODE_LIMIT
    ensures SearchPath(h, c, path, key).1 == h
    decreases |path|
  {
    hide HeapInvariant, Load;
    if path != [] {
      LoadReads(h, hash, c, path[|path| - 1]);
      SearchKeepsHeap(h, hash, Load(h, c, path[|path| - 1]).1, path[..|path| - 1], key);
    }
  }

  lemma {:induction false} LookupKeepsHeap(h: Heap, hash: Key -> Key, c: Cache, min: Key, max: Key)
    requires HeapInvariant(h, hash) && Shaped(h) && Counted(h.slots, h.store) && CacheShaped(c) && min <= max
    ensures GetNext(h, c, hash, min, max).1 == h
    decreases max - min
  {
    hide HeapInvariant, PathFrom, SearchPath;
    var path := PathFrom(h.nodes, hash(min), 0);
    PathBounds(h.nodes, hash(min), 0);
    SearchKeepsHeap(h, hash, c, path, min);
    var (found, h', c') := SearchPath(h, c, path, min);
    if found.None? && min < max {
      LookupKeepsHeap(h, hash, c', min + 1, max);
    }
  }

  ghost function Take(h: Heap, c: Cache, hash: Key -> Key, s: Step): (r: (Heap, Cache))
    requires Good(h, c, hash) && Proper(s)
    ensures Good(r.0, r.1, hash)
  {
    match s
    case Insert(p) =>
      InsertionEffect(h, hash, p);
      InvariantParts(InsertItem(h, hash, p).0, hash);
      (InsertItem(h, hash, p).0, c)
    case Lookup(min, max) =>
      LookupKeepsHeap(h, hash, c, min, max);
      var (_, h', c') := GetNext(h, c, hash, min, max);
      (h', c')
  }

  /** Whatever is looked up now, the answer agrees with the pairs held. */
  ghost predicate AnswersAll(h: Heap, c: Cache, hash: Key -> Key)
    requires Good(h, c, hash)
  {
    forall min: Key, max: Key :: min <= max ==> Agrees(Contents(h), min, max, GetNext(h, c, hash, min, max).0)
  }

  /** Lookups agree now and after every step of the run. */
  ghost predicate AlwaysAnswers(h: Heap, c: Cache, hash: Key -> Key, steps: seq<Step>)
    requires Good(h, c, hash) && forall i :: 0 <= i < |steps| ==> Proper(steps[i])
    decreases |steps|
  {
    AnswersAll(h, c, hash) &&
    (steps == [] || var (h', c') := Take(h, c, hash, steps[0]); AlwaysAnswers(h', c', hash, steps[1..]))
  }

  /** No insertion of the run that succeeds leaves a stale slot in the cache. */
  ghost predicate NeverStale(h: Heap, c: Cache, hash: Key -> Key, steps: seq<Step>)
    requires Good(h, c, hash) && forall i :: 0 <= i < |steps| ==> Proper(steps[i])
    decreases |steps|
  {
    steps == [] ||
    (&& (steps[0].Insert? && InsertItem(h, hash, steps[0].p).1 ==> !LeavesStale(h, c, hash, steps[0].p))
     && var (h', c') := Take(h, c, hash, steps[0]); NeverStale(h', c', hash, steps[1..]))
  }

  /** Every key that is inserted is a new one. */
  predicate NewKeys(keys: set<Key>, steps: seq<Step>)
    decreases |steps|
  {
    steps == [] ||
    match steps[0]
    case Insert(p) => p.key !in keys && NewKeys(keys + {p.key}, steps[1..])
    case Lookup(_, _) => NewKeys(keys, steps[1..])
  }

  /** In every run of insertions of new keys and lookups, in any order, on any heap and with any cache that
      is up to date: all lookups that could be made at any time agree with the pairs held exactly when
      no insertion goes to the cached bucket and finds another pair in its slot there. */
  lemma {:induction false} RunAnswers(h: Heap, c: Cache, hash: Key -> Key, keys: set<Key>, steps: seq<Step>)
    requires Good(h, c, hash) && Coherent(h, c) && forall i :: 0 <= i < |steps| ==> Proper(steps[i])
    requires NewKeys(keys, steps) && forall q :: q in Contents(h) ==> q.key in keys
    ensures AlwaysAnswers(h, c, hash, steps) <==> NeverStale(h, c, hash, steps)
    decreases |steps|
  {
    hide Good, Coherent, Contents, Agrees, AnswersAll, LeavesStale, InsertItem;
    GoodParts(h, c, hash);
    CoherentAnswers(h, c, hash);
    if steps != [] {
      var (h', c') := Take(h, c, hash, steps[0]);
      GoodParts(h', c', hash);
      match steps[0] {
        case Insert(p) =>
          InsertStep(h, c, hash, p, keys);
          if Coherent(h', c') {
            RunAnswers(h', c', hash, keys + {p.key}, steps[1..]);
          }
        case Lookup(min, max) =>
          LookupKeepsHeap(h, hash, c, min, max);
          GetNextAnswers(h, hash, c, min, max);
          RunAnswers(h', c', hash, keys, steps[1..]);
      }
    }
  }

  lemma GoodParts(h: Heap, c: Cache, hash: Key -> Key)
    requires Good(h, c, hash)
    ensures Shaped(h) && HeapInvariant(h, hash) && Counted(h.slots, h.store) && Ranged(h.nodes) && CacheShaped(c)
  {
  }

  lemma CoherentAnswers(h: Heap, c: Cache, hash: Key -> Key)
    requires Good(h, c, hash) && Coherent(h, c)
    ensures AnswersAll(h, c, hash)
  {
    hide HeapInvariant, Contents, Agrees, Coherent, GetNext;
    forall min: Key, max: Key | min <= max
      ensures Agrees(Contents(h), min, max, GetNext(h, c, hash, min, max).0)
    {
      GetNextAnswers(h, hash, c, min, max);
    }
  }

  /** One insertion: the cache stays up to date exactly when it leaves no stale slot, and otherwise not
      all lookups agree. */
  lemma InsertStep(h: Heap, c: Cache, hash: Key -> Key, p: Pair, keys: set<Key>)
    requires Good(h, c, hash) && Coherent(h, c)
    requires p.key !in keys && forall q :: q in Contents(h) ==> q.key in keys
    ensures var (r, ok) := InsertItem(h, hash, p);
            && Good(r, c, hash)
            && (Coherent(r, c) <==> !(ok && LeavesStale(h, c, hash, p)))
            && (!Coherent(r, c) ==> !AnswersAll(r, c, hash))
            && forall q :: q in Contents(r) ==> q.key in keys + {p.key}
  {
    hide HeapInvariant, Contents, InsertItem, Agrees, LeavesStale, PathExhausted, GetNext;
    var (r, ok) := InsertItem(h, hash, p);
    InsertionEffect(h, hash, p);
    InvariantParts(r, hash);
    if ok {
      assert NotHeld(Contents(h), p.key);
      hide Coherent;
      NextLookupAgrees(h, hash, c, p);
    } else {
      InsertStores(h, hash, p);
    }
  }

  /** The same from a fresh index with a free cache on. */
  lemma FreshRunAnswers(hash: Key -> Key, buffer: seq<Pair>, steps: seq<Step>)
    requires |buffer| == BUCKET_SIZE && NewKeys({}, steps) && forall i :: 0 <= i < |steps| ==> Proper(steps[i])
    ensures Good(Create(), Cache(-1, buffer), hash)
    ensures AlwaysAnswers(Create(), Cache(-1, buffer), hash, steps)
            <==> NeverStale(Create(), Cache(-1, buffer), hash, steps)
  {
    hide Create, HeapInvariant, Contents, AlwaysAnswers, NeverStale, NewKeys;
    FreshInvariant(hash);
    InvariantParts(Create(), hash);
    RunAnswers(Create(), Cache(-1, buffer), hash, {}, steps);
  }
}
