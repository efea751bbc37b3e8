/** Lookups in the MaxHeap index through the cache of one bucket: they agree with the collection of
    inserted pairs for as long as the cached bucket is the stored one. */
module MaxHeapLookup {
  import opened MaxHeap
  import opened MaxHeapMap

  /** The bucket cache; `bucket` is -1 while it is free. Loading a bucket overwrites only as many
      pairs as are read. */
  datatype Cache = Cache(bucket: int, pairs: seq<Pair>)

  predicate CacheShaped(c: Cache) { -1 <= c.bucket < NODE_LIMIT && |c.pairs| == BUCKET_SIZE }

  // ------------------------------------------------------------- operations

  function FirstEmptyPair(pairs: seq<Pair>, i: nat): (r: nat)
    requires i <= |pairs|
    ensures i <= r <= |pairs|
    decreases |pairs| - i
  {
    if i == |pairs| || pairs[i] == NoPair then i else FirstEmptyPair(pairs, i + 1)
  }

  /** bucket_read: the used slots, or the whole bucket when none is known to be used. */
  function BucketRead(h: Heap, b: nat, buffer: seq<Pair>): (r: seq<Pair>)
    requires Shaped(h) && b < NODE_LIMIT && h.slots[b] <= BUCKET_SIZE && |buffer| == BUCKET_SIZE
    ensures |r| == BUCKET_SIZE
  {
    var n := if h.slots[b] == 0 then BUCKET_SIZE else h.slots[b];
    h.store[b][..n] + buffer[n..]
  }

  /** bucket_load, which also recounts a bucket not known to hold anything. */
  function Load(h: Heap, c: Cache, b: nat): (r: (Heap, Cache))
    requires Shaped(h) && CacheShaped(c) && b < NODE_LIMIT && h.slots[b] <= BUCKET_SIZE
    ensures Shaped(r.0) && CacheShaped(r.1) && r.0.slots[b] <= BUCKET_SIZE
  {
    if c.bucket == b then (h, c) else
    var pairs := BucketRead(h, b, c.pairs);
    (if h.slots[b] == 0 then h.(slots := h.slots[b := FirstEmptyPair(pairs, 0)]) else h, Cache(b, pairs))
  }

  lemma {:induction false} FirstEmptyIs(pairs: seq<Pair>, i: nat, n: nat)
    requires i <= n <= |pairs| && (forall s :: i <= s < n ==> pairs[s] != NoPair) && (n < |pairs| ==> pairs[n] == NoPair)
    ensures FirstEmptyPair(pairs, i) == n
    decreases n - i
  {
    if i < n {
      FirstEmptyIs(pairs, i + 1, n);
    }
  }

  /** A bucket of an index that was opened again, where no slot is known to be used: the first load reads all of it, and
      finds again how many pairs are stored in front of the empty slots exactly when none of them is the
      pair that marks an empty slot. */
  lemma RecountsStored(h: Heap, c: Cache, b: nat, n: nat)
    requires Shaped(h) && CacheShaped(c) && b < NODE_LIMIT && c.bucket != b && h.slots[b] == 0 && n <= BUCKET_SIZE
    requires forall s :: n <= s < BUCKET_SIZE ==> h.store[b][s] == Pair(0, 0)
    ensures var (g, d) := Load(h, c, b);
            && d == Cache(b, h.store[b]) && g.nodes == h.nodes && g.store == h.store
            && (g.slots[b] == n <==> forall s :: 0 <= s < n ==> h.store[b][s] != Pair(0, 0))
  {
    var pairs := BucketRead(h, b, c.pairs);
    assert pairs == h.store[b];
    var k := FirstEmptyPair(pairs, 0);
    if forall s :: 0 <= s < n ==> h.store[b][s] != Pair(0, 0) {
      FirstEmptyIs(pairs, 0, n);
    } else if k == n {
      var s :| 0 <= s < n && h.store[b][s] == Pair(0, 0);
      EmptyStops(pairs, 0, s);
    }
  }

  lemma {:induction false} EmptyStops(pairs: seq<Pair>, i: nat, s: nat)
    requires i <= s < |pairs| && pairs[s] == NoPair
    ensures FirstEmptyPair(pairs, i) <= s
    decreases s - i
  {
    if pairs[i] != NoPair {
      EmptyStops(pairs, i + 1, s);
    }
  }

  /** The value of the first pair with the key among the first `n`. */
  function Scan(pairs: seq<Pair>, n: nat, key: Key, i: nat): (r: Option<Value>)
    requires n <= |pairs|
    ensures r.Some? ==> exists s :: i <= s < n && pairs[s] == Pair(key, r.value)
    ensures r.None? ==> forall s :: i <= s < n ==> pairs[s].key != key
    decreases n - i
  {
    if i >= n then None
    else if pairs[i].key == key then Some(pairs[i].value)
    else Scan(pairs, n, key, i + 1)
  }

  /** The buckets of a path searched from its end. */
  function SearchPath(h: Heap, c: Cache, path: seq<nat>, key: Key): (r: (Option<Value>, Heap, Cache))
    requires Counted(h.slots, h.store) && Shaped(h) && CacheShaped(c)
    requires forall k :: 0 <= k < |path| ==> path[k] < NODE_LIMIT
    ensures Counted(r.1.slots, r.1.store) && Shaped(r.1) && CacheShaped(r.2)
    decreases |path|
  {
    if path == [] then (None, h, c) else
    var b := path[|path| - 1];
    var (h', c') := Load(h, c, b);
    var found := Scan(c'.pairs, h'.slots[b], key, 0);
    if found.Some? then (found, h', c') else SearchPath(h', c', path[..|path| - 1], key)
  }

  /** The first get_next of an iteration over the keys from `min` to `max`. */
  function GetNext(h: Heap, c: Cache, hash: Key -> Key, min: Key, max: Key): (r: (Option<Value>, Heap, Cache))
    requires Counted(h.slots, h.store) && Shaped(h) && CacheShaped(c) && min <= max
    ensures Counted(r.1.slots, r.1.store) && Shaped(r.1) && CacheShaped(r.2)
    decreases max - min
  {
    var path := PathFrom(h.nodes, hash(min), 0);
    PathBounds(h.nodes, hash(min), 0);
    var (found, h', c') := SearchPath(h, c, path, min);
    if found.Some? || min == max then (found, h', c') else GetNext(h', c', hash, min + 1, max)
  }

  lemma {:induction false} PathBounds(nodes: seq<Node>, hashed: Key, i: nat)
    requires |nodes| == NODE_LIMIT
    ensures forall k :: 0 <= k < |PathFrom(nodes, hashed, i)| ==> PathFrom(nodes, hashed, i)[k] < NODE_LIMIT
    decreases NODE_LIMIT - i
  {
    var f := FindFrom(nodes, hashed, i);
    if f.Some? {
      PathBounds(nodes, hashed, 2 * f.value + 1);
    }
  }

  // -------------------------------------------------------------- coherence

  /** The used part of the cached bucket is the stored one. */
  ghost predicate Coherent(h: Heap, c: Cache)
    requires Shaped(h)
  {
    CacheShaped(c) && (c.bucket >= 0 ==>
      h.slots[c.bucket] <= BUCKET_SIZE && c.pairs[..h.slots[c.bucket]] == h.store[c.bucket][..h.slots[c.bucket]])
  }

  lemma LoadIsCoherent(h: Heap, hash: Key -> Key, c: Cache, b: nat)
    requires HeapInvariant(h, hash) && Coherent(h, c) && b < NODE_LIMIT
    ensures h.slots[b] <= BUCKET_SIZE
    ensures Load(h, c, b).0 == h && Coherent(h, Load(h, c, b).1) && Load(h, c, b).1.bucket == b
  {
    assert BucketFits(h, hash, b);
    hide Dyadic, Paired, Covers;
    if c.bucket != b {
      var pairs := BucketRead(h, b, c.pairs);
      if h.slots[b] == 0 {
        assert pairs[0] == NoPair;
        assert h.slots[b := 0] == h.slots;
      }
      assert pairs[..h.slots[b]] == h.store[b][..h.slots[b]];
    }
  }

  /** Some used slot of the path has the pair. */
  ghost predicate HeldOn(h: Heap, path: seq<nat>, p: Pair)
    requires Counted(h.slots, h.store)
  {
    exists k :: 0 <= k < |path| && path[k] < NODE_LIMIT && p in h.store[path[k]][..h.slots[path[k]]]
  }

  ghost predicate Answers(h: Heap, path: seq<nat>, key: Key, r: Option<Value>)
    requires Counted(h.slots, h.store)
  {
    if r.Some? then HeldOn(h, path, Pair(key, r.value))
    else forall p: Pair :: p.key == key ==> !HeldOn(h, path, p)
  }

  lemma {:induction false} SearchAnswers(h: Heap, hash: Key -> Key, c: Cache, path: seq<nat>, key: Key)
    requires Shaped(h) && HeapInvariant(h, hash) && Coherent(h, c) && Counted(h.slots, h.store)
    requires forall k :: 0 <= k < |path| ==> path[k] < NODE_LIMIT
    ensures var (r, h', c') := SearchPath(h, c, path, key);
            h' == h && Coherent(h, c') && Answers(h, path, key, r)
    decreases |path|
  {
    hide HeapInvariant;
    if path != [] {
      var rest, b := path[..|path| - 1], path[|path| - 1];
      LoadIsCoherent(h, hash, c, b);
      var c' := Load(h, c, b).1;
      SearchAnswers(h, hash, c', rest, key);
      hide Load;
      AnswersStep(h, c', path, key);
    }
  }

  lemma AnswersStep(h: Heap, c: Cache, path: seq<nat>, key: Key)
    requires Shaped(h) && Coherent(h, c) && Counted(h.slots, h.store) && path != []
    requires c.bucket == path[|path| - 1] < NODE_LIMIT
    ensures var found := Scan(c.pairs, h.slots[c.bucket], key, 0);
            && (found.Some? ==> Answers(h, path, key, found))
            && (found.None? ==>
                  forall r :: Answers(h, path[..|path| - 1], key, r) ==> Answers(h, path, key, r))
  {
    var rest, b := path[..|path| - 1], path[|path| - 1];
    var n := h.slots[b];
    var found := Scan(c.pairs, n, key, 0);
    assert c.pairs[..n] == h.store[b][..n];
    if found.Some? {
      var s :| 0 <= s < n && c.pairs[s] == Pair(key, found.value);
      assert c.pairs[..n][s] == Pair(key, found.value);
      assert HeldOn(h, path, Pair(key, found.value));
    } else {
      forall p: Pair | p.key == key ensures HeldOn(h, path, p) <==> HeldOn(h, rest, p) {
        assert p !in c.pairs[..n];
        if HeldOn(h, rest, p) {
          var k :| 0 <= k < |rest| && rest[k] < NODE_LIMIT && p in h.store[rest[k]][..h.slots[rest[k]]];
          assert path[k] == rest[k];
        }
        if HeldOn(h, path, p) {
          var k :| 0 <= k < |path| && path[k] < NODE_LIMIT && p in h.store[path[k]][..h.slots[path[k]]];
          assert rest[k] == path[k];
        }
      }
    }
  }

  // ---------------------------------------------------- agreement with pairs

  lemma {:induction false} ContainedIsStored(h: Heap, p: Pair, i: nat) returns (b: nat)
    requires Counted(h.slots, h.store) && i <= NODE_LIMIT && p in ContentsFrom(h.slots, h.store, i)
    ensures b < NODE_LIMIT && p in h.store[b][..h.slots[b]]
    decreases NODE_LIMIT - i
  {
    if p in h.store[i][..h.slots[i]] {
      b := i;
    } else {
      b := ContainedIsStored(h, p, i + 1);
    }
  }

  lemma {:induction false} StoredIsContained(h: Heap, b: nat, p: Pair, i: nat)
    requires Counted(h.slots, h.store) && i <= b < NODE_LIMIT && p in h.store[b][..h.slots[b]]
    ensures p in ContentsFrom(h.slots, h.store, i)
    decreases NODE_LIMIT - i
  {
    if i < b {
      StoredIsContained(h, b, p, i + 1);
    }
  }

  lemma StoredOnPath(h: Heap, hash: Key -> Key, p: Pair, b: nat)
    requires HeapInvariant(h, hash) && Counted(h.slots, h.store)
    requires b < NODE_LIMIT && p in h.store[b][..h.slots[b]]
    ensures HeldOn(h, PathFrom(h.nodes, hash(p.key), 0), p)
  {
    assert BucketFits(h, hash, b);
    var s :| 0 <= s < h.slots[b] && h.store[b][..h.slots[b]][s] == p;
    assert h.store[b][s] == p;
    hide Covers, PathFrom;
    PathIsDescent(h.nodes, hash(p.key));
    hide HeapInvariant, Paired;
    var k := OnPath(h.nodes, hash(p.key), b);
  }

  /** The pairs a search can meet are all the stored pairs with the key. */
  lemma PathHoldsKey(h: Heap, hash: Key -> Key, p: Pair)
    requires HeapInvariant(h, hash) && Shaped(h) && Counted(h.slots, h.store)
    ensures p in Contents(h) <==> HeldOn(h, PathFrom(h.nodes, hash(p.key), 0), p)
  {
    hide HeapInvariant, PathFrom, ContentsFrom;
    var path := PathFrom(h.nodes, hash(p.key), 0);
    if p in Contents(h) {
      var b := ContainedIsStored(h, p, 0);
      StoredOnPath(h, hash, p, b);
    }
    if HeldOn(h, path, p) {
      var k :| 0 <= k < |path| && path[k] < NODE_LIMIT && p in h.store[path[k]][..h.slots[path[k]]];
      StoredIsContained(h, path[k], p, 0);
    }
  }

  /** A value held under the least key from `min` to `max` that has one, or nothing when none has. */
  ghost predicate Agrees(held: multiset<Pair>, min: Key, max: Key, r: Option<Value>) {
    if r.None? then forall p :: p in held ==> !(min <= p.key <= max)
    else exists k: Key :: min <= k <= max && Pair(k, r.value) in held
                         && forall p :: p in held ==> !(min <= p.key < k)
  }

  lemma KeyAnswer(h: Heap, hash: Key -> Key, c: Cache, key: Key)
    requires HeapInvariant(h, hash) && Shaped(h) && Counted(h.slots, h.store) && Coherent(h, c)
    ensures var path := PathFrom(h.nodes, hash(key), 0);
            && (forall k :: 0 <= k < |path| ==> path[k] < NODE_LIMIT)
            && var (r, h', c') := SearchPath(h, c, path, key);
               h' == h && Coherent(h, c') && Agrees(Contents(h), key, key, r)
  {
    var path := PathFrom(h.nodes, hash(key), 0);
    hide HeapInvariant, PathFrom, Contents, SearchPath, Shaped, Counted;
    assert CacheShaped(c);
    hide Coherent;
    PathBounds(h.nodes, hash(key), 0);
    SearchAnswers(h, hash, c, path, key);
    var r := SearchPath(h, c, path, key).0;
    forall p: Pair | p.key == key ensures p in Contents(h) <==> HeldOn(h, path, p) {
      PathHoldsKey(h, hash, p);
    }
    hide HeldOn;
    if r.Some? {
      assert Pair(key, r.value) in Contents(h);
    }
  }

  /** The first get_next of any iteration answers from the stored pairs, and leaves the heap as it
      is and the cache coherent. */
  lemma {:induction false} GetNextAnswers(h: Heap, hash: Key -> Key, c: Cache, min: Key, max: Key)
    requires HeapInvariant(h, hash) && Shaped(h) && Counted(h.slots, h.store)
    requires CacheShaped(c) && Coherent(h, c) && min <= max
    ensures var (r, h', c') := GetNext(h, c, hash, min, max);
            h' == h && Coherent(h, c') && Agrees(Contents(h), min, max, r)
    decreases max - min
  {
    hide HeapInvariant, Contents, PathFrom, Coherent, SearchPath, CacheShaped, Agrees;
    KeyAnswer(h, hash, c, min);
    var path := PathFrom(h.nodes, hash(min), 0);
    var (found, h', c') := SearchPath(h, c, path, min);
    if found.None? && min < max {
      GetNextAnswers(h, hash, c', min + 1, max);
    }
    AgreesNext(Contents(h), min, max, found, GetNext(h, c, hash, min, max).0);
  }

  lemma AgreesNext(held: multiset<Pair>, min: Key, max: Key, found: Option<Value>, r: Option<Value>)
    requires Agrees(held, min, min, found) && min <= max
    requires found.Some? || min == max ==> r == found
    requires found.None? && min < max ==> Agrees(held, min + 1, max, r)
    ensures Agrees(held, min, max, r)
  {
  }

  /** Looking up one range after another. */
  function Lookups(h: Heap, c: Cache, hash: Key -> Key, ranges: seq<(Key, Key)>): (r: seq<Option<Value>>)
    requires Counted(h.slots, h.store) && Shaped(h) && CacheShaped(c)
    requires forall i :: 0 <= i < |ranges| ==> ranges[i].0 <= ranges[i].1
    ensures |r| == |ranges|
    decreases |ranges|
  {
    if ranges == [] then [] else
    var (found, h', c') := GetNext(h, c, hash, ranges[0].0, ranges[0].1);
    [found] + Lookups(h', c', hash, ranges[1..])
  }

  lemma {:induction false} LookupsAgree(h: Heap, hash: Key -> Key, c: Cache, ranges: seq<(Key, Key)>)
    requires HeapInvariant(h, hash) && Shaped(h) && Counted(h.slots, h.store) && CacheShaped(c) && Coherent(h, c)
    requires forall i :: 0 <= i < |ranges| ==> ranges[i].0 <= ranges[i].1
    ensures forall i :: 0 <= i < |ranges| ==>
      Agrees(Contents(h), ranges[i].0, ranges[i].1, Lookups(h, c, hash, ranges)[i])
    decreases |ranges|
  {
    hide HeapInvariant, Contents, Coherent, Counted, Agrees, GetNext, Shaped, CacheShaped;
    if ranges != [] {
      GetNextAnswers(h, hash, c, ranges[0].0, ranges[0].1);
      var (found, h', c') := GetNext(h, c, hash, ranges[0].0, ranges[0].1);
      var tail := ranges[1..];
      assert forall i :: 0 <= i < |tail| ==> tail[i] == ranges[i + 1];
      LookupsAgree(h, hash, c', tail);
      var rest := Lookups(h, c', hash, tail);
      assert Lookups(h, c, hash, ranges) == [found] + rest;
      hide Lookups;
      forall i | 0 <= i < |ranges|
        ensures Agrees(Contents(h), ranges[i].0, ranges[i].1, Lookups(h, c, hash, ranges)[i])
      {
        if i > 0 {
          assert Agrees(Contents(h), tail[i - 1].0, tail[i - 1].1, rest[i - 1]);
        }
      }
    }
  }

  /** After any insertions into a fresh index, with a free cache, every lookup that follows answers
      from the pairs whose insertion succeeded; up to 1024 insertions, these are all of them. */
  lemma {:induction false} IndexAgreesWithMap(hash: Key -> Key, ps: seq<Pair>, buffer: seq<Pair>, ranges: seq<(Key, Key)>)
    requires |buffer| == BUCKET_SIZE
    requires forall i :: 0 <= i < |ranges| ==> ranges[i].0 <= ranges[i].1
    ensures HeapInvariant(Create(), hash)
    ensures var (h, accepted) := InsertAll(Create(), hash, ps);
            && Shaped(h) && Counted(h.slots, h.store) && Contents(h) == multiset(accepted)
            && (|ps| <= 1024 ==> accepted == ps)
            && forall i :: 0 <= i < |ranges| ==>
                 Agrees(multiset(accepted), ranges[i].0, ranges[i].1, Lookups(h, Cache(-1, buffer), hash, ranges)[i])
  {
    hide Create, HeapInvariant, Contents, InsertAll, Counted, Shaped, Agrees, Lookups;
    FreshInvariant(hash);
    InsertAllAdds(Create(), hash, ps);
    var (h, accepted) := InsertAll(Create(), hash, ps);
    InvariantParts(h, hash);
    LookupsAgree(h, hash, Cache(-1, buffer), ranges);
  }

  // ------------------------------------------------------------ stale cache

  /** An append leaves the cache coherent exactly when it goes to another bucket, or when the cached
      buffer happens to have the same pair in that slot. */
  lemma AppendKeepsCoherence(h: Heap, c: Cache, b: nat, p: Pair)
    requires Shaped(h) && CacheShaped(c) && Coherent(h, c) && b < NODE_LIMIT && h.slots[b] < BUCKET_SIZE
    ensures Coherent(Append(h, b, p).0, c) <==> c.bucket != b || c.pairs[h.slots[b]] == p
  {
    var r := Append(h, b, p).0;
    var n := h.slots[b];
    if c.bucket == b {
      assert c.pairs[..n + 1] == c.pairs[..n] + [c.pairs[n]];
      assert r.store[b][..n + 1] == h.store[b][..n] + [p];
      if c.pairs[n] != p {
        assert c.pairs[..n + 1][n] != r.store[b][..n + 1][n];
      }
    }
  }

  /** A fresh tree has the root alone on every path. */
  lemma RootOnly(nodes: seq<Node>, hashed: Key)
    requires |nodes| == NODE_LIMIT && nodes[0] == Node(0, KEY_MAX) && nodes[1] == NoNode
    ensures PathFrom(nodes, hashed, 0) == [0]
  {
    assert FindFrom(nodes, hashed, 0) == Some(0);
    assert FindFrom(nodes, hashed, 1) == None;
    assert PathFrom(nodes, hashed, 1) == [];
  }

  lemma RootAppend(h: Heap, hash: Key -> Key, p: Pair)
    requires Shaped(h) && Ranged(h.nodes) && h.slots[0] < BUCKET_SIZE
    requires h.nodes[0] == Node(0, KEY_MAX) && h.nodes[1] == NoNode
    ensures InsertItem(h, hash, p) == Append(h, 0, p)
  {
    RootOnly(h.nodes, hash(p.key));
    hide Ranged, PathFrom;
    assert h.nodes[0].min <= h.nodes[0].max;
  }

  /** A heap with nothing but a root that has room. */
  predicate RootHolds(h: Heap, n: nat) {
    && Shaped(h) && Counted(h.slots, h.store) && Ranged(h.nodes)
    && h.slots[0] == n < BUCKET_SIZE && h.nodes[0] == Node(0, KEY_MAX) && h.nodes[1] == NoNode
  }

  /** A lookup between two insertions spoils the next: the pair inserted last is held, and its key
      is not found in the cached bucket. */
  lemma StaleCacheMisses(h: Heap, hash: Key -> Key, first: Pair, second: Pair, buffer: seq<Pair>)
    requires |buffer| == BUCKET_SIZE && RootHolds(h, 0)
    requires second.key != first.key && second.key != buffer[1].key
    ensures var (h1, ok1) := InsertItem(h, hash, first);
            ok1 && RootHolds(h1, 1) &&
            var (found, h2, c) := GetNext(h1, Cache(-1, buffer), hash, first.key, first.key);
            found == Some(first.value) && h2 == h1 &&
            var (h3, ok2) := InsertItem(h2, hash, second);
            && ok2 && RootHolds(h3, 2) && second in h3.store[0][..2]
            && GetNext(h3, c, hash, second.key, second.key).0 == None
  {
    RootAppend(h, hash, first);
    hide InsertItem;
    var h1 := Append(h, 0, first).0;
    assert RootHolds(h1, 1) && h1.store[0][0] == first;
    var c := Cache(0, BucketRead(h1, 0, buffer));
    assert c.pairs[0] == first && c.pairs[1] == buffer[1];
    RootOnly(h1.nodes, hash(first.key));
    hide PathFrom;
    RootSearch(h1, Cache(-1, buffer), first.key);
    ScanTwo(c.pairs, 1, first.key);
    RootAppend(h1, hash, second);
    var h3 := Append(h1, 0, second).0;
    assert RootHolds(h3, 2) && h3.store[0][..2][1] == second;
    RootOnly(h3.nodes, hash(second.key));
    RootSearch(h3, c, second.key);
    ScanTwo(c.pairs, 2, second.key);
  }

  lemma RootSearch(h: Heap, c: Cache, key: Key)
    requires Shaped(h) && RootHolds(h, h.slots[0]) && h.slots[0] > 0 && CacheShaped(c) && (c.bucket == -1 || c.bucket == 0)
    ensures var c' := if c.bucket == 0 then c else Cache(0, BucketRead(h, 0, c.pairs));
            SearchPath(h, c, [0], key) == (Scan(c'.pairs, h.slots[0], key, 0), h, c')
  {
    var c' := if c.bucket == 0 then c else Cache(0, BucketRead(h, 0, c.pairs));
    assert Load(h, c, 0) == (h, c');
    hide Load, Scan, BucketRead;
    assert [0][..0] == [];
    assert SearchPath(h, c', [], key) == (None, h, c');
  }

  lemma ScanTwo(pairs: seq<Pair>, n: nat, key: Key)
    requires n <= 2 <= |pairs|
    ensures Scan(pairs, n, key, 0) ==
      if n > 0 && pairs[0].key == key then Some(pairs[0].value)
      else if n > 1 && pairs[1].key == key then Some(pairs[1].value)
      else None
  {
  }
}
