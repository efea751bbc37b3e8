/** The MaxHeap index as it works in place: the heap file, the bucket file, the slot counters and
    the bucket cache. Every method is proved to do what its specification function says. */
module MaxHeapIndex {
  import opened MaxHeap
  import opened MaxHeapMap
  import opened MaxHeapLookup

  class Index {
    const hash: Key -> Key
    const nodes: array<Node>
    const slots: array<nat>
    const store: array<seq<Pair>>
    const cached: array<Pair>
    var cachedBucket: int

    ghost predicate Valid()
      reads this, nodes, slots, store, cached
    {
      Shaped(View()) && CacheShaped(CacheView())
    }

    function View(): Heap
      reads nodes, slots, store
    {
      Heap(nodes[..], slots[..], store[..])
    }

    function CacheView(): Cache
      reads this, cached
    {
      Cache(cachedBucket, cached[..])
    }

    constructor (hash: Key -> Key)
      ensures Valid() && this.hash == hash && View() == Create() && CacheView().bucket == -1
      ensures fresh(nodes) && fresh(slots) && fresh(store) && fresh(cached)
    {
      this.hash := hash;
      nodes := new Node[NODE_LIMIT](_ => NoNode);
      slots := new nat[NODE_LIMIT](_ => 0);
      store := new seq<Pair>[NODE_LIMIT](_ => seq(BUCKET_SIZE, _ => NoPair));
      cached := new Pair[BUCKET_SIZE](_ => NoPair);
      cachedBucket := -1;
      new;
      nodes[0] := Node(0, KEY_MAX);
      assert nodes[..] == Create().nodes && slots[..] == Create().slots && store[..] == Create().store;
    }

    method HeapInsertRange(min: Key, max: Key) returns (i: int)
      requires nodes.Length == NODE_LIMIT
      modifies nodes
      ensures var r := HeapInsert(old(nodes[..]), min, max);
              if r.None? then i == -1 && nodes[..] == old(nodes[..])
              else i == InsertFrom(old(nodes[..]), 0, min, max) && nodes[..] == r.value
    {
      if min > max {
        return -1;
      }
      i := 0;
      while i < NODE_LIMIT
        invariant 0 <= i && nodes[..] == old(nodes[..])
        invariant InsertFrom(nodes[..], 0, min, max) == InsertFrom(nodes[..], i, min, max)
        decreases NODE_LIMIT - i
      {
        var node := nodes[i];
        assert node == nodes[..][i];
        if Empty(node) {
          nodes[i] := Node(min, max);
          assert nodes[..] == old(nodes[..])[i := Node(min, max)];
          return;
        } else if node.min <= min && max <= node.max {
          i := 2 * i + 1;
        } else {
          i := i + 1;
        }
      }
      i := -1;
    }

    method HeapFind(hashed: Key, iterator_: nat) returns (i: int, next: nat)
      requires nodes.Length == NODE_LIMIT
      ensures var f := FindFrom(nodes[..], hashed, iterator_);
              if f.None? then i == -1 && next == iterator_ else i == f.value && next == 2 * f.value + 1
    {
      i, next := iterator_, iterator_;
      while i < NODE_LIMIT
        invariant iterator_ <= i && next == iterator_
        invariant FindFrom(nodes[..], hashed, iterator_) == FindFrom(nodes[..], hashed, i)
        decreases NODE_LIMIT - i
      {
        var node := nodes[i];
        assert node == nodes[..][i];
        if Empty(node) {
          break;
        } else if node.min <= hashed && hashed <= node.max {
          var firstChild := 2 * i + 1;
          if firstChild >= NODE_LIMIT {
            break;
          }
          return i, firstChild;
        } else {
          i := i + 1;
        }
      }
      assert FindFrom(nodes[..], hashed, i) == None;
      i := -1;
    }

    method BucketSplit(b: nat) returns (ok: bool)
      requires nodes.Length == NODE_LIMIT && b < NODE_LIMIT && nodes[b].min <= nodes[b].max
      modifies nodes
      ensures (nodes[..], ok) == Split(old(nodes[..]), b)
    {
      hide InsertFrom, HeapInsert;
      var node := nodes[b];
      assert node == nodes[..][b];
      var mean := node.min + (node.max - node.min) / 2;
      var small := HeapInsertRange(node.min, mean);
      if small < 0 {
        return false;
      }
      var large := HeapInsertRange((mean + 1) % (KEY_MAX + 1), node.max);
      return large >= 0;
    }

    method BucketAppend(b: nat, p: Pair) returns (ok: bool)
      requires Valid() && b < NODE_LIMIT
      modifies slots, store
      ensures Valid() && (View(), ok) == Append(old(View()), b, p)
    {
      if slots[b] >= BUCKET_SIZE {
        return false;
      }
      store[b] := store[b][slots[b] := p];
      slots[b] := slots[b] + 1;
      assert store[..] == old(store[..])[b := old(store[b])[old(slots[b]) := p]];
      assert slots[..] == old(slots[..])[b := old(slots[b]) + 1];
      return true;
    }

    /** The search of insert_item for the last bucket that can be found. */
    method FindLast(hashed: Key) returns (last: int, heapIterator: nat)
      requires nodes.Length == NODE_LIMIT
      ensures last == LastFrom(nodes[..], hashed, 0, -1) && -1 <= last < NODE_LIMIT
      ensures heapIterator == if last < 0 then 0 else 2 * last + 1
    {
      hide FindFrom;
      heapIterator, last := 0, -1;
      var i, next := HeapFind(hashed, heapIterator);
      while i >= 0
        invariant -1 <= last < NODE_LIMIT
        invariant var f := FindFrom(nodes[..], hashed, heapIterator);
                  if f.None? then i == -1 && next == heapIterator
                  else i == f.value < NODE_LIMIT && next == 2 * i + 1 && heapIterator <= i
        invariant heapIterator == if last < 0 then 0 else 2 * last + 1
        invariant LastFrom(nodes[..], hashed, 0, -1) == LastFrom(nodes[..], hashed, heapIterator, last)
        decreases NODE_LIMIT - heapIterator
      {
        last := i;
        heapIterator := next;
        i, next := HeapFind(hashed, heapIterator);
      }
    }

    /** insert_item: the last bucket on the way down, or a child of it after a split. */
    method InsertPair(p: Pair) returns (ok: bool)
      requires Valid() && Ranged(nodes[..])
      modifies nodes, slots, store
      ensures Valid() && (View(), ok) == InsertItem(old(View()), hash, p)
    {
      hide FindFrom, PathFrom, Split, Append;
      ghost var before := View();
      var last, heapIterator := FindLast(hash(p.key));
      LastIsOnPath(nodes[..], hash(p.key), 0, -1);
      if last < 0 {
        return false;
      }
      assert InsertItem(before, hash, p) == InsertAt(before, hash, p, last);
      assert nodes[..][last].min <= nodes[..][last].max;
      hide LastFrom, InsertItem;
      var b := last;
      if slots[b] == BUCKET_SIZE {
        var split := BucketSplit(b);
        if !split {
          return false;
        }
        var next;
        b, next := HeapFind(hash(p.key), heapIterator);
        if b < 0 {
          return false;
        }
      }
      ok := BucketAppend(b, p);
    }

    /** bucket_load: the bucket is read into the cache unless it is there already. */
    method BucketLoad(b: nat)
      requires Valid() && b < NODE_LIMIT && slots[b] <= BUCKET_SIZE
      modifies this`cachedBucket, cached, slots
      ensures Valid() && (View(), CacheView()) == Load(old(View()), old(CacheView()), b)
    {
      if cachedBucket == b {
        return;
      }
      ReadBucket(b);
      cachedBucket := b;
      if slots[b] == 0 {
        var i := 0;
        while i < BUCKET_SIZE && cached[i] != NoPair
          invariant 0 <= i <= BUCKET_SIZE
          invariant FirstEmptyPair(cached[..], 0) == FirstEmptyPair(cached[..], i)
        {
          i := i + 1;
        }
        slots[b] := i;
        assert slots[..] == old(slots[..])[b := i];
      }
    }

    /** bucket_read, into the buffer of the cache. */
    method ReadBucket(b: nat)
      requires Valid() && b < NODE_LIMIT && slots[b] <= BUCKET_SIZE
      modifies cached
      ensures cached[..] == BucketRead(View(), b, old(cached[..]))
    {
      var size := if slots[b] == 0 then BUCKET_SIZE else slots[b];
      var i := 0;
      while i < size
        invariant 0 <= i <= size
        invariant forall k :: 0 <= k < i ==> cached[k] == store[b][k]
        invariant forall k :: i <= k < BUCKET_SIZE ==> cached[k] == old(cached[k])
      {
        cached[i] := store[b][i];
        i := i + 1;
      }
      assert cached[..] == store[b][..size] + old(cached[..])[size..];
    }

    /** The nodes on the way down, of which there is room for NODE_DEPTH. */
    method Visit(hashed: Key) returns (visited: seq<nat>)
      requires nodes.Length == NODE_LIMIT
      ensures visited == PathFrom(nodes[..], hashed, 0)
    {
      ghost var path := PathFrom(nodes[..], hashed, 0);
      PathIsShort(nodes[..], hashed);
      hide FindFrom, PathFrom;
      visited := [];
      var heapIterator := 0;
      var i := 0;
      while i < NODE_DEPTH
        invariant 0 <= i <= NODE_DEPTH && i == |visited| && 0 <= heapIterator
        invariant visited + PathFrom(nodes[..], hashed, heapIterator) == path
      {
        PathStep(nodes[..], hashed, heapIterator);
        var b, next := HeapFind(hashed, heapIterator);
        if b < 0 {
          return;
        }
        OneMore(visited, b, PathFrom(nodes[..], hashed, next));
        visited := visited + [b];
        heapIterator := next;
        i := i + 1;
      }
    }

    /** The first used slot of the cached bucket that has the key. */
    method ScanCached(n: nat, key: Key) returns (found: Option<Value>)
      requires n <= cached.Length
      ensures found == Scan(cached[..], n, key, 0)
    {
      var i := 0;
      while i < n
        invariant 0 <= i <= n
        invariant Scan(cached[..], n, key, 0) == Scan(cached[..], n, key, i)
      {
        if cached[i].key == key {
          return Some(cached[i].value);
        }
        i := i + 1;
      }
      return None;
    }

    /** The search of one bucket, through the cache. */
    method SearchBucket(b: nat, key: Key) returns (found: Option<Value>)
      requires Valid() && Counted(slots[..], store[..]) && b < NODE_LIMIT
      modifies this`cachedBucket, cached, slots
      ensures Valid() && Counted(slots[..], store[..]) && nodes[..] == old(nodes[..])
      ensures (View(), CacheView()) == Load(old(View()), old(CacheView()), b)
      ensures View().slots[b] <= |CacheView().pairs|
      ensures found == Scan(CacheView().pairs, View().slots[b], key, 0)
    {
      LoadKeepsCount(View(), CacheView(), b);
      hide Load, Scan;
      BucketLoad(b);
      found := ScanCached(slots[b], key);
    }

    /** The visited buckets, searched from the last one up. */
    method SearchVisited(visited: seq<nat>, key: Key) returns (found: Option<Value>)
      requires Valid() && Counted(slots[..], store[..])
      requires forall k :: 0 <= k < |visited| ==> visited[k] < NODE_LIMIT
      modifies this`cachedBucket, cached, slots
      ensures Valid() && Counted(slots[..], store[..])
      ensures (found, View(), CacheView()) == SearchPath(old(View()), old(CacheView()), visited, key)
    {
      hide Load, Scan, Counted, Shaped, SearchPath;
      ghost var h, c := View(), CacheView();
      var k := |visited|;
      assert visited[..k] == visited;
      while k > 0
        invariant 0 <= k <= |visited| && Valid() && Counted(slots[..], store[..])
        invariant SearchPath(h, c, visited, key) == SearchPath(View(), CacheView(), visited[..k], key)
      {
        k := k - 1;
        SearchStep(View(), CacheView(), visited, k, key);
        found := SearchBucket(visited[k], key);
        if found.Some? {
          return;
        }
      }
      NothingToSearch(View(), CacheView(), visited, key);
      return None;
    }

    /** The first call of get_next for the keys from `min` to `max`. */
    method GetFirst(min: Key, max: Key) returns (found: Option<Value>)
      requires Valid() && Counted(slots[..], store[..]) && min <= max
      modifies this`cachedBucket, cached, slots
      ensures Valid() && Counted(slots[..], store[..])
      ensures (found, View(), CacheView()) == GetNext(old(View()), old(CacheView()), hash, min, max)
      decreases max - min
    {
      hide Counted, SearchPath, PathFrom;
      var visited := Visit(hash(min));
      PathBounds(nodes[..], hash(min), 0);
      found := SearchVisited(visited, min);
      if found.Some? || min == max {
        return;
      }
      found := GetFirst(min + 1, max);
    }
  }

  lemma LoadKeepsCount(h: Heap, c: Cache, b: nat)
    requires Shaped(h) && Counted(h.slots, h.store) && CacheShaped(c) && b < NODE_LIMIT
    ensures Counted(Load(h, c, b).0.slots, Load(h, c, b).0.store) && Load(h, c, b).0.nodes == h.nodes
  {
  }

  lemma SearchStep(h: Heap, c: Cache, visited: seq<nat>, k: nat, key: Key)
    requires Shaped(h) && Counted(h.slots, h.store) && CacheShaped(c) && k < |visited|
    requires forall j :: 0 <= j < |visited| ==> visited[j] < NODE_LIMIT
    ensures var (h', c') := Load(h, c, visited[k]);
            var found := Scan(c'.pairs, h'.slots[visited[k]], key, 0);
            && Shaped(h') && Counted(h'.slots, h'.store) && CacheShaped(c')
            && SearchPath(h, c, visited[..k + 1], key) ==
               if found.Some? then (found, h', c') else SearchPath(h', c', visited[..k], key)
  {
    var rest := visited[..k + 1];
    assert rest[|rest| - 1] == visited[k] && rest[..|rest| - 1] == visited[..k];
    LoadKeepsCount(h, c, visited[k]);
    hide Load, Scan;
  }

  lemma NothingToSearch(h: Heap, c: Cache, visited: seq<nat>, key: Key)
    requires Shaped(h) && Counted(h.slots, h.store) && CacheShaped(c)
    ensures SearchPath(h, c, visited[..0], key) == (None, h, c)
  {
    assert visited[..0] == [];
  }

  /** A path has at most NODE_DEPTH nodes in any tree, as each is past the children of the last. */
  lemma {:induction false} PathFits(nodes: seq<Node>, hashed: Key, i: nat)
    requires |nodes| == NODE_LIMIT
    ensures var path := PathFrom(nodes, hashed, i);
            && |path| <= NODE_DEPTH
            && (path != [] ==> path[0] >= i && (path[0] + 1) * Pow2(|path|) <= 512)
    decreases NODE_LIMIT - i
  {
    var f := FindFrom(nodes, hashed, i);
    if f.Some? {
      var rest := PathFrom(nodes, hashed, 2 * f.value + 1);
      PathFits(nodes, hashed, 2 * f.value + 1);
      assert PathFrom(nodes, hashed, i) == [f.value] + rest;
      hide FindFrom, PathFrom, Pow2;
      DoublePow(f.value, |rest|, if rest == [] then 2 * f.value + 1 else rest[0]);
    }
  }

  lemma PathIsShort(nodes: seq<Node>, hashed: Key)
    requires |nodes| == NODE_LIMIT
    ensures |PathFrom(nodes, hashed, 0)| <= NODE_DEPTH
  {
    hide PathFrom, Pow2;
    PathFits(nodes, hashed, 0);
  }

  lemma OneMore(visited: seq<nat>, b: nat, rest: seq<nat>)
    ensures visited + ([b] + rest) == visited + [b] + rest
  {
  }

  lemma DoublePow(f: nat, n: nat, first: nat)
    requires 2 * f + 1 < NODE_LIMIT && first >= 2 * f + 1
    requires n == 0 || (first + 1) * Pow2(n) <= 512
    ensures (f + 1) * Pow2(n + 1) <= 512 && n + 1 <= NODE_DEPTH
  {
    var w := Pow2(n);
    assert Pow2(n + 1) == 2 * w && (n == 0 ==> w == 1);
    PowAtMost(n + 1);
    hide Pow2;
    Grows(2 * f + 2, first + 1, w);
    assert (f + 1) * (2 * w) == (2 * f + 2) * w;
  }

  lemma Grows(a: nat, b: nat, w: nat)
    requires 2 <= a <= b
    ensures 2 * w <= a * w <= b * w
  {
  }

  lemma {:induction false} PowAtMost(n: nat)
    ensures n >= 10 ==> Pow2(n) >= 1024
  {
    if n == 10 {
      assert Pow2(5) == 32;
    } else if n > 10 {
      PowAtMost(n - 1);
    }
  }

  /** The node that the search of insert_item ends with, having seen `last`. */
  function LastFrom(nodes: seq<Node>, hashed: Key, i: nat, last: int): (r: int)
    requires |nodes| == NODE_LIMIT
    decreases NODE_LIMIT - i
  {
    var f := FindFrom(nodes, hashed, i);
    if f.None? then last else LastFrom(nodes, hashed, 2 * f.value + 1, f.value)
  }

  lemma {:induction false} LastIsOnPath(nodes: seq<Node>, hashed: Key, i: nat, last: int)
    requires |nodes| == NODE_LIMIT
    ensures var path := PathFrom(nodes, hashed, i);
            LastFrom(nodes, hashed, i, last) == if path == [] then last else path[|path| - 1]
    decreases NODE_LIMIT - i
  {
    var f := FindFrom(nodes, hashed, i);
    if f.Some? {
      LastIsOnPath(nodes, hashed, 2 * f.value + 1, f.value);
    }
  }
}
