// The readers of the cache: which references are out over whole runs, with every return of a
// reference interleaved with everything else.
module CacheReaders {
  import opened Words
  import opened RadixKeys
  import opened RadixShape
  import opened RadixScans
  import opened TreeLeaves
  import opened CacheModel
  import opened Options
  import opened CacheHistories
  import opened CacheBatches
  import opened CacheFinds
  import opened CacheRuns

  // ---- updates, evictions and invalidations leave readers alone ----

  /** Nothing happened to a leaf that its readers could notice. */
  ghost predicate SameLeaf(c: Cache, d: Cache, x: TreeLeaf) {
    && x in c.leaves && x in d.leaves
    && d.leaves[x].key == c.leaves[x].key && d.leaves[x].data == c.leaves[x].data
    && d.leaves[x].holds == c.leaves[x].holds && d.leaves[x].pending == c.leaves[x].pending
  }

  /** Every leaf that was there is there, with the same block, data and references; new ones have none. */
  ghost predicate ReadersKept(c: Cache, d: Cache) {
    && (forall x | x in c.leaves :: SameLeaf(c, d, x))
    && (forall x | x in d.leaves && x !in c.leaves :: d.leaves[x].holds == 0 && !d.leaves[x].pending)
  }

  lemma KeptOn(c: Cache, d: Cache, e: Cache)
    requires ReadersKept(c, d) && ReadersKept(d, e)
    ensures ReadersKept(c, e)
  {
    forall x | x in c.leaves ensures SameLeaf(c, e, x) {
      assert SameLeaf(c, d, x) && SameLeaf(d, e, x);
    }
    forall x | x in e.leaves && x !in c.leaves ensures e.leaves[x].holds == 0 && !e.leaves[x].pending {
      if x in d.leaves {
        assert SameLeaf(d, e, x);
      }
    }
  }

  lemma RetireKeepsReaders(c: Cache, leaf: TreeLeaf)
    requires Inv(c) && leaf in c.leaves && InTree(c, leaf)
    ensures ReadersKept(c, Retired(c, leaf))
  {
    assert LeafOk(c, leaf);
  }

  lemma {:induction false} RangeKeepsReaders(c: Cache, start: Key, n: nat)
    requires Inv(c)
    ensures ReadersKept(c, RetireRange(c, start, n))
  {
    if n > 0 {
      RangeKeepsReaders(c, start, n - 1);
      RetireRangeKeeps(c, start, n - 1);
      var d, k := RetireRange(c, start, n - 1), KeyAt(start, n - 1);
      var e := RetireKeyIs(d, k);
      if k in d.m {
        RetireKeepsReaders(d, d.m[k]);
        KeptOn(c, d, e);
      }
    }
  }

  /** The last of several rounds. */
  lemma LastRound(c: Cache, left: int, keep: MetaData -> bool, n: nat, f: Eviction) returns (e: Eviction)
    requires 0 < n <= |c.lru| && Evicting(c, left, keep, n, f)
    ensures Evicting(c, left, keep, n - 1, e)
    ensures c.lru[|c.lru| - n] in e.cache.leaves ==>
      f.cache == e.cache || f.cache == Retired(e.cache, c.lru[|c.lru| - n])
  {
    EvictingIs(c, left, keep, n, f);
    e := Evicted(c, left, keep, n - 1);
    EvictingIs(c, left, keep, n - 1, e);
  }

  /** The leaf that it looks at is still cached. */
  lemma NextCached(c: Cache, left: int, keep: MetaData -> bool, n: nat, e: Eviction)
    requires 0 < n <= |c.lru| && Evicting(c, left, keep, n - 1, e)
    ensures Inv(e.cache) && c.lru[|c.lru| - n] in e.cache.leaves && InTree(e.cache, c.lru[|c.lru| - n])
  {
    EvictingFront(c, left, keep, n - 1, e, |c.lru| - n);
    var leaf := c.lru[|c.lru| - n];
    assert leaf in e.cache.lru && LeafOk(e.cache, leaf);
  }

  lemma RoundKeepsReaders(c: Cache, d: Cache, leaf: TreeLeaf, e: Cache)
    requires ReadersKept(c, d) && Inv(d) && leaf in d.leaves && InTree(d, leaf)
    requires e == d || e == Retired(d, leaf)
    ensures ReadersKept(c, e)
  {
    RetireKeepsReaders(d, leaf);
    KeptOn(c, d, Retired(d, leaf));
  }

  lemma {:induction false} EvictingKeepsReaders(c: Cache, left: int, keep: MetaData -> bool, n: nat, f: Eviction)
    requires n <= |c.lru| && Evicting(c, left, keep, n, f)
    ensures ReadersKept(c, f.cache)
  {
    if n > 0 {
      var e := LastRound(c, left, keep, n, f);
      NextCached(c, left, keep, n, e);
      EvictingKeepsReaders(c, left, keep, n - 1, e);
      RoundKeepsReaders(c, e.cache, c.lru[|c.lru| - n], f.cache);
    } else {
      EvictingIs(c, left, keep, n, f);
    }
  }

  lemma EvictionKeepsReaders(c: Cache, left: int, keep: MetaData -> bool)
    requires Inv(c)
    ensures ReadersKept(c, Evicted(c, left, keep, |c.lru|).cache)
  {
    var f := Evicted(c, left, keep, |c.lru|);
    EvictingIs(c, left, keep, |c.lru|, f);
    EvictingKeepsReaders(c, left, keep, |c.lru|, f);
  }

  lemma StoreKeepsReaders(c: Cache, leaf: TreeLeaf, key: Key, value: MetaData)
    requires Inv(c) && leaf !in c.leaves
    ensures ReadersKept(c, Stored(c, leaf, key, value))
  {
    if key in c.m {
      CachedLeaf(c, key);
      assert LeafOk(c, c.m[key]);
    }
  }

  lemma {:induction false} StoringKeepsReaders(c: Cache, ls: seq<TreeLeaf>, start: Key, values: seq<MetaData>, n: nat,
                                               d: Cache)
    requires n <= |ls| && n <= |values| && Inv(c) && Storing(c, ls, start, values, n, d)
    ensures ReadersKept(c, d)
  {
    if n > 0 {
      var e := StoreLast(c, ls, start, values, n, d);
      StoringKeepsReaders(c, ls, start, values, n - 1, e);
      StoringFacts(c, ls, start, values, n - 1, e);
      StoreKeepsReaders(e, ls[n - 1], KeyAt(start, n - 1), values[n - 1]);
      KeptOn(c, e, d);
    } else {
      StoringIs(c, ls, start, values, n, d);
    }
  }

  /** Updates, invalidations and evictions take no reference away and change no leaf that is held. */
  lemma OpKeepsReaders(c: Cache, op: Op, size: nat, d: Cache)
    requires Inv(c) && OpResult(c, op, size) == Some(d) && !op.Find? && !op.GiveBack?
    ensures ReadersKept(c, d)
  {
    match op {
      case Update(start, count, values, ls) =>
        var room := Room(count, |c.m|, size);
        var e := RoomMade(c, room);
        RoomIsLru(c, room);
        EvictionKeepsReaders(c, KickLimit(room, |c.m|), SpareNone);
        StoringIs(e, ls, start, values, |ls|, d);
        StoringKeepsReaders(e, ls, start, values, |ls|, d);
        KeptOn(c, e, d);
      case Invalidate(start, count) => RangeKeepsReaders(c, start, count);
      case Kick(leaves, keep) => EvictionKeepsReaders(c, KickLimit(leaves, |c.m|), keep);
    }
  }

  // ---- runs ----

  /** The cache, and the baskets that finds have filled, without what was given back since. */
  datatype Readers = Readers(c: Cache, out: seq<seq<TreeLeaf?>>)

  /** An operation, or one entry of a basket given back: that happens without the tree lock. */
  datatype Use = Do(op: Op) | Return(i: nat, x: nat)

  /** What a find puts in the basket. */
  ghost function Basket(c: Cache, start: Key, count: nat): seq<TreeLeaf?> {
    seq(count, x requires 0 <= x < count => FoundAt(c.m, start + x, start, FindEnd(start, count)))
  }

  ghost function Next(w: Readers, u: Use, size: nat): Option<Readers> {
    match u
    case Do(GiveBack(_, _)) => None
    case Do(Find(start, count)) =>
      (match OpResult(w.c, Find(start, count), size)
       case None => None
       case Some(d) => Some(Readers(d, w.out + [Basket(w.c, start, count)])))
    case Do(op) =>
      (match OpResult(w.c, op, size)
       case None => None
       case Some(d) => Some(Readers(d, w.out)))
    case Return(i, x) =>
      if i >= |w.out| || x >= |w.out[i]| then None
      else
        var out := w.out[i := w.out[i][x := null]];
        if w.out[i][x] == null then Some(Readers(w.c, out))
        else if Enabled(w.c, Put(w.out[i][x])) then Some(Readers(PutBack(w.c, w.out[i][x]), out))
        else None
  }

  /** From an empty cache on. */
  ghost function RunUses(us: seq<Use>, size: nat): Option<Readers> {
    if us == [] then Some(Readers(EMPTY, []))
    else
      match RunUses(us[..|us| - 1], size)
      case None => None
      case Some(w) => Next(w, us[|us| - 1], size)
  }

  // ---- the references that are out ----

  /** How often a leaf occurs in the baskets. */
  ghost function Out(out: seq<seq<TreeLeaf?>>, leaf: TreeLeaf): nat {
    if out == [] then 0
    else Out(out[..|out| - 1], leaf) + Occurs(out[|out| - 1], |out[|out| - 1]|, leaf)
  }

  lemma {:induction false} OccursWithout(b: seq<TreeLeaf?>, n: nat, x: nat, leaf: TreeLeaf)
    requires n <= |b| && x < |b|
    ensures Occurs(b[x := null], n, leaf) == Occurs(b, n, leaf) - if x < n && b[x] == leaf then 1 else 0
    ensures x < n && b[x] == leaf ==> Occurs(b, n, leaf) > 0
  {
    if n > 0 {
      OccursWithout(b, n - 1, x, leaf);
    }
  }

  lemma {:induction false} OutWith(out: seq<seq<TreeLeaf?>>, i: nat, b: seq<TreeLeaf?>, leaf: TreeLeaf)
    requires i < |out|
    ensures Out(out[i := b], leaf) == Out(out, leaf) - Occurs(out[i], |out[i]|, leaf) + Occurs(b, |b|, leaf)
    ensures Occurs(out[i], |out[i]|, leaf) <= Out(out, leaf)
    decreases |out|
  {
    var n := |out| - 1;
    if i < n {
      OutWith(out[..n], i, b, leaf);
      assert out[i := b][..n] == out[..n][i := b];
    } else {
      assert out[i := b][..n] == out[..n];
    }
  }

  lemma OutMore(out: seq<seq<TreeLeaf?>>, b: seq<TreeLeaf?>, leaf: TreeLeaf)
    ensures Out(out + [b], leaf) == Out(out, leaf) + Occurs(b, |b|, leaf)
  {
    assert (out + [b])[..|out|] == out;
  }

  /** A leaf is in the basket of a find once if it is a hit, and else not at all. */
  lemma {:induction false} BasketOccurs(c: Cache, start: Key, count: nat, n: nat, leaf: TreeLeaf)
    requires Inv(c) && n <= count && leaf in c.leaves
    ensures var k := c.leaves[leaf].key;
      Occurs(Basket(c, start, count), n, leaf) ==
        if start <= k < start + n && k < FindEnd(start, count) && InTree(c, leaf) then 1 else 0
  {
    if n > 0 {
      BasketOccurs(c, start, count, n - 1, leaf);
      var k := start + n - 1;
      assert Basket(c, start, count)[n - 1] == FoundAt(c.m, k, start, FindEnd(start, count));
      if k < ULONG_LIMIT && k in c.m {
        CachedLeaf(c, k);
      }
    }
  }

  lemma {:induction false} InLeavesFrom(m: Index, ks: seq<Key>, i: nat, leaf: TreeLeaf)
    requires forall x | 0 <= x < |ks| :: ks[x] in m
    ensures leaf in LeavesFrom(m, ks, i) <==> exists x | i <= x < |ks| :: m[ks[x]] == leaf
    decreases |ks| - i
  {
    if i < |ks| {
      InLeavesFrom(m, ks, i + 1, leaf);
    }
  }

  /** Every reference that is out is in a basket, and no leaf waits for being marked. */
  ghost predicate Balanced(w: Readers) {
    && Inv(w.c)
    && (forall leaf | leaf in w.c.leaves :: w.c.leaves[leaf].holds == Out(w.out, leaf) && !w.c.leaves[leaf].pending)
    && (forall i, x | 0 <= i < |w.out| && 0 <= x < |w.out[i]| && w.out[i][x] != null :: w.out[i][x] in w.c.leaves)
  }

  /** A find takes one reference for each time that a leaf is in its basket. */
  lemma FindTakes(c: Cache, start: Key, count: nat, d: Cache, leaf: TreeLeaf)
    requires Inv(c) && OpResult(c, Find(start, count), 0) == Some(d) && leaf in c.leaves
    ensures Inv(d) && d.m == c.m && d.leaves.Keys == c.leaves.Keys && d.leaves[leaf].pending == c.leaves[leaf].pending
    ensures d.leaves[leaf].holds == c.leaves[leaf].holds + Occurs(Basket(c, start, count), count, leaf)
  {
    var hi := FindEnd(start, count);
    var hits := Scan(c.m, start, hi);
    CanFind(c, start, hi);
    FindFacts(c, hits, 0);
    BasketOccurs(c, start, count, count, leaf);
    InLeavesFrom(c.m, hits, 0, leaf);
    ScanExact(c.m, start, hi);
    var k := c.leaves[leaf].key;
    if leaf in LeavesFrom(c.m, hits, 0) {
      var x :| 0 <= x < |hits| && c.m[hits[x]] == leaf;
      CachedLeaf(c, hits[x]);
      assert hits[x] in hits;
    } else if InTree(c, leaf) && start <= k < hi {
      assert k in hits;
    }
  }

  lemma NewBasket(c: Cache, start: Key, count: nat, x: nat)
    requires Inv(c) && x < count
    ensures var b := Basket(c, start, count); b[x] != null ==> b[x] in c.leaves
  {
    assert Basket(c, start, count)[x] == FoundAt(c.m, start + x, start, FindEnd(start, count));
    if start + x < ULONG_LIMIT && start + x in c.m {
      CachedLeaf(c, start + x);
    }
  }

  /** After a find the caller holds all that is in its basket. */
  lemma FoundIsHeld(c: Cache, start: Key, count: nat, d: Cache)
    requires Inv(c) && OpResult(c, Find(start, count), 0) == Some(d)
    ensures Inv(d) && AllHeld(d, Basket(c, start, count), count)
  {
    CanFind(c, start, FindEnd(start, count));
    FindFacts(c, Scan(c.m, start, FindEnd(start, count)), 0);
    forall leaf | leaf in d.leaves ensures Occurs(Basket(c, start, count), count, leaf) <= d.leaves[leaf].holds {
      assert LeafOk(c, leaf);
      FindTakes(c, start, count, d, leaf);
    }
    forall x | 0 <= x < count && Basket(c, start, count)[x] != null ensures Basket(c, start, count)[x] in d.leaves {
      NewBasket(c, start, count, x);
    }
  }

  /** And holds it still after any update, invalidation or eviction. */
  lemma HeldStays(c: Cache, d: Cache, b: seq<TreeLeaf?>, n: nat)
    requires n <= |b| && Inv(c) && ReadersKept(c, d) && AllHeld(c, b, n)
    ensures AllHeld(d, b, n)
  {
    forall leaf | leaf in d.leaves ensures Occurs(b, n, leaf) <= d.leaves[leaf].holds {
      if leaf in c.leaves {
        assert SameLeaf(c, d, leaf);
      } else {
        OccursNot(b, n, leaf);
      }
    }
    forall x | 0 <= x < n && b[x] != null ensures b[x] in d.leaves {
      assert SameLeaf(c, d, b[x]);
    }
  }

  lemma FindBalances(w: Readers, start: Key, count: nat, d: Cache)
    requires Balanced(w) && OpResult(w.c, Find(start, count), 0) == Some(d)
    ensures Balanced(Readers(d, w.out + [Basket(w.c, start, count)]))
  {
    var b := Basket(w.c, start, count);
    var v := Readers(d, w.out + [b]);
    CanFind(w.c, start, FindEnd(start, count));
    FindFacts(w.c, Scan(w.c.m, start, FindEnd(start, count)), 0);
    forall leaf | leaf in d.leaves ensures d.leaves[leaf].holds == Out(v.out, leaf) && !d.leaves[leaf].pending {
      FindTakes(w.c, start, count, d, leaf);
      OutMore(w.out, b, leaf);
    }
    forall i, x | 0 <= i < |v.out| && 0 <= x < |v.out[i]| && v.out[i][x] != null ensures v.out[i][x] in d.leaves {
      if i == |w.out| {
        NewBasket(w.c, start, count, x);
      }
    }
  }

  /** Leaves that nobody knew are in no basket. */
  lemma {:induction false} OutUnknown(out: seq<seq<TreeLeaf?>>, leaf: TreeLeaf)
    requires forall i, x | 0 <= i < |out| && 0 <= x < |out[i]| :: out[i][x] != leaf
    ensures Out(out, leaf) == 0
  {
    if out != [] {
      OutUnknown(out[..|out| - 1], leaf);
      OccursNot(out[|out| - 1], |out[|out| - 1]|, leaf);
    }
  }

  lemma {:induction false} OccursNot(b: seq<TreeLeaf?>, n: nat, leaf: TreeLeaf)
    requires n <= |b| && forall x | 0 <= x < n :: b[x] != leaf
    ensures Occurs(b, n, leaf) == 0
  {
    if n > 0 {
      OccursNot(b, n - 1, leaf);
    }
  }

  lemma OpBalances(w: Readers, op: Op, size: nat, d: Cache)
    requires Balanced(w) && OpResult(w.c, op, size) == Some(d) && !op.Find? && !op.GiveBack?
    ensures Balanced(Readers(d, w.out))
  {
    OpKeeps(w.c, op, size, d);
    OpKeepsReaders(w.c, op, size, d);
    forall leaf | leaf in d.leaves ensures d.leaves[leaf].holds == Out(w.out, leaf) && !d.leaves[leaf].pending {
      if leaf in w.c.leaves {
        assert SameLeaf(w.c, d, leaf);
      } else {
        OutUnknown(w.out, leaf);
      }
    }
    forall i, x | 0 <= i < |w.out| && 0 <= x < |w.out[i]| && w.out[i][x] != null ensures w.out[i][x] in d.leaves {
      assert SameLeaf(w.c, d, w.out[i][x]);
    }
  }

  /** An entry of a basket can be given back, and takes one reference away. */
  lemma ReturnBalances(w: Readers, i: nat, x: nat)
    requires Balanced(w) && i < |w.out| && x < |w.out[i]|
    ensures Next(w, Return(i, x), 0).Some? && Balanced(Next(w, Return(i, x), 0).value)
  {
    var y, b := w.out[i][x], w.out[i][x := null];
    forall leaf: TreeLeaf ensures Out(w.out[i := b], leaf) == Out(w.out, leaf) - if y == leaf then 1 else 0
                          ensures y == leaf ==> Out(w.out, leaf) > 0
    {
      OccursWithout(w.out[i], |b|, x, leaf);
      OutWith(w.out, i, b, leaf);
    }
    if y != null {
      PutKeeps(w.c, y);
    }
  }

  /**
   * Over every run, however the returns are interleaved with finds, updates, invalidations and
   * evictions: a leaf has exactly as many references as it occurs in baskets.
   */
  lemma {:induction false} ReferencesBalance(us: seq<Use>, size: nat)
    requires RunUses(us, size).Some?
    ensures Balanced(RunUses(us, size).value)
  {
    if us != [] {
      var w, u := RunUses(us[..|us| - 1], size).value, us[|us| - 1];
      ReferencesBalance(us[..|us| - 1], size);
      match u
      case Do(Find(start, count)) => FindBalances(w, start, count, OpResult(w.c, u.op, size).value);
      case Do(GiveBack(_, _)) =>
      case Do(op) => OpBalances(w, op, size, OpResult(w.c, op, size).value);
      case Return(i, x) => ReturnBalances(w, i, x);
    }
  }

  /** So every entry of every basket can be given back at any time, and so can the whole basket at once. */
  lemma BasketCanBePut(us: seq<Use>, size: nat, i: nat, x: nat)
    requires RunUses(us, size).Some?
    ensures var w := RunUses(us, size).value;
      && (i < |w.out| && x < |w.out[i]| ==> RunUses(us + [Return(i, x)], size).Some?)
      && (i < |w.out| ==> PutAll(w.c, w.out[i], |w.out[i]|).Some?)
  {
    ReferencesBalance(us, size);
    var w := RunUses(us, size).value;
    assert (us + [Return(i, x)])[..|us|] == us;
    if i < |w.out| {
      if x < |w.out[i]| {
        ReturnBalances(w, i, x);
      }
      forall leaf | leaf in w.c.leaves ensures Occurs(w.out[i], |w.out[i]|, leaf) <= w.c.leaves[leaf].holds {
        OutWith(w.out, i, w.out[i], leaf);
      }
      HeldCanBePut(w.c, w.out[i], |w.out[i]|);
    }
  }

  /**
   * No leaf is lost: in every run a leaf that is in no basket is either cached, unmarked and not
   * freed, or it was freed, once.
   */
  lemma NothingLeaks(us: seq<Use>, size: nat, leaf: TreeLeaf)
    requires RunUses(us, size).Some? && leaf in RunUses(us, size).value.c.leaves
    ensures var w := RunUses(us, size).value;
      var e := w.c.leaves[leaf];
      && (e.released == 1 <==> !InTree(w.c, leaf) && Out(w.out, leaf) == 0)
      && (e.released == 0 <==> InTree(w.c, leaf) || Out(w.out, leaf) > 0)
  {
    ReferencesBalance(us, size);
    assert LeafOk(RunUses(us, size).value.c, leaf);
  }
}
