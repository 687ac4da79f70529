// Whole runs of the cache, an operation at a time: what keeps its size within bounds.
module CacheRuns {
  import opened Words
  import opened Sets
  import opened RadixKeys
  import opened RadixShape
  import opened RadixScans
  import opened TreeLeaves
  import opened CacheModel
  import opened Options
  import opened CacheHistories
  import opened CacheBatches
  import opened CacheFinds

  /** An operation with its arguments; an update also with the leaves that it got memory for. */
  datatype Op =
    | Find(start: Key, count: nat)
    | GiveBack(basket: seq<TreeLeaf?>, count: nat)
    | Update(start: Key, count: nat, values: seq<MetaData>, ls: seq<TreeLeaf>)
    | Invalidate(start: Key, count: nat)
    | Kick(leaves: int, keep: MetaData -> bool)

  /** What the operation makes of the cache, as the methods of a volume do it. */
  ghost function OpResult(c: Cache, op: Op, size: nat): Option<Cache> {
    match op
    case Find(start, count) =>
      if ReadersLeft(c, start, FindEnd(start, count)) then
        TouchedFrom(c, Scan(c.m, start, FindEnd(start, count)), 0)
      else None
    case GiveBack(basket, count) => if count <= |basket| then PutAll(c, basket, count) else None
    case Update(start, count, values, ls) =>
      if |ls| <= count <= |values| && RoomFits(count, |c.m|, size) then
        StoreRange(RoomMade(c, Room(count, |c.m|, size)), ls, start, values, |ls|)
      else None
    case Invalidate(start, count) => Some(RetireRange(c, start, count))
    case Kick(leaves, keep) => Some(Evicted(c, KickLimit(leaves, |c.m|), keep, |c.lru|).cache)
  }

  /** The cache after some operations on an empty one. */
  ghost function RunOps(ops: seq<Op>, size: nat): Option<Cache> {
    if ops == [] then Some(EMPTY)
    else
      match RunOps(ops[..|ops| - 1], size)
      case None => None
      case Some(c) => OpResult(c, ops[|ops| - 1], size)
  }

  // ---- no operation but an update adds blocks ----

  lemma FewerKeys(a: Index, b: Index)
    requires a.Keys <= b.Keys
    ensures |a| <= |b|
  {
    SubsetSize(a.Keys, b.Keys);
  }

  lemma {:induction false} PutAllKeeps(c: Cache, b: seq<TreeLeaf?>, n: nat)
    requires n <= |b| && Inv(c) && PutAll(c, b, n).Some?
    ensures Inv(PutAll(c, b, n).value) && PutAll(c, b, n).value.m == c.m
  {
    if n > 0 {
      PutAllKeeps(c, b, n - 1);
      if b[n - 1] != null {
        PutKeeps(PutAll(c, b, n - 1).value, b[n - 1]);
      }
    }
  }

  lemma RetireOne(c: Cache, k: Key)
    requires Inv(c)
    ensures Inv(RetireKey(c, k)) && RetireKey(c, k).m == c.m - {k}
  {
    if k in c.m {
      CachedLeaf(c, k);
      RetireKeeps(c, c.m[k]);
    }
  }

  lemma {:induction false} RetireRangeKeeps(c: Cache, start: Key, n: nat)
    requires Inv(c)
    ensures Inv(RetireRange(c, start, n)) && RetireRange(c, start, n).m.Keys <= c.m.Keys
  {
    if n > 0 {
      RetireRangeKeeps(c, start, n - 1);
      RetireOne(RetireRange(c, start, n - 1), KeyAt(start, n - 1));
    }
  }

  /** Every operation keeps the invariant, and only an update can add blocks. */
  lemma OpKeeps(c: Cache, op: Op, size: nat, d: Cache)
    requires Inv(c) && OpResult(c, op, size) == Some(d)
    ensures Inv(d) && (!op.Update? ==> |d.m| <= |c.m|)
    ensures op.Update? && |c.m| <= size ==> |d.m| <= Max(size, op.count)
  {
    match op {
      case Find(start, count) =>
        CanFind(c, start, FindEnd(start, count));
        FindFacts(c, Scan(c.m, start, FindEnd(start, count)), 0);
      case GiveBack(basket, count) => PutAllKeeps(c, basket, count);
      case Update(start, count, values, ls) =>
        RoomIsLru(c, Room(count, |c.m|, size));
        StoreRangeFacts(RoomMade(c, Room(count, |c.m|, size)), d, ls, start, values, |ls|);
        if |c.m| <= size {
          CapacityKept(c, d, count, size, ls, start, values);
        }
      case Invalidate(start, count) =>
        RetireRangeKeeps(c, start, count);
        FewerKeys(d.m, c.m);
      case Kick(leaves, keep) =>
        EvictionFacts(c, KickLimit(leaves, |c.m|), keep, |c.lru|);
        FewerKeys(d.m, c.m);
    }
  }

  /** No update of these has more than `size` blocks. */
  ghost predicate Modest(ops: seq<Op>, size: nat) {
    forall i | 0 <= i < |ops| :: ops[i].Update? ==> ops[i].count <= size
  }

  /**
   * Over every run in which no single update is larger than the cache size, the cache never
   * holds more blocks than its size, and the list as many leaves as the tree blocks.
   */
  lemma {:induction false} CapacityInvariant(ops: seq<Op>, size: nat)
    requires RunOps(ops, size).Some? && Modest(ops, size)
    ensures var c := RunOps(ops, size).value;
      Inv(c) && |c.lru| == |c.m| <= size
  {
    if ops != [] {
      var n := |ops| - 1;
      CapacityInvariant(ops[..n], size);
      OpKeeps(RunOps(ops[..n], size).value, ops[n], size, RunOps(ops, size).value);
    }
    ListSize(RunOps(ops, size).value);
  }

  // ---- a single larger update breaks the bound ----

  lemma KeysDiffer(start: Key, i: nat, n: nat)
    requires i < n < ULONG_LIMIT
    ensures KeyAt(start, i) != KeyAt(start, n)
  {
    assert KeyAt(start, i) == start + i - if start + i < ULONG_LIMIT then 0 else ULONG_LIMIT;
    assert KeyAt(start, n) == start + n - if start + n < ULONG_LIMIT then 0 else ULONG_LIMIT;
  }

  lemma {:induction false} RangeEnds(start: Key, i: nat, n: nat)
    requires i <= n < ULONG_LIMIT
    ensures KeyAt(start, n) !in Range(start, i)
  {
    if i > 0 {
      RangeEnds(start, i - 1, n);
      KeysDiffer(start, i - 1, n);
    }
  }

  lemma {:induction false} RangeSize(start: Key, n: nat)
    requires n <= ULONG_LIMIT
    ensures |Range(start, n)| == n
  {
    if n > 0 {
      RangeSize(start, n - 1);
      RangeEnds(start, n - 1, n - 1);
    }
  }

  lemma StoredKeys(e: Cache, leaf: TreeLeaf, key: Key, value: MetaData, d: Cache)
    requires Inv(e) && leaf !in e.leaves && d == Stored(e, leaf, key, value)
    ensures Inv(d) && d.m.Keys == e.m.Keys + {key} && d.leaves.Keys == e.leaves.Keys + {leaf}
  {
    StoredFacts(e, leaf, key, value);
  }

  lemma StoringStored(c: Cache, ls: seq<TreeLeaf>, start: Key, values: seq<MetaData>, n: nat, e: Cache, d: Cache)
    requires n < |ls| && n < |values| && Storing(c, ls, start, values, n, e)
    requires ls[n] !in e.leaves && d == Stored(e, ls[n], KeyAt(start, n), values[n])
    ensures Storing(c, ls, start, values, n + 1, d)
  {
    StoringIs(c, ls, start, values, n, e);
    StoringIs(c, ls, start, values, n + 1, d);
  }

  /** Storing a range adds exactly its blocks. */
  lemma {:induction false} StoringKeys(c: Cache, ls: seq<TreeLeaf>, start: Key, values: seq<MetaData>, n: nat, d: Cache)
    requires n <= |ls| && n <= |values| && Inv(c) && Storing(c, ls, start, values, n, d)
    ensures Inv(d) && d.m.Keys == c.m.Keys + Range(start, n)
  {
    if n > 0 {
      var e := StoreLast(c, ls, start, values, n, d);
      StoringKeys(c, ls, start, values, n - 1, e);
      StoredKeys(e, ls[n - 1], KeyAt(start, n - 1), values[n - 1], d);
    } else {
      StoringIs(c, ls, start, values, n, d);
    }
  }

  /** A complete update of a cache within its size leaves it within its size if and only if it is no larger. */
  lemma UpdateFits(c: Cache, d: Cache, size: nat, ls: seq<TreeLeaf>, start: Key, values: seq<MetaData>)
    requires Inv(c) && |c.m| <= size && |ls| <= |values| && RoomFits(|ls|, |c.m|, size)
    requires StoreRange(RoomMade(c, Room(|ls|, |c.m|, size)), ls, start, values, |ls|) == Some(d)
    ensures |d.m| <= size <==> |ls| <= size
  {
    var e := RoomMade(c, Room(|ls|, |c.m|, size));
    CapacityKept(c, d, |ls|, size, ls, start, values);
    RoomIsLru(c, Room(|ls|, |c.m|, size));
    StoringIs(e, ls, start, values, |ls|, d);
    StoringKeys(e, ls, start, values, |ls|, d);
    RangeSize(start, |ls|);
    SubsetSize(Range(start, |ls|), d.m.Keys);
  }

  ghost function LeafSet(ls: seq<TreeLeaf>, n: nat): set<TreeLeaf>
    requires n <= |ls|
  {
    if n == 0 then {} else LeafSet(ls, n - 1) + {ls[n - 1]}
  }

  lemma {:induction false} LeafSetEnds(ls: seq<TreeLeaf>, i: nat, n: nat)
    requires i <= n < |ls| && NoDup(ls)
    ensures ls[n] !in LeafSet(ls, i)
  {
    if i > 0 {
      LeafSetEnds(ls, i - 1, n);
    }
  }

  lemma StoreNew(c: Cache, ls: seq<TreeLeaf>, start: Key, values: seq<MetaData>, n: nat, e: Cache) returns (d: Cache)
    requires n < |ls| && n < |values| && Storing(c, ls, start, values, n, e) && Inv(e) && ls[n] !in e.leaves
    ensures Storing(c, ls, start, values, n + 1, d) && Inv(d) && d.leaves.Keys == e.leaves.Keys + {ls[n]}
  {
    d := Stored(e, ls[n], KeyAt(start, n), values[n]);
    StoredKeys(e, ls[n], KeyAt(start, n), values[n], d);
    StoringStored(c, ls, start, values, n, e, d);
  }

  /** New leaves can be stored. */
  lemma {:induction false} CanStore(c: Cache, ls: seq<TreeLeaf>, start: Key, values: seq<MetaData>, n: nat)
    returns (d: Cache)
    requires n <= |ls| && n <= |values| && Inv(c) && NoDup(ls) && forall x | 0 <= x < |ls| :: ls[x] !in c.leaves
    ensures Storing(c, ls, start, values, n, d) && Inv(d) && d.leaves.Keys == c.leaves.Keys + LeafSet(ls, n)
  {
    if n == 0 {
      d := c;
      StoringNone(c, ls, start, values);
    } else {
      var e := CanStore(c, ls, start, values, n - 1);
      LeafSetEnds(ls, n - 1, n - 1);
      d := StoreNew(c, ls, start, values, n - 1, e);
    }
  }

  lemma CanUpdate(c: Cache, size: nat, start: Key, values: seq<MetaData>, ls: seq<TreeLeaf>) returns (d: Cache)
    requires Inv(c) && |ls| <= |values| && RoomFits(|ls|, |c.m|, size)
    requires NoDup(ls) && forall x | 0 <= x < |ls| :: ls[x] !in c.leaves
    ensures OpResult(c, Update(start, |ls|, values, ls), size) == Some(d)
  {
    var room := Room(|ls|, |c.m|, size);
    RoomIsLru(c, room);
    EvictionFacts(c, KickLimit(room, |c.m|), SpareNone, |c.lru|);
    d := CanStore(RoomMade(c, room), ls, start, values, |ls|);
    StoringIs(RoomMade(c, room), ls, start, values, |ls|, d);
  }

  /**
   * The bound needs that condition: after every run that keeps it, a complete update in new leaves
   * is possible, and exceeds the size if and only if it is larger than that itself.
   */
  lemma LargerUpdateOverfills(ops: seq<Op>, size: nat, start: Key, values: seq<MetaData>, ls: seq<TreeLeaf>)
    requires RunOps(ops, size).Some? && Modest(ops, size)
    requires |ls| <= |values| && RoomFits(|ls|, |RunOps(ops, size).value.m|, size)
    requires NoDup(ls) && forall x | 0 <= x < |ls| :: ls[x] !in RunOps(ops, size).value.leaves
    ensures var after := RunOps(ops + [Update(start, |ls|, values, ls)], size);
      after.Some? && (|after.value.m| > size <==> |ls| > size)
  {
    var c := RunOps(ops, size).value;
    CapacityInvariant(ops, size);
    var d := CanUpdate(c, size, start, values, ls);
    UpdateFits(c, d, size, ls, start, values);
    assert (ops + [Update(start, |ls|, values, ls)])[..|ops|] == ops;
  }
}
