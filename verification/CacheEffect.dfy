// What an invalidation, an eviction and an update come to, block by block.
module CacheEffects {
  import opened Words
  import opened Sets
  import opened RadixKeys
  import opened RadixShape
  import opened RadixScans
  import opened TreeLeaves
  import opened CacheModel
  import opened Options
  import opened CacheHistories
  import opened CacheBatches
  import opened CacheFinds
  import opened CacheRuns
  import opened CacheReaders

  // ---- lists ----

  ghost predicate Before(t: seq<TreeLeaf>, x: TreeLeaf, y: TreeLeaf) {
    exists p, q | 0 <= p < q < |t| :: t[p] == x && t[q] == y
  }

  /** The list `s` is part of `t`, in the same order. */
  ghost predicate InOrder(s: seq<TreeLeaf>, t: seq<TreeLeaf>) {
    && (forall i | 0 <= i < |s| :: s[i] in t)
    && (forall i, j | 0 <= i < j < |s| :: Before(t, s[i], s[j]))
  }

  lemma InOrderSame(s: seq<TreeLeaf>)
    ensures InOrder(s, s)
  {
  }

  lemma InOrderOn(r: seq<TreeLeaf>, s: seq<TreeLeaf>, t: seq<TreeLeaf>)
    requires InOrder(r, s) && InOrder(s, t)
    ensures InOrder(r, t)
  {
    forall i, j | 0 <= i < j < |r| ensures Before(t, r[i], r[j]) {
      assert Before(s, r[i], r[j]);
      var p, q :| 0 <= p < q < |s| && s[p] == r[i] && s[q] == r[j];
      assert Before(t, s[p], s[q]);
    }
  }

  lemma ConsOrder(x: TreeLeaf, s: seq<TreeLeaf>, t: seq<TreeLeaf>)
    requires InOrder(s, t)
    ensures InOrder([x] + s, [x] + t) && InOrder(s, [x] + t)
  {
    forall i, j | 0 <= i < j < |s| ensures Before([x] + t, s[i], s[j]) {
      assert Before(t, s[i], s[j]);
      var p, q :| 0 <= p < q < |t| && t[p] == s[i] && t[q] == s[j];
      assert ([x] + t)[p + 1] == s[i] && ([x] + t)[q + 1] == s[j];
    }
    forall i, j | 0 <= i < j < |[x] + s| ensures Before([x] + t, ([x] + s)[i], ([x] + s)[j]) {
      if i > 0 {
        assert Before([x] + t, s[i - 1], s[j - 1]);
      } else {
        var q :| 0 <= q < |t| && t[q] == s[j - 1];
        assert ([x] + t)[0] == x && ([x] + t)[q + 1] == s[j - 1];
      }
    }
  }

  lemma {:induction false} WithoutOrder(t: seq<TreeLeaf>, x: TreeLeaf)
    ensures InOrder(Without(t, x), t)
  {
    if t != [] {
      WithoutOrder(t[1..], x);
      ConsOrder(t[0], Without(t[1..], x), t[1..]);
      assert t == [t[0]] + t[1..];
    }
  }

  /** The list has the leaves that the tree points to. */
  lemma ListedIff(c: Cache, x: TreeLeaf)
    requires Inv(c)
    ensures x in c.lru <==> exists k | k in c.m :: c.m[k] == x
  {
    if x in c.lru {
      assert x in c.leaves && LeafOk(c, x);
    }
    if k :| k in c.m && c.m[k] == x {
      CachedLeaf(c, k);
      assert LeafOk(c, x);
    }
  }

  // ---- taking blocks out ----

  /** `d` is `c` without some blocks; the others keep their leaves, and these their order. */
  ghost predicate Fewer(c: Cache, d: Cache) {
    && Inv(d) && InOrder(d.lru, c.lru) && forall k | k in d.m :: k in c.m && d.m[k] == c.m[k]
  }

  lemma FewerOn(c: Cache, d: Cache, e: Cache)
    requires Fewer(c, d) && Fewer(d, e)
    ensures Fewer(c, e)
  {
    InOrderOn(e.lru, d.lru, c.lru);
  }

  lemma RetireFewer(c: Cache, leaf: TreeLeaf)
    requires Inv(c) && leaf in c.leaves && InTree(c, leaf)
    ensures Fewer(c, Retired(c, leaf)) && Retired(c, leaf).m == c.m - {c.leaves[leaf].key}
  {
    RetireKeeps(c, leaf);
    WithoutOrder(c.lru, leaf);
  }

  /** Block `(start + x) % 2^64` is `x` behind the start, on 64 bits. */
  lemma Distance(start: Key, x: nat, k: Key)
    ensures k == (start + x) % ULONG_LIMIT <==> (k - start) % ULONG_LIMIT == x % ULONG_LIMIT
  {
    var d := (k - start) % ULONG_LIMIT;
    assert d == if k >= start then k - start else k - start + ULONG_LIMIT;
    var y := x % ULONG_LIMIT;
    assert (start + x) % ULONG_LIMIT == (start + y) % ULONG_LIMIT;
    assert (start + y) % ULONG_LIMIT == if start + y < ULONG_LIMIT then start + y else start + y - ULONG_LIMIT;
  }

  lemma AtDistance(start: Key, x: nat, k: Key)
    requires x < ULONG_LIMIT
    ensures k == KeyAt(start, x) <==> (k - start) % ULONG_LIMIT == x
  {
    Distance(start, x, k);
  }

  lemma Further(start: Key, n: nat, k: Key)
    requires n > 0
    ensures (k - start) % ULONG_LIMIT >= n <==> (k - start) % ULONG_LIMIT >= n - 1 && k != KeyAt(start, n - 1)
  {
    Distance(start, n - 1, k);
  }

  /** The first `n` blocks of a range are those less than `n` behind the start. */
  lemma {:induction false} RangeIs(start: Key, n: nat, k: Key)
    ensures k in Range(start, n) <==> (k - start) % ULONG_LIMIT < n
  {
    if n > 0 {
      RangeIs(start, n - 1, k);
      Further(start, n, k);
    }
  }

  lemma OneTaken(d: Cache, k: Key)
    requires Inv(d)
    ensures Fewer(d, RetireKey(d, k)) && RetireKey(d, k).m == d.m - {k}
  {
    var e := RetireKeyIs(d, k);
    if k in d.m {
      RetireFewer(d, d.m[k]);
    } else {
      InOrderSame(d.lru);
    }
  }

  lemma {:induction false} RangeFewer(c: Cache, start: Key, n: nat)
    requires Inv(c)
    ensures Fewer(c, RetireRange(c, start, n))
  {
    if n > 0 {
      RangeFewer(c, start, n - 1);
      var d := RetireRange(c, start, n - 1);
      OneTaken(d, KeyAt(start, n - 1));
      FewerOn(c, d, RetireRange(c, start, n));
    } else {
      InOrderSame(c.lru);
    }
  }

  lemma {:induction false} BlockTaken(c: Cache, start: Key, n: nat, k: Key)
    requires Inv(c)
    ensures k in RetireRange(c, start, n).m <==> k in c.m && (k - start) % ULONG_LIMIT >= n
  {
    if n > 0 {
      BlockTaken(c, start, n - 1, k);
      RangeFewer(c, start, n - 1);
      OneTaken(RetireRange(c, start, n - 1), KeyAt(start, n - 1));
      Further(start, n, k);
    }
  }

  /** An invalidation takes out exactly the blocks of its range: those less than `n` behind the start. */
  lemma RangeTaken(c: Cache, start: Key, n: nat)
    requires Inv(c)
    ensures Fewer(c, RetireRange(c, start, n))
    ensures forall k: Key {:trigger k in c.m} ::
      k in RetireRange(c, start, n).m <==> k in c.m && (k - start) % ULONG_LIMIT >= n
  {
    RangeFewer(c, start, n);
    forall k: Key ensures k in RetireRange(c, start, n).m <==> k in c.m && (k - start) % ULONG_LIMIT >= n {
      BlockTaken(c, start, n, k);
    }
  }

  /**
   * What an invalidation does: exactly the blocks of its range go, those less than `n` behind the
   * start on 64 bits; the others keep their leaves, and these their order in the list.
   */
  ghost predicate Invalidated(c: Cache, d: Cache, start: Key, n: nat) {
    && (forall k: Key {:trigger k in d.m} :: k in d.m <==> k in c.m && (k - start) % ULONG_LIMIT >= n)
    && (forall k | k in d.m :: d.m[k] == c.m[k])
    && InOrder(d.lru, c.lru)
    && (forall i | 0 <= i < |c.lru| :: c.lru[i] in d.lru <==> exists k | k in d.m :: d.m[k] == c.lru[i])
  }

  lemma InvalidateEffect(c: Cache, start: Key, n: nat, d: Cache)
    requires Inv(c) && d == RetireRange(c, start, n)
    ensures Invalidated(c, d, start, n) && OpResult(c, Invalidate(start, n), 0) == Some(d)
  {
    RangeTaken(c, start, n);
    forall i | 0 <= i < |c.lru| ensures c.lru[i] in d.lru <==> exists k | k in d.m :: d.m[k] == c.lru[i] {
      ListedIff(d, c.lru[i]);
    }
  }

  // ---- eviction ----

  lemma FullTail(s: seq<TreeLeaf>)
    ensures s[|s| - |s|..] == s && s[..|s| - |s|] == []
  {
  }

  /**
   * Of a list an eviction takes, from some position on, all leaves that are not spared; that position
   * is 0 unless it has taken as many as it may, and then it has just taken the leaf there.
   */
  lemma {:induction false} SurvivorsAt(leaves: map<TreeLeaf, Entry>, s: seq<TreeLeaf>, left: int,
                                       keep: MetaData -> bool)
    returns (rest: seq<TreeLeaf>, more: int, p: nat)
    requires AllIn(s, leaves.Keys) && NoDup(s) && left != 0
    ensures Survivors(leaves, s, left, keep) == (rest, more) && p <= |s| && InOrder(rest, s)
    ensures forall i | 0 <= i < |s| :: s[i] in rest <==> i < p || keep(leaves[s[i]].data)
    ensures |s| - |rest| == left - more && (left > 0 ==> more >= 0) && (left < 0 ==> more < 0)
    ensures if more != 0 then p == 0 else p < |s| && !keep(leaves[s[p]].data)
  {
    if s == [] {
      rest, more, p := [], left, 0;
    } else {
      rest, more, p := SurvivorsAt(leaves, s[1..], left, keep);
      assert s == [s[0]] + s[1..] && s[0] !in s[1..];
      ConsOrder(s[0], rest, s[1..]);
      assert s[0] !in rest;
      if more == 0 || keep(leaves[s[0]].data) {
        rest, p := [s[0]] + rest, if more == 0 then p + 1 else 0;
      } else {
        more := more - 1;
      }
    }
  }

  /** The whole eviction. */
  lemma EvictsFrom(c: Cache, left: int, keep: MetaData -> bool) returns (p: nat, more: int)
    requires Inv(c) && left != 0
    ensures var d := Evicted(c, left, keep, |c.lru|).cache;
      && Fewer(c, d) && p <= |c.lru|
      && (forall i | 0 <= i < |c.lru| :: c.lru[i] in d.lru <==> i < p || keep(c.leaves[c.lru[i]].data))
      && (forall k: Key :: k in d.m <==> k in c.m && c.m[k] in d.lru)
      && |c.lru| - |d.lru| == left - more
    ensures (left > 0 ==> more >= 0) && (left < 0 ==> more < 0)
    ensures if more != 0 then p == 0 else p < |c.lru| && !keep(c.leaves[c.lru[p]].data)
  {
    var rest;
    rest, more, p := SurvivorsAt(c.leaves, c.lru, left, keep);
    FullTail(c.lru);
    EvictionFacts(c, left, keep, |c.lru|);
    assert [] + rest == rest;
  }

  /**
   * What an eviction does: from position `p` of the list on all leaves go that are not spared. When
   * it is asked for -1 that is the whole list. Otherwise it takes as many as it is asked for, but at
   * least one, and has just taken the leaf at `p`; or there are not so many, and it takes them all.
   */
  ghost predicate Kicked(c: Cache, d: Cache, count: int, keep: MetaData -> bool, p: nat) {
    && p <= |c.lru| && InOrder(d.lru, c.lru)
    && (forall i | 0 <= i < |c.lru| && c.lru[i] in c.leaves ::
          c.lru[i] in d.lru <==> i < p || keep(c.leaves[c.lru[i]].data))
    && (forall k: Key {:trigger k in d.m} :: k in d.m <==> k in c.m && c.m[k] in d.lru)
    && (forall k | k in d.m :: d.m[k] == c.m[k])
    && (count == -1 ==> p == 0)
    && (count >= 0 ==>
          var most, gone := if count == 0 then 1 else count, |c.lru| - |d.lru|;
          && gone <= most && (gone < most ==> p == 0)
          && (p > 0 ==> p < |c.lru| && c.lru[p] in c.leaves && !keep(c.leaves[c.lru[p]].data)))
  }

  /** How many an eviction takes. */
  lemma KickCount(c: Cache, d: Cache, count: int, left: int, more: int, p: nat)
    requires left == KickLimit(count, |c.m|) && |c.lru| == |c.m| && -0x8000_0000 <= count < 0x8000_0000
    requires |c.lru| - |d.lru| == left - more && (left > 0 ==> more >= 0) && (left < 0 ==> more < 0)
    requires p <= |c.lru| && (more != 0 ==> p == 0) && (d.lru == [] ==> p == 0)
    ensures count == -1 ==> p == 0
    ensures count >= 0 ==>
      var most, gone := if count == 0 then 1 else count, |c.lru| - |d.lru|;
      gone <= most && (gone < most ==> p == 0)
  {
  }

  lemma KickEffect(c: Cache, count: int, keep: MetaData -> bool) returns (p: nat)
    requires Inv(c) && -0x8000_0000 <= count < 0x8000_0000
    ensures Kicked(c, Evicted(c, KickLimit(count, |c.m|), keep, |c.lru|).cache, count, keep, p)
  {
    var left := KickLimit(count, |c.m|);
    var more;
    p, more := EvictsFrom(c, left, keep);
    ListSize(c);
    var d := Evicted(c, left, keep, |c.lru|).cache;
    assert p > 0 ==> c.lru[0] in d.lru;
    KickCount(c, d, count, left, more, p);
  }

  /** Asked for -1, an eviction takes exactly the blocks that are not spared. */
  ghost predicate AllKicked(c: Cache, d: Cache, keep: MetaData -> bool) {
    && (forall k | k in c.m :: k in d.m <==> c.m[k] in c.leaves && keep(c.leaves[c.m[k]].data))
    && ((forall value :: !keep(value)) ==> d.m == map[] && d.lru == [])
  }

  lemma KickAll(c: Cache, d: Cache, keep: MetaData -> bool, p: nat)
    requires Inv(c) && Kicked(c, d, -1, keep, p)
    ensures AllKicked(c, d, keep)
  {
    forall k | k in c.m ensures k in d.m <==> c.m[k] in c.leaves && keep(c.leaves[c.m[k]].data) {
      CachedLeaf(c, k);
      ListedIff(c, c.m[k]);
    }
    if d.lru != [] {
      assert d.lru[0] in c.lru && LeafOk(c, d.lru[0]);
    }
  }

  // ---- storing ----

  lemma PlacedLast(e: Cache, leaf: TreeLeaf, key: Key, value: MetaData, d: Cache)
    requires Inv(e) && leaf !in e.leaves && d == Stored(e, leaf, key, value)
    ensures Inv(d) && d.m == e.m[key := leaf] && ReadersKept(e, d)
    ensures leaf in d.leaves && d.leaves[leaf].data == value
    ensures d.lru == [leaf] + if key in e.m then Without(e.lru, e.m[key]) else e.lru
  {
    StoredFacts(e, leaf, key, value);
    StoreKeepsReaders(e, leaf, key, value);
    assert Contents(d)[key] == value;
  }

  /** Value number `x` is stored under block `start + x`, and nothing else is. */
  lemma {:induction false} PlacedAt(c: Cache, ls: seq<TreeLeaf>, start: Key, values: seq<MetaData>, n: nat, d: Cache,
                                    k: Key)
    requires n <= |ls| && n <= |values| && n <= ULONG_LIMIT && Inv(c) && Storing(c, ls, start, values, n, d)
    ensures Inv(d)
    ensures var x := (k - start) % ULONG_LIMIT;
      if x < n then k in d.m && d.m[k] == ls[x] && ls[x] in d.leaves && d.leaves[ls[x]].data == values[x]
      else if k in c.m then k in d.m && d.m[k] == c.m[k]
      else k !in d.m
  {
    if n > 0 {
      var e := StoreLast(c, ls, start, values, n, d);
      PlacedAt(c, ls, start, values, n - 1, e, k);
      PlacedLast(e, ls[n - 1], KeyAt(start, n - 1), values[n - 1], d);
      AtDistance(start, n - 1, k);
      var x := (k - start) % ULONG_LIMIT;
      if x < n - 1 {
        assert SameLeaf(e, d, ls[x]);
      }
    } else {
      StoringIs(c, ls, start, values, n, d);
    }
  }

  /** The first `n` of the leaves are in front of the list, the last of them first. */
  ghost predicate InFront(lru: seq<TreeLeaf>, ls: seq<TreeLeaf>, n: nat)
    requires n <= |ls|
  {
    n <= |lru| && forall x | 0 <= x < n :: lru[x] == ls[n - 1 - x]
  }

  /** One more leaf comes to the front, and the one that it replaces, further back, goes. */
  lemma FrontNext(lru: seq<TreeLeaf>, ls: seq<TreeLeaf>, n: nat, y: Option<TreeLeaf>, t: seq<TreeLeaf>,
                  l: seq<TreeLeaf>)
    requires n < |ls| && InFront(lru, ls, n) && InOrder(lru[n..], t)
    requires y.Some? ==> forall x | 0 <= x < n :: ls[x] != y.value
    requires l == [ls[n]] + if y.Some? then Without(lru, y.value) else lru
    ensures InFront(l, ls, n + 1) && InOrder(l[n + 1..], t)
  {
    if y.Some? {
      assert lru == lru[..n] + lru[n..];
      WithoutAppend(lru[..n], lru[n..], y.value);
      assert l[n + 1..] == Without(lru[n..], y.value);
      WithoutOrder(lru[n..], y.value);
      InOrderOn(l[n + 1..], lru[n..], t);
    } else {
      assert l[n + 1..] == lru[n..];
    }
  }

  lemma {:induction false} NewLeaves(c: Cache, ls: seq<TreeLeaf>, start: Key, values: seq<MetaData>, n: nat, d: Cache)
    requires n <= |ls| && n <= |values| && Inv(c) && Storing(c, ls, start, values, n, d)
    ensures forall x | 0 <= x < n :: ls[x] !in c.leaves
  {
    if n > 0 {
      var e := StoreLast(c, ls, start, values, n, d);
      NewLeaves(c, ls, start, values, n - 1, e);
      StoringKeepsReaders(c, ls, start, values, n - 1, e);
      assert forall y | y in c.leaves :: SameLeaf(c, e, y);
    }
  }

  /** What the next block of the range replaces was cached before. */
  lemma ReplacedOld(c: Cache, ls: seq<TreeLeaf>, start: Key, values: seq<MetaData>, n: nat, e: Cache)
    requires n <= |ls| && n <= |values| && n < ULONG_LIMIT && Inv(c) && Storing(c, ls, start, values, n, e)
    ensures KeyAt(start, n) in e.m ==> forall x | 0 <= x < n :: ls[x] != e.m[KeyAt(start, n)]
  {
    var j := KeyAt(start, n);
    PlacedAt(c, ls, start, values, n, e, j);
    Distance(start, n, j);
    NewLeaves(c, ls, start, values, n, e);
    if j in c.m {
      CachedLeaf(c, j);
    }
  }

  /** The stored leaves are in front of the list, the last first, and the others behind them in their order. */
  lemma {:induction false} PlacedList(c: Cache, ls: seq<TreeLeaf>, start: Key, values: seq<MetaData>, n: nat, d: Cache)
    requires n <= |ls| && n <= |values| && n <= ULONG_LIMIT && Inv(c) && Storing(c, ls, start, values, n, d)
    ensures Inv(d) && InFront(d.lru, ls, n) && InOrder(d.lru[n..], c.lru)
  {
    if n > 0 {
      var e := StoreLast(c, ls, start, values, n, d);
      var j := KeyAt(start, n - 1);
      PlacedList(c, ls, start, values, n - 1, e);
      ReplacedOld(c, ls, start, values, n - 1, e);
      PlacedLast(e, ls[n - 1], j, values[n - 1], d);
      FrontNext(e.lru, ls, n - 1, if j in e.m then Some(e.m[j]) else None, c.lru, d.lru);
    } else {
      StoringIs(c, ls, start, values, n, d);
      InOrderSame(c.lru);
      assert d.lru[0..] == d.lru;
    }
  }

  // ---- giving back ----

  /** The first `n` places of a basket where the leaf is. */
  ghost function Places(b: seq<TreeLeaf?>, n: nat, leaf: TreeLeaf): set<nat> {
    set x: nat | x < |b| && b[x] == leaf && x < n
  }

  lemma OnePlace(b: seq<TreeLeaf?>, n: nat, leaf: TreeLeaf)
    requires 0 < n <= |b|
    ensures |Places(b, n, leaf)| == |Places(b, n - 1, leaf)| + if b[n - 1] == leaf then 1 else 0
  {
    assert Places(b, n, leaf) == Places(b, n - 1, leaf) + if b[n - 1] == leaf then {n - 1} else {};
  }

  lemma {:induction false} OccursIs(b: seq<TreeLeaf?>, n: nat, leaf: TreeLeaf)
    requires n <= |b|
    ensures Occurs(b, n, leaf) == |Places(b, n, leaf)|
  {
    if n > 0 {
      OccursIs(b, n - 1, leaf);
      OnePlace(b, n, leaf);
    } else {
      assert Places(b, 0, leaf) == {};
    }
  }

  /** Giving back a basket changes its leaves' references and nothing else. */
  lemma {:induction false} PutAllIs(c: Cache, b: seq<TreeLeaf?>, n: nat, d: Cache)
    requires n <= |b| && PutAll(c, b, n) == Some(d)
    ensures d.m == c.m && d.lru == c.lru && d.leaves.Keys == c.leaves.Keys
    ensures forall leaf | leaf in c.leaves :: d.leaves[leaf].holds == c.leaves[leaf].holds - Occurs(b, n, leaf)
  {
    if n > 0 {
      PutAllIs(c, b, n - 1, PutAll(c, b, n - 1).value);
    }
  }

  /** A basket given back: each leaf has one reference less for every place where it is in the basket. */
  ghost predicate GivenBack(c: Cache, d: Cache, b: seq<TreeLeaf?>, n: nat) {
    && d.m == c.m && d.lru == c.lru && d.leaves.Keys == c.leaves.Keys
    && forall leaf | leaf in c.leaves ::
         d.leaves[leaf].holds == c.leaves[leaf].holds - |set x: nat | x < |b| && b[x] == leaf && x < n|
  }

  lemma PutEffect(c: Cache, b: seq<TreeLeaf?>, n: nat, d: Cache)
    requires n <= |b| && PutAll(c, b, n) == Some(d)
    ensures GivenBack(c, d, b, n) && OpResult(c, GiveBack(b, n), 0) == Some(d)
  {
    PutAllIs(c, b, n, d);
    forall leaf | leaf in c.leaves
      ensures d.leaves[leaf].holds == c.leaves[leaf].holds - |set x: nat | x < |b| && b[x] == leaf && x < n|
    {
      OccursIs(b, n, leaf);
      assert Places(b, n, leaf) == set x: nat | x < |b| && b[x] == leaf && x < n;
    }
  }

  // ---- finding ----

  lemma {:induction false} LeafOfHit(m: Index, ks: seq<Key>, i: nat, x: nat)
    requires i + x < |ks| && forall x | 0 <= x < |ks| :: ks[x] in m
    ensures |LeavesFrom(m, ks, i)| == |ks| - i && LeavesFrom(m, ks, i)[x] == m[ks[i + x]]
    decreases |ks| - i
  {
    if i + 1 < |ks| {
      LeafOfHit(m, ks, i + 1, if x == 0 then 0 else x - 1);
    }
  }

  lemma {:induction false} MinusOrder(s: seq<TreeLeaf>, xs: seq<TreeLeaf>)
    ensures InOrder(Minus(s, xs), s)
  {
    if xs == [] {
      InOrderSame(s);
    } else {
      MinusOrder(s, xs[1..]);
      WithoutOrder(Minus(s, xs[1..]), xs[0]);
      InOrderOn(Minus(s, xs), Minus(s, xs[1..]), s);
    }
  }

  /** A find serves as many blocks as are cached in its range. */
  lemma HitCount(m: Index, lo: nat, hi: nat)
    requires hi <= ULONG_LIMIT
    ensures |Scan(m, lo, hi)| == |set k: Key | k in m && lo <= k < hi|
  {
    ScanExact(m, lo, hi);
    var ks: seq<Key> := Scan(m, lo, hi);
    DistinctSize<Key>(ks);
    var a: set<Key>, b: set<Key> := set k: Key | k in ks, set k: Key | k in m && lo <= k < hi;
    assert a == b;
  }

  lemma FrontKeys(c: Cache, d: Cache, ks: seq<Key>, front: seq<TreeLeaf>)
    requires Findable(c, ks) && Inv(d) && d.m == c.m && front == LeavesFrom(c.m, ks, 0) && front <= d.lru
    ensures |front| == |ks|
    ensures forall i | 0 <= i < |ks| :: d.lru[i] in d.leaves && d.leaves[d.lru[i]].key == ks[i]
  {
    if ks != [] {
      LeafOfHit(c.m, ks, 0, 0);
    }
    forall i | 0 <= i < |ks| ensures d.lru[i] in d.leaves && d.leaves[d.lru[i]].key == ks[i] {
      LeafOfHit(c.m, ks, 0, i);
      assert d.lru[i] == front[i];
      CachedLeaf(d, ks[i]);
    }
  }

  /**
   * After a find: the hits are in front of the list in the order of their blocks, the others behind
   * them in their old order, and the cached blocks are the same.
   */
  lemma FindEffect(c: Cache, start: Key, count: nat, d: Cache) returns (n: nat)
    requires Inv(c) && OpResult(c, Find(start, count), 0) == Some(d)
    ensures Inv(d) && d.m == c.m && d.leaves.Keys == c.leaves.Keys
    ensures n == |set k: Key | k in c.m && start <= k < FindEnd(start, count)| <= |d.lru|
    ensures InOrder(d.lru[n..], c.lru)
    ensures forall i | 0 <= i < n ::
      d.lru[i] in d.leaves && start <= d.leaves[d.lru[i]].key < FindEnd(start, count)
    ensures forall i, j | 0 <= i < j < n :: d.leaves[d.lru[i]].key < d.leaves[d.lru[j]].key
  {
    var hi := FindEnd(start, count);
    var hits := Scan(c.m, start, hi);
    CanFind(c, start, hi);
    FindFacts(c, hits, 0);
    HitCount(c.m, start, hi);
    var front := LeavesFrom(c.m, hits, 0);
    FrontKeys(c, d, hits, front);
    n := |hits|;
    MinusOrder(c.lru, front);
    assert d.lru[n..] == Minus(c.lru, front);
    ScanExact(c.m, start, hi);
    assert forall i | 0 <= i < n :: hits[i] in hits;
  }

  /**
   * What a find does: the basket has the cached leaves of the range, each at its place, and null for
   * the blocks that are not cached; a range that reaches 2^64 has none. Their number is returned. Each
   * of them has one more reference, and they are in front of the list in the order of their blocks, the
   * others behind them in their old order. The cached blocks are the same.
   */
  ghost predicate Found(c: Cache, d: Cache, start: Key, count: nat, b: seq<TreeLeaf?>, n: nat) {
    var hi := if start + count < ULONG_LIMIT then start + count else start;
    && count <= |b| && n <= |d.lru| && d.m == c.m && d.leaves.Keys == c.leaves.Keys
    && (forall x | 0 <= x < count :: b[x] == if start + x < hi && start + x in c.m then c.m[start + x] else null)
    && n == |set k: Key | k in c.m && start <= k < hi|
    && (forall leaf | leaf in c.leaves ::
          d.leaves[leaf].holds == c.leaves[leaf].holds + if leaf in b[..count] then 1 else 0)
    && (forall i | 0 <= i < n :: d.lru[i] in d.leaves && start <= d.leaves[d.lru[i]].key < hi)
    && (forall i, j | 0 <= i < j < n :: d.leaves[d.lru[i]].key < d.leaves[d.lru[j]].key)
    && InOrder(d.lru[n..], c.lru)
  }

  lemma HoldsFound(c: Cache, start: Key, count: nat, d: Cache, b: seq<TreeLeaf?>, leaf: TreeLeaf)
    requires Inv(c) && OpResult(c, Find(start, count), 0) == Some(d) && leaf in c.leaves
    requires count <= |b| && forall x | 0 <= x < count :: b[x] == FoundAt(c.m, start + x, start, FindEnd(start, count))
    ensures d.leaves.Keys == c.leaves.Keys
    ensures d.leaves[leaf].holds == c.leaves[leaf].holds + if leaf in b[..count] then 1 else 0
  {
    FindTakes(c, start, count, d, leaf);
    BasketOccurs(c, start, count, count, leaf);
    assert Basket(c, start, count) == b[..count];
    var k := c.leaves[leaf].key;
    assert start <= k < FindEnd(start, count) && InTree(c, leaf) ==> b[k - start] == leaf;
    if leaf in b[..count] {
      var x :| 0 <= x < count && b[x] == leaf;
      CachedLeaf(c, start + x);
    }
  }

  lemma FoundNow(c: Cache, start: Key, count: nat, d: Cache, b: seq<TreeLeaf?>, n: nat)
    requires Inv(c) && OpResult(c, Find(start, count), 0) == Some(d) && n == |Scan(c.m, start, FindEnd(start, count))|
    requires count <= |b| && forall x | 0 <= x < count :: b[x] == FoundAt(c.m, start + x, start, FindEnd(start, count))
    ensures Found(c, d, start, count, b, n)
  {
    HitCount(c.m, start, FindEnd(start, count));
    var hits := FindEffect(c, start, count, d);
    forall leaf | leaf in c.leaves
      ensures d.leaves[leaf].holds == c.leaves[leaf].holds + if leaf in b[..count] then 1 else 0
    {
      HoldsFound(c, start, count, d, b, leaf);
    }
  }

  // ---- updating ----

  /**
   * What is left when room was made for `count` blocks: the least recently used leaves go, as many as
   * the blocks would be too many, but no more than the cache is to hold.
   */
  ghost function RoomLeft(c: Cache, count: nat, size: nat): seq<TreeLeaf> {
    var over := |c.m| + count - size;
    var gone := if over < 0 then 0 else if over > size then size else over;
    c.lru[..if gone < |c.lru| then |c.lru| - gone else 0]
  }

  ghost predicate InRoom(c: Cache, d: Cache, count: nat, size: nat) {
    && d.lru == RoomLeft(c, count, size)
    && (forall k: Key {:trigger k in d.m} :: k in d.m <==> k in c.m && c.m[k] in d.lru)
    && (forall k | k in d.m :: d.m[k] == c.m[k])
  }

  lemma RoomFacts(c: Cache, count: nat, size: nat) returns (room: Cache)
    requires Inv(c) && RoomFits(count, |c.m|, size)
    ensures room == RoomMade(c, Room(count, |c.m|, size)) && Inv(room) && InRoom(c, room, count, size)
  {
    room := RoomMade(c, Room(count, |c.m|, size));
    ListSize(c);
    RoomIsLru(c, Room(count, |c.m|, size));
    assert c.lru[..|c.lru|] == c.lru;
  }

  /** Block `k` is cached in this leaf, with this value. */
  ghost predicate ValueAt(d: Cache, k: Key, leaf: TreeLeaf, value: MetaData) {
    k in d.m && d.m[k] == leaf && leaf in d.leaves && d.leaves[leaf].data == value
  }

  /**
   * What an update does: value number `x` is stored in leaf number `x` under block `start + x`, on 64
   * bits. All other blocks are those that are left when room was made. The new leaves are in front of
   * the list, the last first, and the others behind them in their old order.
   */
  ghost predicate Updated(c: Cache, d: Cache, ls: seq<TreeLeaf>, start: Key, values: seq<MetaData>, count: nat,
                          size: nat)
  {
    && |ls| <= |values| && |ls| <= |d.lru|
    && (forall x | 0 <= x < |ls| :: ValueAt(d, (start + x) % ULONG_LIMIT, ls[x], values[x]))
    && (forall k: Key {:trigger k in d.m} | (k - start) % ULONG_LIMIT >= |ls| ::
          if k in c.m && c.m[k] in RoomLeft(c, count, size) then k in d.m && d.m[k] == c.m[k] else k !in d.m)
    && (forall x | 0 <= x < |ls| :: d.lru[x] == ls[|ls| - 1 - x])
    && InOrder(d.lru[|ls|..], RoomLeft(c, count, size))
  }

  lemma StoredAt(c: Cache, d: Cache, ls: seq<TreeLeaf>, start: Key, values: seq<MetaData>, x: nat)
    requires Inv(c) && Storing(c, ls, start, values, |ls|, d) && x < |ls| <= |values| && |ls| <= ULONG_LIMIT
    ensures ValueAt(d, (start + x) % ULONG_LIMIT, ls[x], values[x])
  {
    AtDistance(start, x, KeyAt(start, x));
    PlacedAt(c, ls, start, values, |ls|, d, KeyAt(start, x));
  }

  lemma StoredBlocks(c: Cache, d: Cache, ls: seq<TreeLeaf>, start: Key, values: seq<MetaData>)
    requires Inv(c) && Storing(c, ls, start, values, |ls|, d) && |ls| <= |values| && |ls| <= ULONG_LIMIT
    ensures forall x | 0 <= x < |ls| :: ValueAt(d, (start + x) % ULONG_LIMIT, ls[x], values[x])
  {
    forall x | 0 <= x < |ls| ensures ValueAt(d, (start + x) % ULONG_LIMIT, ls[x], values[x]) {
      StoredAt(c, d, ls, start, values, x);
    }
  }

  lemma RoomBlock(c: Cache, room: Cache, count: nat, size: nat, k: Key)
    requires InRoom(c, room, count, size)
    ensures if k in c.m && c.m[k] in RoomLeft(c, count, size) then k in room.m && room.m[k] == c.m[k] else k !in room.m
  {
    assert k in room.m <==> k in c.m && c.m[k] in room.lru;
  }

  lemma OtherBlocks(c: Cache, room: Cache, d: Cache, ls: seq<TreeLeaf>, start: Key, values: seq<MetaData>,
                    count: nat, size: nat)
    requires Inv(room) && InRoom(c, room, count, size) && Storing(room, ls, start, values, |ls|, d)
    requires |ls| <= |values| && |ls| <= ULONG_LIMIT
    ensures forall k: Key {:trigger k in d.m} | (k - start) % ULONG_LIMIT >= |ls| ::
      if k in c.m && c.m[k] in RoomLeft(c, count, size) then k in d.m && d.m[k] == c.m[k] else k !in d.m
  {
    forall k: Key | (k - start) % ULONG_LIMIT >= |ls|
      ensures if k in c.m && c.m[k] in RoomLeft(c, count, size) then k in d.m && d.m[k] == c.m[k] else k !in d.m
    {
      RoomBlock(c, room, count, size, k);
      PlacedAt(room, ls, start, values, |ls|, d, k);
    }
  }

  lemma UpdateEffect(c: Cache, room: Cache, d: Cache, ls: seq<TreeLeaf>, start: Key, values: seq<MetaData>,
                     count: nat, size: nat)
    requires Inv(room) && InRoom(c, room, count, size) && Storing(room, ls, start, values, |ls|, d)
    requires |ls| <= |values| && |ls| <= ULONG_LIMIT
    ensures Updated(c, d, ls, start, values, count, size)
  {
    PlacedList(room, ls, start, values, |ls|, d);
    StoredBlocks(room, d, ls, start, values);
    OtherBlocks(c, room, d, ls, start, values, count, size);
  }

  lemma UpdateIsOp(c: Cache, d: Cache, ls: seq<TreeLeaf>, start: Key, values: seq<MetaData>, count: nat, size: nat)
    requires RoomFits(count, |c.m|, size) && |ls| <= count <= |values|
    requires StoreRange(RoomMade(c, Room(count, |c.m|, size)), ls, start, values, |ls|) == Some(d)
    ensures OpResult(c, Update(start, count, values, ls), size) == Some(d)
  {
  }

  /** The same, from how the update comes about. */
  lemma UpdateRun(c: Cache, d: Cache, ls: seq<TreeLeaf>, start: Key, values: seq<MetaData>, count: nat, size: nat)
    requires Inv(c) && RoomFits(count, |c.m|, size) && |ls| <= count <= |values|
    requires StoreRange(RoomMade(c, Room(count, |c.m|, size)), ls, start, values, |ls|) == Some(d)
    ensures Updated(c, d, ls, start, values, count, size)
    ensures OpResult(c, Update(start, count, values, ls), size) == Some(d)
  {
    UpdateIsOp(c, d, ls, start, values, count, size);
    var room := RoomFacts(c, count, size);
    StoringIs(room, ls, start, values, |ls|, d);
    UpdateEffect(c, room, d, ls, start, values, count, size);
  }
}
