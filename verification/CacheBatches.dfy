// What the cache operations do to many leaves at once: putting back a basket, taking out a
// range, evicting, and storing a range.
module CacheBatches {
  import opened Words
  import opened RadixKeys
  import opened RadixShape
  import opened TreeLeaves
  import opened CacheModel
  import opened Options
  import opened CacheHistories

  // ---- putting back a basket ----

  /** Giving back the leaves of the first `n` entries of a basket, one at a time. */
  ghost function PutAll(c: Cache, b: seq<TreeLeaf?>, n: nat): Option<Cache>
    requires n <= |b|
  {
    if n == 0 then Some(c)
    else
      match PutAll(c, b, n - 1)
      case None => None
      case Some(d) =>
        if b[n - 1] == null then Some(d)
        else if Enabled(d, Put(b[n - 1])) then Some(PutBack(d, b[n - 1])) else None
  }

  lemma {:induction false} PutPrefix(c: Cache, b: seq<TreeLeaf?>, i: nat, n: nat)
    requires i <= n <= |b| && PutAll(c, b, n).Some?
    ensures PutAll(c, b, i).Some?
    decreases n
  {
    if i < n {
      PutPrefix(c, b, i, n - 1);
    }
  }

  /** How often a leaf occurs among the first `n` entries of a basket. */
  ghost function Occurs(b: seq<TreeLeaf?>, n: nat, leaf: TreeLeaf): nat
    requires n <= |b|
  {
    if n == 0 then 0 else Occurs(b, n - 1, leaf) + if b[n - 1] == leaf then 1 else 0
  }

  lemma {:induction false} OccursGrows(b: seq<TreeLeaf?>, i: nat, n: nat, leaf: TreeLeaf)
    requires i <= n <= |b|
    ensures Occurs(b, i, leaf) <= Occurs(b, n, leaf)
    decreases n
  {
    if i < n {
      OccursGrows(b, i, n - 1, leaf);
    }
  }

  /** A basket whose entries the caller all holds. */
  ghost predicate AllHeld(c: Cache, b: seq<TreeLeaf?>, n: nat)
    requires n <= |b|
  {
    && (forall i | 0 <= i < n && b[i] != null :: b[i] in c.leaves)
    && (forall leaf | leaf in c.leaves :: Occurs(b, n, leaf) <= c.leaves[leaf].holds)
  }

  /**
   * Whoever holds all the leaves of a basket can give them back; that changes neither the tree
   * nor the list, and takes exactly these holds away.
   */
  lemma {:induction false} HeldCanBePut(c: Cache, b: seq<TreeLeaf?>, n: nat)
    requires n <= |b| && Inv(c) && AllHeld(c, b, n)
    ensures PutAll(c, b, n).Some?
    ensures var d := PutAll(c, b, n).value;
      && Inv(d) && d.m == c.m && d.lru == c.lru && d.leaves.Keys == c.leaves.Keys
      && forall leaf | leaf in c.leaves :: d.leaves[leaf].holds == c.leaves[leaf].holds - Occurs(b, n, leaf)
  {
    if n > 0 {
      forall leaf | leaf in c.leaves ensures Occurs(b, n - 1, leaf) <= c.leaves[leaf].holds {
        OccursGrows(b, n - 1, n, leaf);
      }
      HeldCanBePut(c, b, n - 1);
      if b[n - 1] != null {
        var d := PutAll(c, b, n - 1).value;
        assert Occurs(b, n, b[n - 1]) <= c.leaves[b[n - 1]].holds;
        PutKeeps(d, b[n - 1]);
      }
    }
  }

  // ---- taking blocks out ----

  /** Taking one leaf out of the cache. */
  ghost function Retired(c: Cache, leaf: TreeLeaf): Cache
    requires leaf in c.leaves
  {
    Settled(Detached(c, leaf), leaf)
  }

  /** The `i`-th block of a range; block numbers wrap around like any unsigned long long. */
  function KeyAt(start: Key, i: nat): Key {
    (start + i) % ULONG_LIMIT
  }

  /** The first `n` blocks of a range. */
  ghost function Range(start: Key, n: nat): set<Key> {
    if n == 0 then {} else Range(start, n - 1) + {KeyAt(start, n - 1)}
  }

  ghost function RetireKey(c: Cache, k: Key): Cache {
    if k in c.m && c.m[k] in c.leaves then Retired(c, c.m[k]) else c
  }

  /** Taking out the cached blocks among the first `n` of a range. */
  ghost function RetireRange(c: Cache, start: Key, n: nat): Cache {
    if n == 0 then c
    else RetireKey(RetireRange(c, start, n - 1), KeyAt(start, n - 1))
  }

  /** What taking out one block does. */
  lemma RetireKeyIs(c: Cache, k: Key) returns (d: Cache)
    requires Inv(c)
    ensures d == RetireKey(c, k) && d.m == c.m - {k} && d.leaves.Keys == c.leaves.Keys
    ensures k in c.m ==> InTree(c, c.m[k]) && d == Retired(c, c.m[k])
    ensures k !in c.m ==> d == c
  {
    d := RetireKey(c, k);
    if k in c.m {
      CachedLeaf(c, k);
    }
  }

  lemma RetireKeeps(c: Cache, leaf: TreeLeaf)
    requires Inv(c) && InTree(c, leaf)
    ensures Enabled(Detached(c, leaf), Settle(leaf)) && Inv(Detached(c, leaf)) && Inv(Retired(c, leaf))
  {
    DetachKeeps(c, leaf);
    SettleKeeps(Detached(c, leaf), leaf);
  }

  // ---- eviction ----

  /** An eviction under way, and how many leaves it may still take (no limit when negative). */
  datatype Eviction = Eviction(cache: Cache, left: int)

  /** Eviction after looking at the last `n` leaves of the list; those that `keep` spares stay. */
  ghost function Evicted(c: Cache, left: int, keep: MetaData -> bool, n: nat): Eviction
    requires n <= |c.lru|
  {
    if n == 0 then Eviction(c, left)
    else
      var e, leaf := Evicted(c, left, keep, n - 1), c.lru[|c.lru| - n];
      if e.left == 0 || leaf !in e.cache.leaves || keep(e.cache.leaves[leaf].data) then e
      else Eviction(Retired(e.cache, leaf), e.left - 1)
  }

  ghost predicate EvictionStep(c: Cache, left: int, keep: MetaData -> bool, n: nat, e: Eviction, k: nat) {
    k <= |c.lru| && Inv(c) && (k == n ==> e == Evicted(c, left, keep, k))
  }

  /** `e` is the eviction after looking at the last `n` leaves, said without unfolding what happened to them. */
  ghost predicate Evicting(c: Cache, left: int, keep: MetaData -> bool, n: nat, e: Eviction) {
    forall k: nat {:trigger EvictionStep(c, left, keep, n, e, k)} | k == n :: EvictionStep(c, left, keep, n, e, k)
  }

  lemma EvictingIs(c: Cache, left: int, keep: MetaData -> bool, n: nat, e: Eviction)
    ensures Evicting(c, left, keep, n, e) <==> n <= |c.lru| && Inv(c) && e == Evicted(c, left, keep, n)
  {
    assert EvictionStep(c, left, keep, n, e, n) <==> n <= |c.lru| && Inv(c) && e == Evicted(c, left, keep, n);
  }

  lemma EvictingStart(c: Cache, left: int, keep: MetaData -> bool)
    requires Inv(c)
    ensures Evicting(c, left, keep, 0, Eviction(c, left))
  {
  }

  /** An eviction that took its last leaf looks at the rest in vain. */
  lemma {:induction false} EvictionOver(c: Cache, left: int, keep: MetaData -> bool, i: nat, n: nat)
    requires i <= n <= |c.lru| && Evicted(c, left, keep, i).left == 0
    ensures Evicted(c, left, keep, n) == Evicted(c, left, keep, i)
    decreases n
  {
    if i < n {
      EvictionOver(c, left, keep, i, n - 1);
    }
  }

  lemma {:induction false} WithoutAt(s: seq<TreeLeaf>, i: nat)
    requires NoDup(s) && i < |s|
    ensures Without(s, s[i]) == s[..i] + s[i + 1..]
  {
    if i == 0 {
      WithoutAbsent(s[1..], s[0]);
    } else {
      WithoutAt(s[1..], i - 1);
      assert s[1..][..i - 1] == s[1..i];
    }
  }

  lemma {:induction false} WithoutAbsent(s: seq<TreeLeaf>, x: TreeLeaf)
    requires x !in s
    ensures Without(s, x) == s
  {
    if s != [] {
      WithoutAbsent(s[1..], x);
    }
  }

  /** The cache keeps exactly the blocks of the leaves in its list. */
  ghost predicate OnlyListed(c: Cache, m: Index, lru: seq<TreeLeaf>) {
    && c.lru == lru
    && c.m.Keys <= m.Keys
    && (forall k | k in m :: (k in c.m <==> m[k] in lru))
    && (forall k | k in c.m :: c.m[k] == m[k])
  }

  lemma ListedNow(c: Cache)
    requires Inv(c)
    ensures OnlyListed(c, c.m, c.lru)
  {
    forall k | k in c.m ensures c.m[k] in c.lru {
      CachedLeaf(c, k);
      assert LeafOk(c, c.m[k]);
    }
  }

  lemma RetiredListed(c: Cache, m: Index, i: nat)
    requires Inv(c) && i < |c.lru| && OnlyListed(c, m, c.lru)
    ensures InTree(c, c.lru[i]) && c.lru[i] in c.leaves
    ensures var d := Retired(c, c.lru[i]);
      Inv(d) && OnlyListed(d, m, c.lru[..i] + c.lru[i + 1..]) && d.leaves.Keys == c.leaves.Keys
  {
    var leaf := c.lru[i];
    assert leaf in c.lru && LeafOk(c, leaf);
    RetireKeeps(c, leaf);
    WithoutAt(c.lru, i);
    var d, lru' := Retired(c, leaf), c.lru[..i] + c.lru[i + 1..];
    assert leaf !in lru';
    forall k | k in m ensures k in d.m <==> m[k] in lru' {
      if k in c.m {
        CachedLeaf(c, k);
        WithoutMember(c.lru, leaf, m[k]);
      }
      WithoutMember(c.lru, leaf, m[k]);
    }
  }

  /** There are as many blocks in the tree as leaves in the list. */
  lemma {:induction false} ListSize(c: Cache)
    requires Inv(c)
    ensures |c.m| == |c.lru|
    decreases |c.lru|
  {
    ListedNow(c);
    if c.lru == [] {
      assert c.m.Keys == {};
    } else {
      var last := |c.lru| - 1;
      RetiredListed(c, c.m, last);
      var d, k := Retired(c, c.lru[last]), c.leaves[c.lru[last]].key;
      assert d.m.Keys == c.m.Keys - {k} && |d.m.Keys| == |c.m.Keys| - 1;
      assert c.lru[..last] + c.lru[last + 1..] == c.lru[..last];
      ListSize(d);
    }
  }

  /** What an eviction leaves of the tail of a list, and how many it may still take. */
  ghost function Survivors(leaves: map<TreeLeaf, Entry>, s: seq<TreeLeaf>, left: int, keep: MetaData -> bool):
    (seq<TreeLeaf>, int)
  {
    if s == [] then ([], left)
    else
      var (rest, more) := Survivors(leaves, s[1..], left, keep);
      if more == 0 || s[0] !in leaves || keep(leaves[s[0]].data) then ([s[0]] + rest, more)
      else (rest, more - 1)
  }

  lemma OneFurther(s: seq<TreeLeaf>, i: nat)
    requires i < |s|
    ensures s[i..][0] == s[i] && s[i..][1..] == s[i + 1..] && s[..i + 1] == s[..i] + [s[i]]
  {
  }

  lemma RetiredData(c: Cache, leaf: TreeLeaf)
    requires leaf in c.leaves
    ensures Retired(c, leaf).leaves.Keys == c.leaves.Keys
    ensures forall x | x in c.leaves :: Retired(c, leaf).leaves[x].data == c.leaves[x].data
  {
  }

  /** The cache after an eviction of which `n` leaves of the list were looked at. */
  ghost predicate EvictedOk(c: Cache, e: Eviction, left: int, keep: MetaData -> bool, n: nat)
    requires n <= |c.lru|
  {
    var (rest, more) := Survivors(c.leaves, c.lru[|c.lru| - n..], left, keep);
    && Inv(e.cache) && OnlyListed(e.cache, c.m, c.lru[..|c.lru| - n] + rest) && e.left == more
    && e.cache.leaves.Keys == c.leaves.Keys
    && forall x | x in c.leaves :: e.cache.leaves[x].data == c.leaves[x].data
  }

  /** One round. */
  lemma EvictRound(c: Cache, e: Eviction, left: int, keep: MetaData -> bool, n: nat)
    requires Inv(c) && n < |c.lru| && EvictedOk(c, e, left, keep, n)
    ensures var leaf := c.lru[|c.lru| - n - 1];
      && leaf in e.cache.leaves
      && var f := if e.left == 0 || keep(e.cache.leaves[leaf].data) then e
                  else Eviction(Retired(e.cache, leaf), e.left - 1);
      EvictedOk(c, f, left, keep, n + 1)
  {
    var i := |c.lru| - n - 1;
    OneFurther(c.lru, i);
    var rest := Survivors(c.leaves, c.lru[i + 1..], left, keep).0;
    var d := e.cache;
    assert d.lru == c.lru[..i] + ([c.lru[i]] + rest);
    assert d.lru[i] == c.lru[i] && d.lru[..i] == c.lru[..i] && d.lru[i + 1..] == rest;
    RetiredListed(d, c.m, i);
    RetiredData(d, c.lru[i]);
  }

  lemma NoneEvicted(c: Cache, left: int, keep: MetaData -> bool)
    requires Inv(c)
    ensures EvictedOk(c, Eviction(c, left), left, keep, 0)
  {
    ListedNow(c);
    assert c.lru[..|c.lru|] + [] == c.lru;
  }

  /** Eviction keeps of the list exactly the survivors, and of the tree exactly their blocks. */
  lemma {:induction false} EvictionFacts(c: Cache, left: int, keep: MetaData -> bool, n: nat)
    requires Inv(c) && n <= |c.lru|
    ensures EvictedOk(c, Evicted(c, left, keep, n), left, keep, n)
  {
    if n == 0 {
      NoneEvicted(c, left, keep);
    } else {
      EvictionFacts(c, left, keep, n - 1);
      EvictRound(c, Evicted(c, left, keep, n - 1), left, keep, n - 1);
    }
  }

  /** The list positions that an eviction has still to look at are as they were. */
  lemma EvictingFront(c: Cache, left: int, keep: MetaData -> bool, n: nat, e: Eviction, i: nat)
    requires i + n < |c.lru| && Evicting(c, left, keep, n, e)
    ensures Inv(e.cache) && i < |e.cache.lru| && e.cache.lru[i] == c.lru[i]
  {
    EvictingIs(c, left, keep, n, e);
    EvictionFacts(c, left, keep, n);
    var front, rest := c.lru[..|c.lru| - n], Survivors(c.leaves, c.lru[|c.lru| - n..], left, keep).0;
    assert (front + rest)[i] == front[i];
  }

  /** The leaf that the next round looks at is where it was before the eviction. */
  lemma LeafAt(c: Cache, left: int, keep: MetaData -> bool, n: nat, e: Eviction)
    requires n < |c.lru| && Evicting(c, left, keep, n, e)
    ensures var i := |c.lru| - n - 1;
      i < |e.cache.lru| && e.cache.lru[i] == c.lru[i] && InTree(e.cache, c.lru[i])
  {
    var i := |c.lru| - n - 1;
    EvictingFront(c, left, keep, n, e, i);
    assert LeafOk(e.cache, e.cache.lru[i]);
  }

  lemma OneMoreRound(c: Cache, left: int, keep: MetaData -> bool, n: nat, e: Eviction, leaf: TreeLeaf)
    returns (f: Eviction)
    requires n < |c.lru| && leaf == c.lru[|c.lru| - n - 1] && Evicting(c, left, keep, n, e)
    requires e.left != 0 && leaf in e.cache.leaves
    ensures Evicting(c, left, keep, n + 1, f)
    ensures f == if keep(e.cache.leaves[leaf].data) then e else Eviction(Retired(e.cache, leaf), e.left - 1)
  {
    EvictingIs(c, left, keep, n, e);
    f := Evicted(c, left, keep, n + 1);
    EvictingIs(c, left, keep, n + 1, f);
  }

  /** The next round of an eviction under way: which leaf it looks at, and what becomes of it. */
  lemma EvictingNext(c: Cache, left: int, keep: MetaData -> bool, n: nat, e: Eviction, i: nat)
    returns (f: Eviction)
    requires i + n + 1 == |c.lru| && Evicting(c, left, keep, n, e) && e.left != 0
    ensures i < |e.cache.lru| && InTree(e.cache, e.cache.lru[i]) && Evicting(c, left, keep, n + 1, f)
    ensures var leaf := e.cache.lru[i];
      f == if keep(e.cache.leaves[leaf].data) then e else Eviction(Retired(e.cache, leaf), e.left - 1)
    ensures f.cache.leaves.Keys == e.cache.leaves.Keys
  {
    LeafAt(c, left, keep, n, e);
    f := OneMoreRound(c, left, keep, n, e, c.lru[i]);
    RetiredData(e.cache, c.lru[i]);
  }

  /** No condition: nothing is spared. */
  predicate SpareNone(data: MetaData) {
    false
  }

  /** Exact LRU: without a condition, `n` evictions cut the `n` least recently used leaves off the list. */
  lemma {:induction false} EvictsLeastRecent(leaves: map<TreeLeaf, Entry>, s: seq<TreeLeaf>, n: nat)
    requires AllIn(s, leaves.Keys)
    ensures Survivors(leaves, s, n, SpareNone) ==
      if n < |s| then (s[..|s| - n], 0) else ([], n - |s|)
  {
    if s != [] {
      EvictsLeastRecent(leaves, s[1..], n);
      if n < |s| {
        assert s[..|s| - n] == [s[0]] + s[1..][..|s| - 1 - n];
      }
    }
  }

  /** Without a limit, an eviction takes exactly the leaves that the condition does not spare. */
  lemma {:induction false} EvictsUnspared(leaves: map<TreeLeaf, Entry>, s: seq<TreeLeaf>, left: int,
                                          keep: MetaData -> bool, leaf: TreeLeaf)
    requires AllIn(s, leaves.Keys) && left < 0
    ensures var (rest, more) := Survivors(leaves, s, left, keep);
      more < 0 && (leaf in rest <==> leaf in s && keep(leaves[leaf].data))
  {
    if s != [] {
      EvictsUnspared(leaves, s[1..], left, keep, leaf);
    }
  }

  // ---- storing blocks ----

  /** Storing a block: the new leaf goes to the front, the one it replaces is settled. */
  ghost function Stored(c: Cache, leaf: TreeLeaf, key: Key, value: MetaData): Cache {
    var d := Attached(c, leaf, key, value);
    if key in c.m && c.m[key] in d.leaves then Settled(d, c.m[key]) else d
  }

  /** Storing the first `n` values of a range in leaves that are new. */
  ghost function StoreRange(c: Cache, ls: seq<TreeLeaf>, start: Key, values: seq<MetaData>, n: nat): Option<Cache>
    requires n <= |ls| && n <= |values|
  {
    if n == 0 then Some(c)
    else
      match StoreRange(c, ls, start, values, n - 1)
      case None => None
      case Some(d) =>
        if ls[n - 1] in d.leaves then None else Some(Stored(d, ls[n - 1], KeyAt(start, n - 1), values[n - 1]))
  }

  lemma StoredFacts(c: Cache, leaf: TreeLeaf, key: Key, value: MetaData)
    requires Inv(c) && leaf !in c.leaves
    ensures var d := Attached(c, leaf, key, value);
      && Inv(d) && leaf in d.leaves
      && (key in c.m ==> c.m[key] in d.leaves && Enabled(d, Settle(c.m[key])))
    ensures var d := Stored(c, leaf, key, value);
      && Inv(d) && d.m == c.m[key := leaf] && d.leaves.Keys == c.leaves.Keys + {leaf}
      && d.lru == [leaf] + (if key in c.m then Without(c.lru, c.m[key]) else c.lru)
      && Contents(d) == Contents(c)[key := value]
  {
    AttachKeeps(c, leaf, key, value);
    var d := Attached(c, leaf, key, value);
    StepContents(c, Attach(leaf, key, value));
    if key in c.m {
      CachedLeaf(c, key);
      SettleKeeps(d, c.m[key]);
      StepContents(d, Settle(c.m[key]));
    }
  }

  lemma {:induction false} StorePrefix(c: Cache, ls: seq<TreeLeaf>, more: seq<TreeLeaf>, start: Key,
                                       values: seq<MetaData>, n: nat)
    requires n <= |ls| && n <= |values|
    ensures StoreRange(c, ls + more, start, values, n) == StoreRange(c, ls, start, values, n)
  {
    if n > 0 {
      StorePrefix(c, ls, more, start, values, n - 1);
    }
  }

  lemma StoreMore(c: Cache, d: Cache, ls: seq<TreeLeaf>, leaf: TreeLeaf, start: Key, values: seq<MetaData>, n: nat)
    requires n == |ls| < |values| && StoreRange(c, ls, start, values, n) == Some(d) && leaf !in d.leaves
    ensures StoreRange(c, ls + [leaf], start, values, n + 1) == Some(Stored(d, leaf, KeyAt(start, n), values[n]))
  {
    StorePrefix(c, ls, [leaf], start, values, n);
  }

  /** What the blocks answer after the first `n` values of a range were stored. */
  ghost function Overlay(view: map<Key, MetaData>, start: Key, values: seq<MetaData>, n: nat): map<Key, MetaData>
    requires n <= |values|
  {
    if n == 0 then view else Overlay(view, start, values, n - 1)[KeyAt(start, n - 1) := values[n - 1]]
  }

  lemma OverlayNext(view: map<Key, MetaData>, before: map<Key, MetaData>, after: map<Key, MetaData>, start: Key,
                    values: seq<MetaData>, n: nat)
    requires 0 < n <= |values| && after == before[KeyAt(start, n - 1) := values[n - 1]]
    ensures before == Overlay(view, start, values, n - 1) ==> after == Overlay(view, start, values, n)
  {
  }

  ghost predicate StoreStep(c: Cache, ls: seq<TreeLeaf>, start: Key, values: seq<MetaData>, n: nat, d: Cache, k: nat) {
    k <= |ls| && k <= |values| && (k == n ==> StoreRange(c, ls, start, values, k) == Some(d))
  }

  /** Storing the first `n` values leads to `d`, said without unfolding how. */
  ghost predicate Storing(c: Cache, ls: seq<TreeLeaf>, start: Key, values: seq<MetaData>, n: nat, d: Cache) {
    forall k: nat {:trigger StoreStep(c, ls, start, values, n, d, k)} | k == n ::
      StoreStep(c, ls, start, values, n, d, k)
  }

  lemma StoringIs(c: Cache, ls: seq<TreeLeaf>, start: Key, values: seq<MetaData>, n: nat, d: Cache)
    ensures Storing(c, ls, start, values, n, d) <==>
      n <= |ls| && n <= |values| && StoreRange(c, ls, start, values, n) == Some(d)
  {
    assert StoreStep(c, ls, start, values, n, d, n) <==>
      n <= |ls| && n <= |values| && StoreRange(c, ls, start, values, n) == Some(d);
  }

  lemma StoringNone(c: Cache, ls: seq<TreeLeaf>, start: Key, values: seq<MetaData>)
    ensures Storing(c, ls, start, values, 0, c)
  {
    StoringIs(c, ls, start, values, 0, c);
  }

  lemma StoringMore(c: Cache, d: Cache, ls: seq<TreeLeaf>, leaf: TreeLeaf, start: Key, values: seq<MetaData>, n: nat)
    requires n == |ls| < |values| && Storing(c, ls, start, values, n, d)
    ensures leaf !in d.leaves ==>
      Storing(c, ls + [leaf], start, values, n + 1, Stored(d, leaf, KeyAt(start, n), values[n]))
  {
    if leaf !in d.leaves {
      var e := Stored(d, leaf, KeyAt(start, n), values[n]);
      StoringIs(c, ls, start, values, n, d);
      StoreMore(c, d, ls, leaf, start, values, n);
      StoringIs(c, ls + [leaf], start, values, n + 1, e);
    }
  }

  /** The last of several stores. */
  lemma StoreLast(c: Cache, ls: seq<TreeLeaf>, start: Key, values: seq<MetaData>, n: nat, d: Cache) returns (e: Cache)
    requires 0 < n <= |ls| && n <= |values| && Storing(c, ls, start, values, n, d)
    ensures Storing(c, ls, start, values, n - 1, e)
    ensures ls[n - 1] !in e.leaves && d == Stored(e, ls[n - 1], KeyAt(start, n - 1), values[n - 1])
  {
    StoringIs(c, ls, start, values, n, d);
    e := StoreRange(c, ls, start, values, n - 1).value;
    StoringIs(c, ls, start, values, n - 1, e);
  }

  /** What it does to the answers of the cache and to its size. */
  lemma {:induction false} StoreLastFacts(c: Cache, ls: seq<TreeLeaf>, start: Key, values: seq<MetaData>, n: nat,
                                          d: Cache, view: map<Key, MetaData>)
    returns (e: Cache)
    requires 0 < n <= |ls| && n <= |values| && Storing(c, ls, start, values, n, d)
    ensures Storing(c, ls, start, values, n - 1, e)
    ensures Inv(e) ==> Inv(d) && |d.m| <= |e.m| + 1
    ensures Inv(e) && Contents(e) == Overlay(view, start, values, n - 1) ==>
      Contents(d) == Overlay(view, start, values, n)
  {
    e := StoreLast(c, ls, start, values, n, d);
    if Inv(e) {
      var k := KeyAt(start, n - 1);
      StoredFacts(e, ls[n - 1], k, values[n - 1]);
      OverlayNext(view, Contents(e), Contents(d), start, values, n);
      assert d.m.Keys == e.m.Keys + {k};
    }
  }

  lemma {:induction false} StoringFacts(c: Cache, ls: seq<TreeLeaf>, start: Key, values: seq<MetaData>, n: nat,
                                        d: Cache)
    requires n <= |ls| && n <= |values| && Inv(c) && Storing(c, ls, start, values, n, d)
    ensures Inv(d) && Contents(d) == Overlay(Contents(c), start, values, n) && |d.m| <= |c.m| + n
  {
    if n > 0 {
      var e := StoreLastFacts(c, ls, start, values, n, d, Contents(c));
      StoringFacts(c, ls, start, values, n - 1, e);
    } else {
      StoringIs(c, ls, start, values, n, d);
    }
  }

  /** Storing a range changes the answers for its blocks and no others, and adds at most one leaf for each. */
  lemma {:induction false} StoreRangeFacts(c: Cache, d: Cache, ls: seq<TreeLeaf>, start: Key,
                                           values: seq<MetaData>, n: nat)
    requires n <= |ls| && n <= |values| && Inv(c) && StoreRange(c, ls, start, values, n) == Some(d)
    ensures Inv(d) && Contents(d) == Overlay(Contents(c), start, values, n)
    ensures |d.m| <= |c.m| + n
  {
    StoringIs(c, ls, start, values, n, d);
    StoringFacts(c, ls, start, values, n, d);
  }

  // ---- room for an update ----

  /** How many leaves an eviction may take: as asked, but no more than are cached and at least one; -1 is no limit. */
  function KickLimit(count: int, num: int): int {
    if count == -1 then -1
    else if count > num then Max(num, 1)
    else Max(count % WORD_LIMIT, 1)
  }

  function Min(a: nat, b: nat): nat {
    if a < b then a else b
  }

  function Max(a: int, b: int): int {
    if a < b then b else a
  }

  /** The room to make is computed in a C int. */
  predicate RoomFits(count: int, num: int, size: int) {
    num + count - size < 0x8000_0000 && size < 0x8000_0000
  }

  /** How many leaves an update of `count` blocks evicts first, if that is positive. */
  function Room(count: int, num: int, size: int): int {
    var i := num + count - size;
    if i > size then size else i
  }

  ghost function RoomMade(c: Cache, room: int): Cache {
    if room > 0 then Evicted(c, KickLimit(room, |c.m|), SpareNone, |c.lru|).cache else c
  }

  lemma LeastRecentLeft(leaves: map<TreeLeaf, Entry>, s: seq<TreeLeaf>, k: nat, n: nat)
    requires AllIn(s, leaves.Keys) && n == if k < |s| then |s| - k else 0
    ensures Survivors(leaves, s, k, SpareNone).0 == s[..n]
  {
    EvictsLeastRecent(leaves, s, k);
  }

  lemma EvictedList(c: Cache, e: Eviction, left: int, keep: MetaData -> bool)
    requires EvictedOk(c, e, left, keep, |c.lru|)
    ensures Inv(e.cache) && OnlyListed(e.cache, c.m, Survivors(c.leaves, c.lru, left, keep).0)
  {
    assert c.lru[|c.lru| - |c.lru|..] == c.lru;
    var rest := Survivors(c.leaves, c.lru, left, keep).0;
    assert c.lru[..|c.lru| - |c.lru|] + rest == rest;
  }

  lemma UnconditionalEviction(c: Cache, k: nat, n: nat)
    requires Inv(c) && n == if k < |c.lru| then |c.lru| - k else 0
    ensures var d := Evicted(c, k, SpareNone, |c.lru|).cache;
      Inv(d) && OnlyListed(d, c.m, c.lru[..n])
  {
    EvictionFacts(c, k, SpareNone, |c.lru|);
    EvictedList(c, Evicted(c, k, SpareNone, |c.lru|), k, SpareNone);
    LeastRecentLeft(c.leaves, c.lru, k, n);
  }

  /** How much of the list is left when room was made. */
  function Left(num: nat, room: int): nat {
    if room <= 0 then num else if room < num then num - room else 0
  }

  /** Making room is exact LRU eviction: it cuts the least recently used leaves off the list. */
  lemma RoomIsLru(c: Cache, room: int)
    requires Inv(c) && room < WORD_LIMIT
    ensures var d := RoomMade(c, room);
      Inv(d) && OnlyListed(d, c.m, c.lru[..Left(|c.lru|, room)])
  {
    if room > 0 {
      ListSize(c);
      UnconditionalEviction(c, KickLimit(room, |c.m|), Left(|c.lru|, room));
    } else {
      ListedNow(c);
      assert c.lru[..|c.lru|] == c.lru;
    }
  }

  /**
   * An eviction without a condition takes the `count` least recently used leaves if and only if it
   * is asked for at least one, or there is none to take: asked for none, it takes one.
   */
  lemma KickTakesWhatIsAsked(c: Cache, count: nat)
    requires Inv(c) && count < 0x8000_0000
    ensures var d := Evicted(c, KickLimit(count, |c.m|), SpareNone, |c.lru|).cache;
      OnlyListed(d, c.m, c.lru[..Left(|c.lru|, count)]) <==> count > 0 || c.lru == []
  {
    if count > 0 {
      RoomIsLru(c, count);
    } else {
      UnconditionalEviction(c, 1, Left(|c.lru|, 1));
    }
  }

  /** An update never leaves more blocks than the cache size or its own range, whichever is larger. */
  lemma CapacityKept(c: Cache, d: Cache, count: nat, size: nat, ls: seq<TreeLeaf>, start: Key,
                     values: seq<MetaData>)
    requires Inv(c) && |c.m| <= size && |ls| <= count && |ls| <= |values|
    requires RoomFits(count, |c.m|, size)
    requires StoreRange(RoomMade(c, Room(count, |c.m|, size)), ls, start, values, |ls|) == Some(d)
    ensures |d.m| <= Max(size, count)
  {
    ListSize(c);
    var room := Room(count, |c.m|, size);
    RoomIsLru(c, room);
    ListSize(RoomMade(c, room));
    StoreRangeFacts(RoomMade(c, room), d, ls, start, values, |ls|);
  }
}
