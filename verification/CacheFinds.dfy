// A find: where the hits go in the caller's basket, and what the hits do to the cache.
module CacheFinds {
  import opened Words
  import opened RadixKeys
  import opened RadixShape
  import opened RadixScans
  import opened TreeLeaves
  import opened CacheModel
  import opened Options
  import opened CacheHistories

  /** The end of the blocks a find can serve: a range that reaches 2^64 is served nothing. */
  function FindEnd(start: Key, count: nat): nat {
    if start + count < ULONG_LIMIT then start + count else start
  }

  // ---- the basket ----

  /**
   * `all` are the scanned keys, ascending, the `i`-th at least `i` above the start; `hits` are
   * those below `hi`, and no key of the range is missing.
   */
  ghost predicate Hits(m: Index, all: seq<Key>, hits: seq<Key>, start: Key, hi: nat) {
    && hits <= all
    && (forall x | 0 <= x < |all| :: all[x] in m && all[x] >= start + x && (all[x] < hi <==> x < |hits|))
    && (forall x, y | 0 <= x < y < |all| :: all[x] < all[y])
    && (forall k | start <= k < hi && k in m :: k in hits)
  }

  /** What the scan returns has this form. */
  lemma ScanHits(m: Index, start: Key, hi: nat, n: nat)
    requires start <= hi <= ULONG_LIMIT && |Scan(m, start, hi)| <= n <= |Scan(m, start, ULONG_LIMIT)|
    ensures Hits(m, Scan(m, start, ULONG_LIMIT)[..n], Scan(m, start, hi), start, hi)
  {
    var every, hits, rest := Scan(m, start, ULONG_LIMIT), Scan(m, start, hi), Scan(m, hi, ULONG_LIMIT);
    ScanSplit(m, start, hi, ULONG_LIMIT);
    ScanExact(m, start, ULONG_LIMIT);
    ScanExact(m, start, hi);
    ScanExact(m, hi, ULONG_LIMIT);
    forall x | 0 <= x < n ensures every[x] in m && (every[x] < hi <==> x < |hits|) {
      assert every[x] in every;
      if x < |hits| {
        assert every[x] == hits[x] && hits[x] in hits;
      } else {
        assert every[x] == rest[x - |hits|] && rest[x - |hits|] in rest;
      }
    }
  }

  ghost function FoundAt(m: Index, k: nat, lo: nat, hi: nat): TreeLeaf? {
    if lo <= k < hi && k in m then m[k] else null
  }

  /** The smallest key scattered so far, when the keys from number `i` on were. */
  ghost function Low(hits: seq<Key>, i: nat, hi: nat): nat {
    if i < |hits| then hits[i] else hi
  }

  /**
   * The scan put the leaves of `all` at the front of the basket; those from number `i` on have
   * moved to their places, or were dropped because they are not among the hits.
   */
  ghost predicate Scattered(b: seq<TreeLeaf?>, m: Index, all: seq<Key>, hits: seq<Key>, start: Key, n: nat, hi: nat,
                            i: nat)
    requires n <= |b| && i <= |all| <= n
  {
    && (forall x | 0 <= x < i :: all[x] in m && b[x] == m[all[x]])
    && (forall x | i <= x < n :: b[x] == FoundAt(m, start + x, Low(hits, i, hi), hi))
  }

  /** One hit goes to its place, which no unread entry occupies. */
  lemma ScatterHit(b: seq<TreeLeaf?>, m: Index, all: seq<Key>, hits: seq<Key>, start: Key, n: nat, hi: nat, i: nat)
    requires Hits(m, all, hits, start, hi) && hi <= start + n && |all| <= n <= |b| && i < |hits|
    requires Scattered(b, m, all, hits, start, n, hi, i + 1)
    ensures i <= all[i] - start < n && hits[i] == all[i]
    ensures Scattered(b[i := null][all[i] - start := b[i]], m, all, hits, start, n, hi, i)
  {
  }

  /** An entry beyond the hits is dropped. */
  lemma ScatterMiss(b: seq<TreeLeaf?>, m: Index, all: seq<Key>, hits: seq<Key>, start: Key, n: nat, hi: nat, i: nat)
    requires Hits(m, all, hits, start, hi) && |hits| <= i < |all| <= n <= |b|
    requires Scattered(b, m, all, hits, start, n, hi, i + 1)
    ensures Scattered(b[i := null], m, all, hits, start, n, hi, i)
  {
  }

  /** Entry `i` is moved to place `to`, or dropped. */
  ghost function Moved(b: seq<TreeLeaf?>, i: nat, hit: bool, to: nat): (r: seq<TreeLeaf?>)
    requires i < |b| && (hit ==> to < |b|)
    ensures |r| == |b|
  {
    if hit then b[i := null][to := b[i]] else b[i := null]
  }

  /** One round: the entry goes to the place of its block if it is a hit, and is dropped otherwise. */
  lemma ScatterEntry(b: seq<TreeLeaf?>, m: Index, all: seq<Key>, hits: seq<Key>, start: Key, n: nat, hi: nat, i: nat)
    requires Hits(m, all, hits, start, hi) && hi <= start + n && i < |all| <= n <= |b|
    requires Scattered(b, m, all, hits, start, n, hi, i + 1)
    ensures i < |hits| ==> i <= all[i] - start < n
    ensures Scattered(Moved(b, i, i < |hits|, if i < |hits| then all[i] - start else 0), m, all, hits, start, n, hi, i)
  {
    if i < |hits| {
      ScatterHit(b, m, all, hits, start, n, hi, i);
    } else {
      ScatterMiss(b, m, all, hits, start, n, hi, i);
    }
  }

  /** After the scan, before the scattering. */
  lemma ScatterStart(b: seq<TreeLeaf?>, m: Index, all: seq<Key>, hits: seq<Key>, start: Key, n: nat, hi: nat)
    requires Hits(m, all, hits, start, hi) && |all| <= n <= |b|
    requires forall x | 0 <= x < |all| :: b[x] == m[all[x]]
    requires forall x | |all| <= x < n :: b[x] == null
    ensures Scattered(b, m, all, hits, start, n, hi, |all|)
  {
  }

  /** At the end every place of the basket is right. */
  lemma ScatterEnd(b: seq<TreeLeaf?>, m: Index, all: seq<Key>, hits: seq<Key>, start: Key, n: nat, hi: nat)
    requires Hits(m, all, hits, start, hi) && |all| <= n <= |b| && Scattered(b, m, all, hits, start, n, hi, 0)
    ensures forall x | 0 <= x < n :: b[x] == FoundAt(m, start + x, start, hi)
  {
  }

  /** The bound that the next block number is compared with. */
  ghost function Offset(hits: seq<Key>, start: Key, count: nat, i: nat): nat {
    if i < |hits| then hits[i] else (start + count) % ULONG_LIMIT
  }

  /** The comparison tells the hits from the rest, also when the end of the range wraps around. */
  lemma OffsetTells(m: Index, all: seq<Key>, hits: seq<Key>, start: Key, count: nat, i: nat)
    requires count < ULONG_LIMIT && i < |all| && Hits(m, all, hits, start, FindEnd(start, count))
    ensures start <= all[i] < Offset(hits, start, count, i + 1) <==> i < |hits|
    ensures i < |hits| ==> all[i] == Offset(hits, start, count, i)
    ensures i >= |hits| ==> Offset(hits, start, count, i) == Offset(hits, start, count, i + 1)
  {
  }

  // ---- what the hits do to the cache ----

  /** The leaves of the keys from number `i` on. */
  ghost function LeavesFrom(m: Index, ks: seq<Key>, i: nat): seq<TreeLeaf>
    requires forall x | 0 <= x < |ks| :: ks[x] in m
    decreases |ks| - i
  {
    if i >= |ks| then [] else [m[ks[i]]] + LeavesFrom(m, ks, i + 1)
  }

  /** Touching the leaves of the keys from number `i` on, the last first. */
  ghost function TouchedFrom(c: Cache, ks: seq<Key>, i: nat): Option<Cache>
    decreases |ks| - i
  {
    if i >= |ks| then Some(c)
    else
      match TouchedFrom(c, ks, i + 1)
      case None => None
      case Some(d) =>
        if ks[i] in c.m && Enabled(d, Touch(c.m[ks[i]])) then Some(Touched(d, c.m[ks[i]])) else None
  }

  /** A list without some of its members. */
  ghost function Minus(s: seq<TreeLeaf>, xs: seq<TreeLeaf>): seq<TreeLeaf> {
    if xs == [] then s else Without(Minus(s, xs[1..]), xs[0])
  }

  lemma {:induction false} MinusMember(s: seq<TreeLeaf>, xs: seq<TreeLeaf>, y: TreeLeaf)
    ensures y in Minus(s, xs) <==> y in s && y !in xs
  {
    if xs != [] {
      MinusMember(s, xs[1..], y);
      WithoutMember(Minus(s, xs[1..]), xs[0], y);
    }
  }

  lemma {:induction false} WithoutAppend(s: seq<TreeLeaf>, t: seq<TreeLeaf>, x: TreeLeaf)
    requires x !in s
    ensures Without(s + t, x) == s + Without(t, x)
  {
    if s == [] {
      assert s + t == t && [] + Without(t, x) == Without(t, x);
    } else {
      WithoutAppend(s[1..], t, x);
      assert (s + t)[1..] == s[1..] + t;
    }
  }

  /** The keys of a find: cached, ascending, and none with a full reader count. */
  ghost predicate Findable(c: Cache, ks: seq<Key>) {
    && Inv(c)
    && (forall i | 0 <= i < |ks| :: ks[i] in c.m && c.m[ks[i]] in c.leaves && c.leaves[c.m[ks[i]]].holds < MAX_HOLDS)
    && (forall i, j | 0 <= i < j < |ks| :: ks[i] < ks[j])
  }

  /** No cached block of a range has a full reader count. */
  ghost predicate ReadersLeft(c: Cache, lo: nat, hi: nat) {
    forall k | lo <= k < hi && k in c.m && c.m[k] in c.leaves :: c.leaves[c.m[k]].holds < MAX_HOLDS
  }

  /** What a find leaves behind: nothing is evicted, stored or changed; the hits gain a reader and move to the front. */
  ghost predicate FoundOk(c: Cache, d: Cache, hits: seq<TreeLeaf>) {
    && Inv(d) && d.m == c.m && d.leaves.Keys == c.leaves.Keys
    && d.lru == hits + Minus(c.lru, hits)
    && forall x | x in c.leaves :: d.leaves[x] == if x in hits then OneMore(c.leaves[x]) else c.leaves[x]
  }

  lemma {:induction false} LeafOfKey(c: Cache, ks: seq<Key>, i: nat, k: Key)
    requires Findable(c, ks) && k in c.m && forall x | i <= x < |ks| :: ks[x] != k
    ensures c.m[k] !in LeavesFrom(c.m, ks, i)
    decreases |ks| - i
  {
    if i < |ks| {
      CachedLeaf(c, k);
      CachedLeaf(c, ks[i]);
      LeafOfKey(c, ks, i + 1, k);
    }
  }

  lemma FoundOne(c: Cache, d: Cache, hits: seq<TreeLeaf>, k: Key)
    requires Inv(c) && FoundOk(c, d, hits) && k in c.m && c.m[k] !in hits
    requires c.m[k] in c.leaves && c.leaves[c.m[k]].holds < MAX_HOLDS
    ensures Enabled(d, Touch(c.m[k])) && FoundOk(c, Touched(d, c.m[k]), [c.m[k]] + hits)
  {
    var leaf := c.m[k];
    CachedLeaf(d, k);
    TouchKeeps(d, leaf);
    WithoutAppend(hits, Minus(c.lru, hits), leaf);
    assert ([leaf] + hits)[1..] == hits;
    assert [leaf] + (hits + Without(Minus(c.lru, hits), leaf)) == ([leaf] + hits) + Without(Minus(c.lru, hits), leaf);
  }

  /**
   * A find can take its references, and this moves the hits to the front of the list, the
   * smallest key first, with the other leaves behind them in their old order.
   */
  lemma {:induction false} FindFacts(c: Cache, ks: seq<Key>, i: nat)
    requires Findable(c, ks)
    ensures TouchedFrom(c, ks, i).Some? && FoundOk(c, TouchedFrom(c, ks, i).value, LeavesFrom(c.m, ks, i))
    decreases |ks| - i
  {
    if i >= |ks| {
      assert [] + c.lru == c.lru;
    } else {
      FindFacts(c, ks, i + 1);
      LeafOfKey(c, ks, i + 1, ks[i]);
      FoundOne(c, TouchedFrom(c, ks, i + 1).value, LeavesFrom(c.m, ks, i + 1), ks[i]);
    }
  }

  /** The hits of a range can all be touched while none of them has a full reader count. */
  lemma CanFind(c: Cache, start: Key, hi: nat)
    requires Inv(c) && start <= hi <= ULONG_LIMIT && ReadersLeft(c, start, hi)
    ensures Findable(c, Scan(c.m, start, hi))
  {
    var hits := Scan(c.m, start, hi);
    ScanExact(c.m, start, hi);
    forall x | 0 <= x < |hits| ensures hits[x] in c.m && c.m[hits[x]] in c.leaves &&
                                       c.leaves[c.m[hits[x]]].holds < MAX_HOLDS
    {
      assert hits[x] in hits;
      CachedLeaf(c, hits[x]);
    }
  }

  /** The leaf of a key is still that of the key during a find. */
  lemma KeyStays(c: Cache, d: Cache, hits: seq<Key>, i: nat, k: Key)
    requires Findable(c, hits) && TouchedFrom(c, hits, i) == Some(d) && k in c.m
    ensures c.m[k] in d.leaves && d.leaves[c.m[k]].key == k && d.leaves.Keys == c.leaves.Keys
  {
    CachedLeaf(c, k);
    FindFacts(c, hits, i);
  }

  /** The touch that the next hit gets. */
  lemma {:induction false} NextTouch(c: Cache, d: Cache, hits: seq<Key>, i: nat)
    requires Findable(c, hits) && i < |hits| && TouchedFrom(c, hits, i + 1) == Some(d)
    ensures hits[i] in c.m && Enabled(d, Touch(c.m[hits[i]]))
    ensures TouchedFrom(c, hits, i) == Some(Touched(d, c.m[hits[i]]))
  {
    FindFacts(c, hits, i);
  }

  // ---- which ranges a find serves ----

  /**
   * A find answers for every block of its range, unless the range reaches the end of the 64-bit
   * block numbers: then it answers nothing, which is right only when nothing is cached there.
   */
  lemma FindServes(m: Index, start: Key, count: nat)
    ensures (forall k: Key | start <= k < start + count ::
               FoundAt(m, k, start, FindEnd(start, count)) == if k in m then m[k] else null)
      <==> start + count < ULONG_LIMIT || Scan(m, start, ULONG_LIMIT) == []
  {
    ScanExact(m, start, ULONG_LIMIT);
    var all := Scan(m, start, ULONG_LIMIT);
    if start + count >= ULONG_LIMIT && all != [] {
      assert all[0] in all;
      assert FoundAt(m, all[0], start, FindEnd(start, count)) == null;
    }
    assert forall k: Key | start <= k && k in m :: k in all;
  }

  /** The last block number can never be found. */
  lemma LastBlockMissed(leaf: TreeLeaf)
    ensures var last, m := ULONG_LIMIT - 1, map[ULONG_LIMIT - 1 := leaf];
      FoundAt(m, last, last, FindEnd(last, 1)) == null
  {
  }
}
