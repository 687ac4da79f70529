// The ascending range scan over the radix tree.
module RadixScans {
  import opened Words
  import opened RadixKeys
  import opened RadixShape
  import opened RadixNeeds
  import opened RadixTrees
  import opened TreeLeaves

  // ---- what a scan should return ----

  /** The stored keys in `[lo, hi)`, ascending. */
  ghost function Scan(m: Index, lo: nat, hi: nat): seq<Key>
    requires hi <= ULONG_LIMIT
    decreases hi - lo
  {
    if lo >= hi then [] else (if lo in m then [lo] else []) + Scan(m, lo + 1, hi)
  }

  lemma {:induction false} ScanSplit(m: Index, a: nat, b: nat, c: nat)
    requires a <= b <= c <= ULONG_LIMIT
    ensures Scan(m, a, c) == Scan(m, a, b) + Scan(m, b, c)
    decreases b - a
  {
    if a < b {
      ScanSplit(m, a + 1, b, c);
    }
  }

  lemma {:induction false} ScanEmpty(m: Index, a: nat, b: nat)
    requires a <= b <= ULONG_LIMIT && forall k | a <= k < b :: k !in m
    ensures Scan(m, a, b) == []
    decreases b - a
  {
    if a < b {
      ScanEmpty(m, a + 1, b);
    }
  }

  lemma ScanOne(m: Index, a: nat, b: Key)
    requires a <= b
    ensures Scan(m, a, b + 1) == Scan(m, a, b) + if b in m then [b] else []
  {
    ScanSplit(m, a, b, b + 1);
    assert Scan(m, b + 1, b + 1) == [];
  }

  lemma {:induction false} ScanBound(m: Index, a: nat, b: nat)
    requires a <= b <= ULONG_LIMIT
    ensures |Scan(m, a, b)| <= b - a
    decreases b - a
  {
    if a < b {
      ScanBound(m, a + 1, b);
    }
  }

  /** A scan lists exactly the stored keys of its range, each at least its rank above the start. */
  lemma {:induction false} ScanExact(m: Index, lo: nat, hi: nat)
    requires hi <= ULONG_LIMIT
    ensures forall k :: k in Scan(m, lo, hi) <==> lo <= k < hi && k in m
    ensures forall i | 0 <= i < |Scan(m, lo, hi)| :: Scan(m, lo, hi)[i] >= lo + i
    ensures forall i, j | 0 <= i < j < |Scan(m, lo, hi)| :: Scan(m, lo, hi)[i] < Scan(m, lo, hi)[j]
    decreases hi - lo
  {
    if lo < hi {
      ScanExact(m, lo + 1, hi);
      var rest := Scan(m, lo + 1, hi);
      assert forall i | 0 <= i < |rest| :: rest[i] in rest;
    }
  }

  // ---- the key arithmetic of skipping a block ----

  /** All keys of one level-`l` block share their prefix, and the next block starts right after it. */
  lemma NextBlock(index: Key, l: nat)
    requires l < MAX_HEIGHT
    ensures var s, q := Pow2(l * MAP_SHIFT), Prefix(index, l);
      && index < (q + 1) * s <= ULONG_LIMIT
      && index - index % s + s == (q + 1) * s
      && Shr(index, l * MAP_SHIFT) == q
      && Prefix((q + 1) * s, l) == q + 1
  {
    var s, q := Pow2(l * MAP_SHIFT), Prefix(index, l);
    ShrIsPrefix(index, l);
    assert index == q * s + index % s;
    PowValues();
    PowAdd(l * MAP_SHIFT, INDEX_BITS - l * MAP_SHIFT);
    BlocksFit(q, s, Pow2(INDEX_BITS - l * MAP_SHIFT), index);
    PrefixOfBase(q + 1, l);
  }

  lemma BlocksFit(q: nat, s: nat, n: nat, index: nat)
    requires s > 0 && q * s <= index < s * n
    ensures (q + 1) * s <= s * n && (q + 1) * s == q * s + s
  {
    MultipleGap(q - n, s);
    assert (q - n) * s == q * s - s * n;
    assert q < n;
    MultipleGap(n - q - 1, s);
    assert (n - q - 1) * s == s * n - (q + 1) * s;
  }

  lemma SamePrefix(index: Key, k: nat, l: nat)
    requires l < MAX_HEIGHT && index <= k < (Prefix(index, l) + 1) * Pow2(l * MAP_SHIFT)
    ensures Prefix(k, l) == Prefix(index, l)
  {
    PrefixMonotone(index, k, l);
    BelowBase(k, Prefix(index, l) + 1, l);
  }

  /** An empty slot means that its whole block of keys is absent. */
  lemma BlockAbsent(t: Shape, m: Index, index: Key, l: nat)
    requires Linked(t, m) && l < t.height && Expect(t.cells, m, l, Prefix(index, l)) == Null
    ensures (Prefix(index, l) + 1) * Pow2(l * MAP_SHIFT) <= ULONG_LIMIT
    ensures index <= (Prefix(index, l) + 1) * Pow2(l * MAP_SHIFT)
    ensures Scan(m, index, (Prefix(index, l) + 1) * Pow2(l * MAP_SHIFT)) == []
  {
    var e := (Prefix(index, l) + 1) * Pow2(l * MAP_SHIFT);
    NextBlock(index, l);
    forall k | index <= k < e ensures k !in m {
      SamePrefix(index, k, l);
      NullMeansAbsent(t, m, k, l);
    }
    ScanEmpty(m, index, e);
  }

  // ---- the scan itself ----

  /** Where a scan that reported `next` has got to: a wrapped index means the end of the key space. */
  function End(next: Key): (e: nat)
    ensures e <= ULONG_LIMIT
  {
    if next == 0 then ULONG_LIMIT else next
  }

  /** The start of the block after the one `index` is in. */
  ghost function BlockEnd(index: Key, l: nat): nat {
    (Prefix(index, l) + 1) * Pow2(l * MAP_SHIFT)
  }

  /** Skipping an empty slot: the index moves to the next block, past no stored key. */
  lemma SkipBlock(t: Shape, m: Index, first: Key, index: Key, l: nat)
    requires Linked(t, m) && l < t.height && Expect(t.cells, m, l, Prefix(index, l)) == Null
    requires first <= index && Scan(m, first, index) == []
    ensures var e, s := BlockEnd(index, l), Pow2(l * MAP_SHIFT);
      && index < e <= ULONG_LIMIT && Scan(m, first, e) == []
      && index - index % s + s == e
      && Prefix(e, l) == Prefix(index, l) + 1
      && (Prefix(index, l) % MAP_SIZE + 1 < MAP_SIZE ==>
            Prefix(e, l + 1) == Prefix(index, l + 1) && Prefix(e, l) % MAP_SIZE == Prefix(index, l) % MAP_SIZE + 1)
  {
    NextBlock(index, l);
    BlockAbsent(t, m, index, l);
    ScanSplit(m, first, index, BlockEnd(index, l));
  }

  /** The same, with the next block given by what the code computes. */
  lemma NextIndex(t: Shape, m: Index, first: Key, index: Key, l: nat, s: nat) returns (e: nat)
    requires Linked(t, m) && l < t.height && Expect(t.cells, m, l, Prefix(index, l)) == Null
    requires first <= index && Scan(m, first, index) == [] && s == Pow2(l * MAP_SHIFT)
    ensures e == index - index % s + s && index < e <= ULONG_LIMIT && Scan(m, first, e) == []
    ensures Prefix(index, l) % MAP_SIZE + 1 < MAP_SIZE ==>
      Prefix(e, l + 1) == Prefix(index, l + 1) && Prefix(e, l) % MAP_SIZE == Prefix(index, l) % MAP_SIZE + 1
  {
    SkipBlock(t, m, first, index, l);
    e := BlockEnd(index, l);
  }

  /** Moves the index past an empty slot. */
  method SkipSlot(t: RadixTree, ghost h: nat, shift: nat, ghost first: Key, index: Key) returns (next: Key)
    requires t.Valid() && 1 < h <= t.height && shift == (h - 1) * MAP_SHIFT
    requires Expect(t.cells, t.m, h - 1, Prefix(index, h - 1)) == Null
    requires first <= index && Scan(t.m, first, index) == []
    ensures (next == 0 || next > index) && Scan(t.m, first, End(next)) == []
    ensures next != 0 && Prefix(index, h - 1) % MAP_SIZE + 1 < MAP_SIZE ==>
      Prefix(next, h) == Prefix(index, h) && Prefix(next, h - 1) % MAP_SIZE == Prefix(index, h - 1) % MAP_SIZE + 1
  {
    ghost var e := NextIndex(t.Tree(), t.m, first, index, h - 1, Pow2(shift));
    next := (index - index % Pow2(shift) + Pow2(shift)) % ULONG_LIMIT;
    assert next == if e == ULONG_LIMIT then 0 else e;
  }

  /**
   * The search for the next child at one level: skips the blocks of empty slots. It ends at a
   * child, or beyond the node, or with the index wrapped to 0.
   */
  method NextChild(t: RadixTree, node: Node, ghost h: nat, shift: nat, index: Key)
    returns (found: bool, i: nat, next: Key)
    requires t.Valid() && 1 < h <= t.height && shift == (h - 1) * MAP_SHIFT
    requires Pos(h, Prefix(index, h)) in t.cells && node == t.cells[Pos(h, Prefix(index, h))].node
    ensures !found ==> (next == 0 || next > index) && Scan(t.m, index, End(next)) == []
    ensures found ==>
      && index <= next && Scan(t.m, index, next) == []
      && i < |node.slots| && node.slots[i] != Null
      && Prefix(next, h) == Prefix(index, h) && i == Prefix(next, h - 1) % MAP_SIZE
  {
    ghost var l := h - 1;
    assert CellOk(t.Tree(), Pos(h, Prefix(index, h)));
    ShrIsPrefix(index, l);
    i, next := Shr(index, shift) % MAP_SIZE, index;
    while i < MAP_SIZE
      invariant i <= MAP_SIZE && index <= next
      invariant i < MAP_SIZE ==> i == Prefix(next, l) % MAP_SIZE && Prefix(next, h) == Prefix(index, h)
      invariant i == MAP_SIZE ==> next > index
      invariant Scan(t.m, index, next) == []
    {
      if node.slots[i] != Null {
        return true, i, next;
      }
      StepDown(t.Tree(), t.m, next, h);
      next := SkipSlot(t, h, shift, index, next);
      if next == 0 {
        return false, i, 0;
      }
      i := i + 1;
    }
    found := false;
  }

  /** The items of the keys `ks` were written at `off`, and nothing else was touched. */
  ghost predicate Filled(before: seq<TreeLeaf?>, after: seq<TreeLeaf?>, off: nat, m: Index, ks: seq<Key>) {
    && |before| == |after| && off + |ks| <= |after|
    && before[..off] == after[..off] && before[off + |ks|..] == after[off + |ks|..]
    && forall j {:trigger ks[j]} | 0 <= j < |ks| :: ks[j] in m && after[off + j] == m[ks[j]]
  }

  lemma FilledAt(before: seq<TreeLeaf?>, after: seq<TreeLeaf?>, m: Index, ks: seq<Key>)
    requires Filled(before, after, 0, m, ks)
    ensures |ks| <= |after| == |before|
    ensures forall i | 0 <= i < |ks| :: ks[i] in m && after[i] == m[ks[i]]
    ensures forall i | |ks| <= i < |after| :: after[i] == before[i]
  {
    forall i | |ks| <= i < |after| ensures after[i] == before[i] {
      assert after[i] == after[|ks|..][i - |ks|] && before[i] == before[|ks|..][i - |ks|];
    }
    assert forall i | 0 <= i < |ks| :: after[0 + i] == m[ks[i]];
  }

  lemma FillOne(before: seq<TreeLeaf?>, after: seq<TreeLeaf?>, off: nat, m: Index, ks: seq<Key>, k: Key)
    requires Filled(before, after, off, m, ks)
    requires k in m && off + |ks| < |after|
    ensures Filled(before, after[off + |ks| := m[k]], off, m, ks + [k])
  {
  }

  lemma FillMore(before: seq<TreeLeaf?>, mid: seq<TreeLeaf?>, after: seq<TreeLeaf?>, off: nat,
                 m: Index, ks: seq<Key>, more: seq<Key>)
    requires Filled(before, mid, off, m, ks) && Filled(mid, after, off + |ks|, m, more)
    ensures Filled(before, after, off, m, ks + more)
  {
  }

  /** Passing one key: its item is appended if there is one. */
  lemma GrabStep(before: seq<TreeLeaf?>, now: seq<TreeLeaf?>, off: nat, m: Index, lo: nat, cur: Key)
    requires lo <= cur && Filled(before, now, off, m, Scan(m, lo, cur))
    requires off + |Scan(m, lo, cur)| < |now|
    ensures cur !in m ==> Scan(m, lo, cur + 1) == Scan(m, lo, cur)
    ensures cur in m ==>
      && |Scan(m, lo, cur + 1)| == |Scan(m, lo, cur)| + 1
      && Filled(before, now[off + |Scan(m, lo, cur)| := m[cur]], off, m, Scan(m, lo, cur + 1))
  {
    ScanOne(m, lo, cur);
    if cur in m {
      FillOne(before, now, off, m, Scan(m, lo, cur), cur);
    }
  }

  /** The bottom-level slot of a key holds the key's item. */
  lemma BottomSlot(t: Shape, m: Index, q: Pos, i: nat, k: nat)
    requires Linked(t, m) && q in t.cells && q.level == 1 && i < MAP_SIZE && k == q.prefix * MAP_SIZE + i
    ensures i < |t.cells[q].slots| && t.cells[q].slots[i] == if k in m then Item(m[k]) else Null
  {
    assert Agrees(t, m, q, i);
  }

  /** One slot of the bottom level: takes the item of key `cur`, if there is one. */
  method GrabSlot(t: RadixTree, node: Node, results: array<TreeLeaf?>, off: nat, i: nat, found: nat, ghost q: Pos,
                  ghost first: seq<TreeLeaf?>, ghost index: Key, ghost cur: Key)
    returns (nrFound: nat)
    requires t.Sealed() && q in t.cells && q.level == 1 && node == t.cells[q].node
    requires i < MAP_SIZE && cur == q.prefix * MAP_SIZE + i && index <= cur
    requires found == |Scan(t.m, index, cur)| && off + found < results.Length
    requires Filled(first, results[..], off, t.m, Scan(t.m, index, cur))
    modifies results
    ensures nrFound == |Scan(t.m, index, cur + 1)| && found <= nrFound <= found + 1
    ensures Filled(first, results[..], off, t.m, Scan(t.m, index, cur + 1))
  {
    t.Open();
    GrabStep(first, results[..], off, t.m, index, cur);
    BottomSlot(t.Tree(), t.m, q, i, cur);
    nrFound := found;
    if node.slots[i] != Null {
      results[off + nrFound] := node.slots[i].leaf;
      nrFound := nrFound + 1;
    }
  }

  /** The index after a key wraps around to 0 at the very end. */
  lemma NextKey(cur: Key)
    ensures (cur % ULONG_LIMIT + 1) % ULONG_LIMIT == (cur + 1) % ULONG_LIMIT
    ensures End((cur + 1) % ULONG_LIMIT) == cur + 1
  {
  }

  /** The bottom level: takes items from one node until it is exhausted or the request is full. */
  method GrabItems(t: RadixTree, node: Node, results: array<TreeLeaf?>, off: nat, index: Key, maxItems: nat)
    returns (nrFound: nat, next: Key)
    requires t.Sealed() && t.height >= 1 && maxItems >= 1 && off + maxItems <= results.Length
    requires Pos(1, Prefix(index, 1)) in t.cells && node == t.cells[Pos(1, Prefix(index, 1))].node
    modifies results
    ensures next == 0 || next > index
    ensures nrFound == |Scan(t.m, index, End(next))| <= maxItems
    ensures Filled(old(results[..]), results[..], off, t.m, Scan(t.m, index, End(next)))
  {
    ghost var m, q, first := t.m, Pos(1, Prefix(index, 1)), results[..];
    var i := index % MAP_SIZE;
    nrFound, next := 0, index;
    ghost var cur: nat := index;
    while i < MAP_SIZE
      invariant i <= MAP_SIZE && cur == q.prefix * MAP_SIZE + i && index <= cur <= ULONG_LIMIT
      invariant next == cur % ULONG_LIMIT && (cur > index ==> End(next) == cur) && (i == MAP_SIZE ==> cur > index)
      invariant nrFound == |Scan(m, index, cur)| < maxItems
      invariant Filled(first, results[..], off, m, Scan(m, index, cur))
    {
      nrFound := GrabSlot(t, node, results, off, i, nrFound, q, first, index, cur);
      NextKey(cur);
      next := (next + 1) % ULONG_LIMIT;
      if nrFound == maxItems {
        return;
      }
      i, cur := i + 1, cur + 1;
    }
  }

  /** A tree of height 0 holds at most key 0. */
  lemma ScanFlat(t: Shape, m: Index)
    requires Linked(t, m) && t.height == 0
    ensures Scan(m, 0, ULONG_LIMIT) == if t.root != Null then [0] else []
  {
    forall k | 1 <= k < ULONG_LIMIT ensures k !in m {
      assert k in m ==> KeyOk(t, k);
    }
    ScanOne(m, 0, 0);
    assert Scan(m, 0, 0) == [];
    ScanSplit(m, 0, 1, ULONG_LIMIT);
    ScanEmpty(m, 1, ULONG_LIMIT);
  }

  /** Descends to the bottom node that may hold the next keys, skipping what is empty. */
  method DescendTo(t: RadixTree, index: Key) returns (found: bool, node: Node?, next: Key)
    requires t.Sealed() && t.height > 0 && t.rnode != Null && index <= MaxIndex(t.height)
    ensures !found ==> (next == 0 || next > index) && Scan(t.m, index, End(next)) == []
    ensures found ==>
      && index <= next && Scan(t.m, index, next) == []
      && Pos(1, Prefix(next, 1)) in t.cells && node == t.cells[Pos(1, Prefix(next, 1))].node
  {
    t.Open();
    var h: nat, shift := t.height, (t.height - 1) * MAP_SHIFT;
    FitsIffNoPrefix(index, h);
    node, next := t.rnode.node, index;
    while h > 1
      invariant 1 <= h <= t.height && shift == (h - 1) * MAP_SHIFT
      invariant index <= next && Scan(t.m, index, next) == []
      invariant Pos(h, Prefix(next, h)) in t.cells && node == t.cells[Pos(h, Prefix(next, h))].node
    {
      var i, next';
      found, i, next' := NextChild(t, node, h, shift, next);
      if !found {
        ScanSplit(t.m, index, next, End(next'));
        return false, null, next';
      }
      ScanSplit(t.m, index, next, next');
      StepDown(t.Tree(), t.m, next', h);
      next, shift := next', shift - MAP_SHIFT;
      node, h := node.slots[i].node, h - 1;
    }
    found := true;
  }

  /** A tree without nodes: the root pointer is the item of key 0. */
  method LookupFlat(t: RadixTree, results: array<TreeLeaf?>, off: nat, index: Key) returns (nrFound: nat)
    requires t.Sealed() && t.height == 0 && index == 0 && off < results.Length
    modifies results
    ensures nrFound == |Scan(t.m, index, ULONG_LIMIT)| <= 1
    ensures Filled(old(results[..]), results[..], off, t.m, Scan(t.m, index, ULONG_LIMIT))
  {
    t.Open();
    ScanFlat(t.Tree(), t.m);
    nrFound := 0;
    if t.rnode != Null {
      results[off] := t.rnode.leaf;
      nrFound := 1;
    }
  }

  /** No stored key lies above what the height can hold. */
  lemma Beyond(t: Shape, m: Index, index: Key)
    requires Linked(t, m) && index > MaxIndex(t.height)
    ensures Scan(m, index, ULONG_LIMIT) == []
  {
    forall k: Key | index <= k ensures k !in m {
      if k in m {
        KeyFits(t, m, k);
      }
      FitsIffNoPrefix(k, t.height);
    }
    ScanEmpty(m, index, ULONG_LIMIT);
  }

  /** Where nothing is stored up to `b` the scan may begin there. */
  lemma ScanFrom(m: Index, a: nat, b: nat, c: nat)
    requires a <= b <= c <= ULONG_LIMIT && Scan(m, a, b) == []
    ensures Scan(m, a, c) == Scan(m, b, c)
  {
    ScanSplit(m, a, b, c);
  }

  /** A round of the scan below a root node. */
  method LookupDeep(t: RadixTree, results: array<TreeLeaf?>, off: nat, index: Key, maxItems: nat)
    returns (nrFound: nat, next: Key)
    requires t.Sealed() && t.height > 0 && t.rnode != Null && index <= MaxIndex(t.height)
    requires maxItems >= 1 && off + maxItems <= results.Length
    modifies results
    ensures next == 0 || next > index
    ensures nrFound == |Scan(t.m, index, End(next))| <= maxItems
    ensures Filled(old(results[..]), results[..], off, t.m, Scan(t.m, index, End(next)))
  {
    var found, node, mid := DescendTo(t, index);
    nrFound, next := 0, mid;
    if found {
      nrFound, next := GrabItems(t, node, results, off, mid, maxItems);
      ScanFrom(t.m, index, mid, End(next));
    }
  }

  /**
   * One round of the scan: some keys from `index` on, and the index to continue with. It follows
   * the root pointer without a test: `fault` tells that this is null.
   */
  method LookupRange(t: RadixTree, results: array<TreeLeaf?>, off: nat, index: Key, maxItems: nat)
    returns (fault: bool, nrFound: nat, next: Key)
    requires t.Sealed() && index <= MaxIndex(t.height)
    requires maxItems >= 1 && off + maxItems <= results.Length
    modifies results
    ensures fault <==> !t.Rooted()
    ensures fault ==> results[..] == old(results[..])
    ensures !fault ==>
      && (next == 0 || next > index)
      && nrFound == |Scan(t.m, index, End(next))| <= maxItems
      && Filled(old(results[..]), results[..], off, t.m, Scan(t.m, index, End(next)))
  {
    fault, nrFound, next := false, 0, index;
    if t.height == 0 {
      FitsIffNoPrefix(index, 0);
      nrFound := LookupFlat(t, results, off, index);
    } else if t.rnode == Null {
      fault := true;
    } else {
      nrFound, next := LookupDeep(t, results, off, index, maxItems);
    }
  }

  /** The scan does not follow a null root pointer. */
  ghost predicate ScanSafe(t: RadixTree, firstIndex: Key, maxItems: nat)
    reads t
  {
    t.Rooted() || maxItems == 0 || firstIndex > MaxIndex(t.height)
  }

  /** The rounds of the scan: until there are enough items, or the end is reached. */
  method ScanRounds(t: RadixTree, results: array<TreeLeaf?>, firstIndex: Key, maxItems: nat)
    returns (fault: bool, ret: nat)
    requires t.Valid() && maxItems <= results.Length
    modifies results
    ensures fault <==> !ScanSafe(t, firstIndex, maxItems)
    ensures var all := Scan(t.m, firstIndex, ULONG_LIMIT);
      !fault ==>
        && ret == (if |all| <= maxItems then |all| else maxItems)
        && Filled(old(results[..]), results[..], 0, t.m, all[..ret])
  {
    t.Open();
    ghost var before := results[..];
    fault, ret := false, 0;
    var cur: Key := firstIndex;
    ghost var e: nat := firstIndex;
    while ret < maxItems
      invariant e == cur && firstIndex <= e && !fault && (e > firstIndex ==> t.Rooted())
      invariant ret == |Scan(t.m, firstIndex, e)| <= maxItems
      invariant Filled(before, results[..], 0, t.m, Scan(t.m, firstIndex, e))
      decreases ULONG_LIMIT - cur
    {
      if cur > MaxIndex(t.height) {
        Beyond(t.Tree(), t.m, cur);
        break;
      }
      ghost var mid := results[..];
      var nrFound, next;
      fault, nrFound, next := LookupRange(t, results, ret, cur, maxItems - ret);
      if fault {
        return;
      }
      ScanSplit(t.m, firstIndex, cur, End(next));
      FillMore(before, mid, results[..], 0, t.m, Scan(t.m, firstIndex, cur), Scan(t.m, cur, End(next)));
      ret, e := ret + nrFound, End(next);
      if next == 0 {
        break;
      }
      cur := next;
    }
    ScanSplit(t.m, firstIndex, e, ULONG_LIMIT);
  }

  /**
   * The range scan: exactly the first `maxItems` items with keys from `firstIndex` on, in
   * ascending key order, up to the very last key of the 64-bit space; or a fault, exactly when it
   * is not safe.
   */
  method GangLookup(t: RadixTree, results: array<TreeLeaf?>, firstIndex: Key, maxItems: nat)
    returns (fault: bool, ret: nat)
    requires t.Valid() && maxItems <= results.Length
    modifies results
    ensures fault <==> t.rnode == Null && maxItems > 0 && t.height > 0 && firstIndex <= MaxIndex(t.height)
    ensures fault <==> !ScanSafe(t, firstIndex, maxItems)
    ensures var all := Scan(t.m, firstIndex, ULONG_LIMIT);
      !fault ==>
        && ret == (if |all| <= maxItems then |all| else maxItems)
        && Filled(old(results[..]), results[..], 0, t.m, all[..ret])
        && (forall i | 0 <= i < ret :: all[i] in t.m && results[i] == t.m[all[i]])
        && (forall i | ret <= i < results.Length :: results[i] == old(results[i]))
  {
    ghost var before := results[..];
    fault, ret := ScanRounds(t, results, firstIndex, maxItems);
    if !fault {
      ghost var all: seq<Key> := Scan(t.m, firstIndex, ULONG_LIMIT);
      FilledAt(before, results[..], t.m, all[..ret]);
    }
  }

  /** An input for which the scan faults: the first insertion into an empty tree has failed. */
  method ScanAfterFailure(item: TreeLeaf) returns (error: int, fault: bool)
    ensures error == -ENOMEM && fault
  {
    var t := new RadixTree(0);
    var results, replaced, ret := new TreeLeaf?[1], null, 0;
    assert Prefix(1, 1) == 0 && HeightNeeded(1, 0) == 1;
    error, replaced := t.Insert(1, item);
    fault, ret := GangLookup(t, results, 0, 1);
  }
}
