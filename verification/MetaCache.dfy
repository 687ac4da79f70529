// The metadata cache of one volume: the leaves in the radix tree and in the LRU list.
// The tree lock is held throughout every find, update, invalidate and kick.
module MetaCache {
  import opened Words
  import opened RadixKeys
  import opened RadixShape
  import opened RadixNeeds
  import opened RadixTrees
  import opened RadixScans
  import opened TreeLeaves
  import opened CacheModel
  import opened Options
  import opened CacheHistories
  import opened CacheBatches
  import opened CacheFinds
  import CacheRuns
  import opened CacheEffects
  import opened CacheMemories

  /**
   * How an update found things: the cache, whether the tree was tidy, its memory for nodes, whether
   * it had the root it needs, and whether it can have it with the first block stored.
   */
  datatype Update = Update(c: Cache, tidy: bool, memory: nat, rooted: bool, root: bool, start: Key,
                           values: seq<MetaData>)

  ghost predicate RootOk(u: Update) {
    && (u.c.m != map[] ==> u.rooted && u.root)
    && (u.c.m == map[] && u.tidy ==> u.rooted && (u.root <==> u.memory > 0 || u.start == 0))
    && (u.rooted && !u.root ==> u.c.m == map[] && u.memory == 0 && u.start > 0)
  }

  class Volume {
    const tree: RadixTree
    const cacheSize: nat
    var lru: seq<TreeLeaf>
    var cacheNum: int

    /** The same cache as a value, and the steps that led to it. */
    ghost var st: Cache
    ghost var log: History

    /** The heap agrees with the value. */
    ghost predicate Mirrors()
      reads `lru, `cacheNum, `st, st.leaves.Keys
    {
      && lru == st.lru && cacheNum == |st.m|
      && (forall leaf {:trigger st.leaves[leaf]} | leaf in st.leaves ::
            && leaf.flagRefcnt == Pack(st.leaves[leaf].word)
            && leaf.blkid == st.leaves[leaf].key
            && leaf.data == st.leaves[leaf].data)
    }

    /** And the value is where the steps lead. */
    ghost predicate Consistent()
      reads `lru, `cacheNum, `st, `log, st.leaves.Keys
    {
      Mirrors() && Run(log) == Some(st)
    }

    /** The same, kept closed for methods that only pass it on. */
    ghost predicate Closed()
      reads `lru, `cacheNum, `st, `log, st.leaves.Keys
    {
      forall x {:trigger Opens(x)} :: Opens(x) ==> Consistent()
    }

    lemma Open()
      ensures Closed() <==> Consistent()
    {
      assert Opens(0);
    }

    /** What the fields hold. */
    lemma Now()
      requires Closed()
      ensures Inv(st) && Run(log) == Some(st) && lru == st.lru && cacheNum == |st.m|
    {
      Open();
      RunKeeps(log);
    }

    lemma LeafNow(leaf: TreeLeaf)
      requires Closed() && leaf in st.leaves
      ensures leaf.blkid == st.leaves[leaf].key && leaf.data == st.leaves[leaf].data
    {
      Open();
    }

    ghost predicate Valid()
      reads this, st.leaves.Keys, tree, tree.Repr
    {
      tree.Sealed() && tree.m == st.m && Closed()
    }

    constructor (cacheSize: nat, memory: nat)
      ensures Valid() && st == EMPTY && this.cacheSize == cacheSize && tree.memory == memory && Tidy(tree.Tree())
      ensures fresh(tree) && fresh(tree.Repr)
    {
      tree := new RadixTree(memory);
      this.cacheSize := cacheSize;
      lru, cacheNum := [], 0;
      st, log := EMPTY, Start;
      new;
      tree.Open();
      Open();
    }

    /** Between two calls the allocator may get more memory for nodes, or lose some. */
    method MemoryChanges(memory: nat)
      requires Valid()
      modifies tree`memory
      ensures Valid() && tree.memory == memory
    {
      tree.Open();
      tree.MemoryChanges(memory);
      tree.Open();
    }

    /** Deletions and evictions keep the nodes, and what is good about the shape of the tree. */
    twostate predicate TreeKept()
      reads tree, tree.Repr
    {
      && tree.Repr == old(tree.Repr) && tree.memory == old(tree.memory)
      && (old(tree.Rooted()) ==> tree.Rooted())
      && (old(Tidy(tree.Tree())) ==> Tidy(tree.Tree()))
    }

    /** All that happened to the cache are further steps. */
    twostate predicate Goes()
      reads `log
    {
      Extends(log, old(log))
    }

    /** Overwrites the word of a leaf. */
    method StoreWord(leaf: TreeLeaf, word: nat, ghost e: Entry)
      requires Mirrors() && leaf in st.leaves && word == Pack(e.word)
      requires e.key == st.leaves[leaf].key && e.data == st.leaves[leaf].data
      modifies `st, leaf`flagRefcnt
      ensures Mirrors() && st == old(With(st, leaf, e))
    {
      leaf.flagRefcnt := word;
      st := With(st, leaf, e);
    }

    /** Gives a leaf back to the pool; its reader count must be 0. */
    method ReleaseLeaf(leaf: TreeLeaf)
      requires Mirrors() && leaf in st.leaves && RefCount(leaf.flagRefcnt) == 0
      modifies `st
      ensures Mirrors() && st == old(With(st, leaf, Freed(st.leaves[leaf])))
    {
      st := With(st, leaf, Freed(st.leaves[leaf]));
    }

    /** `++leaf->flag_refcnt`. */
    method IncRef(leaf: TreeLeaf)
      requires Mirrors() && leaf in st.leaves && 0 <= st.leaves[leaf].word.count < MAX_HOLDS
      modifies `st, leaf`flagRefcnt
      ensures Mirrors() && st == old(With(st, leaf, OneMore(st.leaves[leaf])))
    {
      PackFacts(st.leaves[leaf].word);
      StoreWord(leaf, Inc(leaf.flagRefcnt), OneMore(st.leaves[leaf]));
    }

    /** `--leaf->flag_refcnt`, and whether that leaves a marked leaf without readers. */
    method DecRef(leaf: TreeLeaf) returns (last: bool)
      requires Mirrors() && leaf in st.leaves && 0 < st.leaves[leaf].word.count <= MAX_HOLDS
      modifies `st, leaf`flagRefcnt
      ensures Mirrors() && st == old(With(st, leaf, OneLess(st.leaves[leaf])))
      ensures last == (st.leaves[leaf].word.deleted && st.leaves[leaf].word.count == 0)
      ensures last ==> RefCount(leaf.flagRefcnt) == 0
    {
      PackFacts(st.leaves[leaf].word);
      PackFacts(OneLess(st.leaves[leaf]).word);
      StoreWord(leaf, Dec(leaf.flagRefcnt), OneLess(st.leaves[leaf]));
      last := IsDelete(leaf.flagRefcnt) && RefCount(leaf.flagRefcnt) == 0;
    }

    /** A find hit: takes a reference and moves the leaf to the front. */
    method TouchLeaf(leaf: TreeLeaf)
      requires Closed() && Enabled(st, Touch(leaf))
      modifies `lru, `st, `log, leaf`flagRefcnt
      ensures Closed() && st == old(Touched(st, leaf)) && log == Then(old(log), Touch(leaf))
    {
      Open();
      Continue(log, Touch(leaf));
      StepWord(st, Touch(leaf));
      ghost var c := st;
      IncRef(leaf);
      lru := ToFront(lru, leaf);
      st := st.(lru := lru);
      log := Then(log, Touch(leaf));
      assert st == Touched(c, leaf);
      Open();
    }

    /** The word of a put; the last reader of a marked leaf frees it. */
    method PutWord(leaf: TreeLeaf)
      requires Mirrors() && leaf in st.leaves && 0 < st.leaves[leaf].word.count <= MAX_HOLDS
      modifies `st, leaf`flagRefcnt
      ensures Mirrors() && st == old(PutBack(st, leaf))
    {
      ghost var c := st;
      var last := DecRef(leaf);
      if last {
        ReleaseLeaf(leaf);
      }
      assert st.leaves == PutBack(c, leaf).leaves;
    }

    /** One reader is done with a leaf. */
    method PutLeaf(leaf: TreeLeaf)
      requires Closed() && Enabled(st, Put(leaf))
      modifies `st, `log, leaf`flagRefcnt
      ensures Closed() && st == old(PutBack(st, leaf)) && log == Then(old(log), Put(leaf))
    {
      Open();
      Continue(log, Put(leaf));
      StepWord(st, Put(leaf));
      PutWord(leaf);
      log := Then(log, Put(leaf));
      Open();
    }

    /** The word of a leaf that left the tree: it is marked if it has readers, else the leaf is freed. */
    method SettleWord(leaf: TreeLeaf)
      requires Mirrors() && leaf in st.leaves && 0 <= st.leaves[leaf].word.count <= MAX_HOLDS
      modifies `st, leaf`flagRefcnt
      ensures Mirrors() && st == old(Settled(st, leaf))
    {
      ghost var c, e := st, st.leaves[leaf].(pending := false);
      PackFacts(e.word);
      if RefCount(leaf.flagRefcnt) > 0 {
        StoreWord(leaf, SetDelete(leaf.flagRefcnt), e.(word := e.word.(deleted := true)));
      } else {
        st := With(st, leaf, e);
        ReleaseLeaf(leaf);
      }
      assert st.leaves == Settled(c, leaf).leaves;
    }

    /** A leaf that left the tree is freed, or marked for its last reader to free. */
    method SettleLeaf(leaf: TreeLeaf)
      requires Closed() && Enabled(st, Settle(leaf))
      modifies `st, `log, leaf`flagRefcnt
      ensures Closed() && st == old(Settled(st, leaf)) && log == Then(old(log), Settle(leaf))
    {
      Open();
      Continue(log, Settle(leaf));
      StepWord(st, Settle(leaf));
      SettleWord(leaf);
      log := Then(log, Settle(leaf));
      Open();
    }

    /** One after the other. */
    method PutBasket(count: nat, basket: array<TreeLeaf?>)
      requires Closed() && count <= basket.Length
      requires PutAll(st, basket[..], count).Some?
      modifies `st, `log, st.leaves.Keys
      ensures Closed() && Goes() && Some(st) == old(PutAll(st, basket[..], count))
      ensures st.leaves.Keys == old(st.leaves.Keys)
    {
      ghost var b, c := basket[..], st;
      var i := 0;
      while i < count
        invariant i <= count && basket[..] == b && Closed() && st.leaves.Keys == c.leaves.Keys
        invariant PutAll(c, b, i) == Some(st) && Goes()
      {
        PutPrefix(c, b, i + 1, count);
        var leaf := basket[i];
        if leaf != null {
          PutLeaf(leaf);
          assert Extends(log, log.before);
        }
        i := i + 1;
      }
    }

    /** Gives back every leaf in the basket. The tree lock is not needed. */
    method CachePut(count: nat, basket: array<TreeLeaf?>)
      requires Closed() && count <= basket.Length
      requires PutAll(st, basket[..], count).Some?
      modifies `st, `log, st.leaves.Keys
      ensures Closed() && Goes() && GivenBack(old(st), st, basket[..], count)
      ensures CacheRuns.OpResult(old(st), CacheRuns.GiveBack(basket[..], count), cacheSize) == Some(st)
    {
      ghost var b, c := basket[..], st;
      PutBasket(count, basket);
      PutEffect(c, b, count, st);
    }

    /** The list half of it. */
    method UnlinkLeaf(leaf: TreeLeaf)
      requires Mirrors() && leaf in st.leaves && st.leaves[leaf].key in st.m
      modifies `lru, `cacheNum, `st
      ensures Mirrors() && st == old(Detached(st, leaf))
    {
      lru := Without(lru, leaf);
      cacheNum := cacheNum - 1;
      assert (st.m - {st.leaves[leaf].key}).Keys == st.m.Keys - {st.leaves[leaf].key};
      st := Detached(st, leaf);
    }

    /** Unlinks from the list a leaf that the tree no longer holds. */
    method DetachLeaf(leaf: TreeLeaf)
      requires Closed() && Enabled(st, Detach(leaf))
      modifies `lru, `cacheNum, `st, `log
      ensures Closed() && st == old(Detached(st, leaf)) && log == Then(old(log), Detach(leaf))
      ensures Enabled(st, Settle(leaf))
    {
      Open();
      Continue(log, Detach(leaf));
      UnlinkLeaf(leaf);
      log := Then(log, Detach(leaf));
      Open();
    }

    /** The list half of taking a leaf out of the cache. */
    method RetireLeaf(leaf: TreeLeaf)
      requires Closed() && InTree(st, leaf)
      modifies `lru, `cacheNum, `st, `log, leaf`flagRefcnt
      ensures Closed() && Goes() && st == old(Retired(st, leaf))
    {
      Now();
      RetireKeeps(st, leaf);
      DetachLeaf(leaf);
      SettleLeaf(leaf);
      assert Extends(log.before, old(log));
    }

    /** The tree does not notice. */
    method RetireBesideTree(leaf: TreeLeaf)
      requires tree.Sealed() && Closed() && InTree(st, leaf)
      modifies `lru, `cacheNum, `st, `log, leaf`flagRefcnt
      ensures tree.Sealed() && TreeKept() && tree.m == old(tree.m)
      ensures Closed() && Goes() && st == old(Retired(st, leaf))
    {
      RetireLeaf(leaf);
    }

    /** The tree half; the list and the leaves do not notice. */
    method TreeDelete(key: Key) returns (leaf: TreeLeaf?)
      requires tree.Sealed() && Closed()
      modifies tree, tree.Repr
      ensures tree.Sealed() && Closed() && tree.m == old(tree.m) - {key}
      ensures TreeKept()
      ensures leaf == if key in old(tree.m) then old(tree.m)[key] else null
    {
      tree.Open();
      leaf := tree.Delete(key);
      tree.Open();
    }

    /** Takes one cached block out: of the tree, of the list, and out of the world unless it is held. */
    method RetireBlock(key: Key)
      requires Valid()
      modifies `lru, `cacheNum, `st, `log, st.leaves.Keys, tree, tree.Repr
      ensures Valid() && TreeKept() && st.leaves.Keys == old(st.leaves.Keys)
      ensures Goes() && st == old(RetireKey(st, key))
    {
      Now();
      ghost var d := RetireKeyIs(st, key);
      var leaf := TreeDelete(key);
      if leaf != null {
        RetireBesideTree(leaf);
      }
      assert st == d;
    }

    /** Takes out the blocks of a range, one after the other. */
    method RetireBlocks(start: Key, count: nat)
      requires Valid()
      modifies `lru, `cacheNum, `st, `log, st.leaves.Keys, tree, tree.Repr
      ensures Valid() && TreeKept() && st.leaves.Keys == old(st.leaves.Keys)
      ensures Goes() && st == old(RetireRange(st, start, count))
    {
      ghost var c := st;
      var i := 0;
      while i < count
        invariant i <= count && Valid() && TreeKept() && Goes()
        invariant st == RetireRange(c, start, i) && st.leaves.Keys == c.leaves.Keys
      {
        ghost var g := log;
        RetireBlock(KeyAt(start, i));
        ExtendsOn(log, g, old(log));
        i := i + 1;
      }
    }

    /**
     * Drops every cached block of a range: those less than `count` behind the start, on 64 bits. The
     * others stay, their leaves in their old order.
     */
    method CacheInvalidate(start: Key, count: nat)
      requires Valid()
      modifies `lru, `cacheNum, `st, `log, st.leaves.Keys, tree, tree.Repr
      ensures Valid() && TreeKept() && Goes() && st.leaves.Keys == old(st.leaves.Keys)
      ensures Invalidated(old(st), st, start, count) && lru == st.lru && cacheNum == |lru|
      ensures CacheRuns.OpResult(old(st), CacheRuns.Invalidate(start, count), cacheSize) == Some(st)
    {
      SizesNow();
      ghost var c := st;
      RetireBlocks(start, count);
      InvalidateEffect(c, start, count, st);
      SizesNow();
    }

    /** Evicts one leaf, unless the condition spares it. */
    method KickLeaf(leaf: TreeLeaf, keep: MetaData -> bool) returns (kicked: bool)
      requires Valid() && InTree(st, leaf)
      modifies `lru, `cacheNum, `st, `log, st.leaves.Keys, tree, tree.Repr
      ensures Valid() && TreeKept() && st.leaves.Keys == old(st.leaves.Keys)
      ensures Goes() && kicked == !keep(old(st.leaves[leaf].data))
      ensures st == old(if keep(st.leaves[leaf].data) then st else Retired(st, leaf))
    {
      Now();
      LeafNow(leaf);
      kicked := !keep(leaf.data);
      if kicked {
        RetireBlock(leaf.blkid);
      }
    }

    /** The round of an eviction that looks at list position `i`, after `n` others. */
    method KickOne(i: nat, keep: MetaData -> bool, ghost c: Cache, ghost limit: int, ghost n: nat, ghost e: Eviction)
      returns (kicked: bool, ghost f: Eviction)
      requires Valid() && i + n + 1 == |c.lru|
      requires Evicting(c, limit, keep, n, e) && e.cache == st && e.left != 0
      modifies `lru, `cacheNum, `st, `log, st.leaves.Keys, tree, tree.Repr
      ensures Valid() && TreeKept() && Goes()
      ensures Evicting(c, limit, keep, n + 1, f) && f.cache == st && f.left == e.left - if kicked then 1 else 0
      ensures st.leaves.Keys == old(st.leaves.Keys)
    {
      Now();
      f := EvictingNext(c, limit, keep, n, e, i);
      kicked := KickLeaf(lru[i], keep);
    }

    /** The loop of an eviction; it stops early when it has taken its last leaf. */
    method KickLoop(count: int, total: int, keep: MetaData -> bool, ghost c: Cache, ghost limit: int)
      returns (ghost n: nat, ghost e: Eviction)
      requires Valid() && c == st
      requires if count == -1 then limit < 0 else limit == Max(total, 1)
      modifies `lru, `cacheNum, `st, `log, st.leaves.Keys, tree, tree.Repr
      ensures Valid() && TreeKept() && Goes()
      ensures st.leaves.Keys == old(st.leaves.Keys)
      ensures n <= |c.lru| && Evicting(c, limit, keep, n, e) && e.cache == st
      ensures e.left != 0 ==> n == |c.lru|
    {
      var nr, i := 0, |lru|;
      n, e := 0, Eviction(c, limit);
      assert lru == c.lru && Evicting(c, limit, keep, n, e) by {
        Now();
        EvictingStart(c, limit, keep);
      }
      while i > 0
        invariant 0 <= i == |c.lru| - n && Valid()
        invariant TreeKept() && Goes() && st.leaves.Keys == c.leaves.Keys
        invariant Evicting(c, limit, keep, n, e) && e.cache == st
        invariant if count == -1 then e.left < 0 else nr == limit - e.left && e.left > 0
      {
        i := i - 1;
        var kicked;
        ghost var g := log;
        kicked, e := KickOne(i, keep, c, limit, n, e);
        ExtendsOn(log, g, old(log));
        n := n + 1;
        if kicked && count != -1 {
          nr := nr + 1;
          if nr >= total {
            return;
          }
        }
      }
    }

    /** An eviction, as the loop with its limit. */
    method Evict(count: int, keep: MetaData -> bool)
      requires Valid() && -0x8000_0000 <= count < 0x8000_0000
      modifies `lru, `cacheNum, `st, `log, st.leaves.Keys, tree, tree.Repr
      ensures Valid() && TreeKept() && st.leaves.Keys == old(st.leaves.Keys)
      ensures Goes() && st == old(Evicted(st, KickLimit(count, cacheNum), keep, |st.lru|).cache)
    {
      Now();
      var total := count % WORD_LIMIT;
      if count == -1 || count > cacheNum {
        total := cacheNum;
      }
      ghost var c, limit := st, KickLimit(count, cacheNum);
      ghost var n, e := KickLoop(count, total, keep, c, limit);
      EvictingIs(c, limit, keep, n, e);
      if n < |c.lru| {
        EvictionOver(c, limit, keep, n, |c.lru|);
      }
    }

    /** What the fields hold, with the sizes. */
    lemma SizesNow()
      requires Closed()
      ensures Inv(st) && lru == st.lru && cacheNum == |st.m| == |lru|
    {
      Now();
      ListSize(st);
    }

    /**
     * Evicts leaves from the tail of the list: `count` of them, or all when it is -1, leaving
     * those that the condition spares. (A count of 0 evicts one.) From position `p` of the list on
     * all go that are not spared.
     */
    method Kick(count: int, keep: MetaData -> bool) returns (ghost p: nat)
      requires Valid() && -0x8000_0000 <= count < 0x8000_0000
      modifies `lru, `cacheNum, `st, `log, st.leaves.Keys, tree, tree.Repr
      ensures Valid() && TreeKept() && st.leaves.Keys == old(st.leaves.Keys)
      ensures Goes() && st == old(Evicted(st, KickLimit(count, cacheNum), keep, |st.lru|).cache)
      ensures Kicked(old(st), st, count, keep, p) && lru == st.lru && cacheNum == |lru|
      ensures count == -1 ==> AllKicked(old(st), st, keep)
      ensures CacheRuns.OpResult(old(st), CacheRuns.Kick(count, keep), cacheSize) == Some(st)
    {
      SizesNow();
      ghost var c := st;
      p := KickEffect(c, count, keep);
      Evict(count, keep);
      SizesNow();
      if count == -1 {
        KickAll(c, st, keep, p);
      }
    }

    /** The tree half of storing a block; the list and the leaves do not notice. */
    method TreeInsert(key: Key, leaf: TreeLeaf) returns (error: int, replaced: TreeLeaf?)
      requires tree.Sealed() && Closed()
      modifies tree, tree.Repr
      ensures tree.Sealed() && Closed() && fresh(tree.Repr - old(tree.Repr))
      ensures error == if old(tree.memory < NodesNeeded(tree.Tree(), key)) then -ENOMEM else 0
      ensures tree.memory == if error == 0 then old(tree.memory - NodesNeeded(tree.Tree(), key)) else 0
      ensures (tree.Rooted() <==> old(RootAfter(key))) && (error == 0 ==> tree.rnode != Null)
      ensures error == 0 && old(Tidy(tree.Tree())) ==> Tidy(tree.Tree())
      ensures error == 0 ==>
        && tree.m == old(tree.m)[key := leaf]
        && replaced == if key in old(tree.m) then old(tree.m)[key] else null
      ensures error != 0 ==> tree.m == old(tree.m)
    {
      tree.Open();
      error, replaced := tree.Insert(key, leaf);
      tree.Open();
      assert error == 0 ==> key in tree.m;
      tree.StoredMeansRoot();
    }

    /** Whether there will be a root where one is needed, after storing a block. */
    ghost predicate RootAfter(key: Key)
      reads tree
    {
      tree.rnode != Null || tree.memory > 0 || (tree.height == 0 && key == 0)
    }

    /** The list half: the new leaf goes to the front, the replaced one out. */
    method LinkLeaf(leaf: TreeLeaf, key: Key, value: MetaData, replaced: TreeLeaf?)
      requires Mirrors() && leaf !in st.leaves && (key in st.m ==> st.m[key] in st.leaves)
      requires leaf.blkid == key && leaf.data == value && leaf.flagRefcnt == 0
      requires replaced == if key in st.m then st.m[key] else null
      modifies `lru, `cacheNum, `st
      ensures Mirrors() && st == old(Attached(st, leaf, key, value))
    {
      lru := [leaf] + lru;
      cacheNum := cacheNum + 1;
      if replaced != null {
        lru := Without(lru, replaced);
        cacheNum := cacheNum - 1;
      }
      st := Attached(st, leaf, key, value);
    }

    method AttachLeaf(leaf: TreeLeaf, key: Key, value: MetaData, replaced: TreeLeaf?)
      requires Closed() && leaf !in st.leaves
      requires leaf.blkid == key && leaf.data == value && leaf.flagRefcnt == 0
      requires replaced == if key in st.m then st.m[key] else null
      modifies `lru, `cacheNum, `st, `log
      ensures Closed() && st == old(Attached(st, leaf, key, value))
      ensures log == Then(old(log), Attach(leaf, key, value))
    {
      Open();
      Continue(log, Attach(leaf, key, value));
      LinkLeaf(leaf, key, value, replaced);
      log := Then(log, Attach(leaf, key, value));
      Open();
    }

    /** Storing a block: the leaf it replaces is freed, or marked for its last reader to free. */
    method StoreLeaf(leaf: TreeLeaf, key: Key, value: MetaData, replaced: TreeLeaf?)
      requires Closed() && leaf !in st.leaves
      requires leaf.blkid == key && leaf.data == value && leaf.flagRefcnt == 0
      requires replaced == if key in st.m then st.m[key] else null
      modifies `lru, `cacheNum, `st, `log, st.leaves.Keys
      ensures Closed() && Goes() && st == old(Stored(st, leaf, key, value))
      ensures st.leaves.Keys == old(st.leaves.Keys) + {leaf}
    {
      Now();
      StoredFacts(st, leaf, key, value);
      AttachLeaf(leaf, key, value, replaced);
      if replaced != null {
        SettleLeaf(replaced);
        assert Extends(log.before, old(log));
      }
    }

    /** The tree does not notice. */
    method AttachBesideTree(leaf: TreeLeaf, key: Key, value: MetaData, replaced: TreeLeaf?)
      requires tree.Sealed() && Closed() && leaf !in st.leaves
      requires leaf.blkid == key && leaf.data == value && leaf.flagRefcnt == 0
      requires replaced == if key in st.m then st.m[key] else null
      modifies `lru, `cacheNum, `st, `log, st.leaves.Keys
      ensures tree.Sealed() && TreeKept() && tree.m == old(tree.m)
      ensures Closed() && Goes() && st == old(Stored(st, leaf, key, value))
      ensures st.leaves.Keys == old(st.leaves.Keys) + {leaf}
    {
      StoreLeaf(leaf, key, value, replaced);
    }

    /** Stores one block in a new leaf, unless the tree runs out of nodes. */
    method StoreBlock(leaf: TreeLeaf, key: Key, value: MetaData) returns (error: int)
      requires Valid() && leaf !in st.leaves
      requires leaf.blkid == key && leaf.data == value && leaf.flagRefcnt == 0
      modifies `lru, `cacheNum, `st, `log, st.leaves.Keys, tree, tree.Repr
      ensures Valid() && fresh(tree.Repr - old(tree.Repr))
      ensures error == if old(tree.memory < NodesNeeded(tree.Tree(), key)) then -ENOMEM else 0
      ensures tree.memory == if error == 0 then old(tree.memory - NodesNeeded(tree.Tree(), key)) else 0
      ensures (tree.Rooted() <==> old(RootAfter(key))) && (error == 0 ==> tree.rnode != Null)
      ensures error == 0 && old(Tidy(tree.Tree())) ==> Tidy(tree.Tree())
      ensures Goes() && st.leaves.Keys <= old(st.leaves.Keys) + {leaf}
      ensures st == if error == 0 then old(Stored(st, leaf, key, value)) else old(st)
    {
      var replaced;
      error, replaced := TreeInsert(key, leaf);
      if error == 0 {
        AttachBesideTree(leaf, key, value, replaced);
      }
    }

    /** Value number `i`, after those before it went into the leaves `ls`. */
    method StoreNext(start: Key, value: MetaData, i: nat, ghost c: Cache, ghost ls: seq<TreeLeaf>,
                     ghost values: seq<MetaData>)
      returns (error: int, ghost more: seq<TreeLeaf>)
      requires Valid() && |ls| == i < |values| && value == values[i] && Storing(c, ls, start, values, i, st)
      modifies `lru, `cacheNum, `st, `log, st.leaves.Keys, tree, tree.Repr
      ensures Valid() && Goes() && fresh(tree.Repr - old(tree.Repr)) && fresh(st.leaves.Keys - old(st.leaves.Keys))
      ensures error == if old(tree.memory < NodesNeeded(tree.Tree(), KeyAt(start, i))) then -ENOMEM else 0
      ensures tree.memory == if error == 0 then old(tree.memory - NodesNeeded(tree.Tree(), KeyAt(start, i))) else 0
      ensures (tree.Rooted() <==> old(RootAfter(KeyAt(start, i)))) && (error == 0 ==> tree.rnode != Null)
      ensures error == 0 && old(Tidy(tree.Tree())) ==> Tidy(tree.Tree())
      ensures |more| == (if error == 0 then i + 1 else i) && Storing(c, more, start, values, |more|, st)
    {
      more := ls;
      var leaf := new TreeLeaf(value, KeyAt(start, i));
      StoringMore(c, st, ls, leaf, start, values, i);
      error := StoreBlock(leaf, KeyAt(start, i), value);
      if error == 0 {
        more := ls + [leaf];
      }
    }

    /** What storing the next block of a range costs. */
    lemma NextCost(c: Cache, ls: seq<TreeLeaf>, start: Key, values: seq<MetaData>, i: nat, memory: nat)
      requires Valid() && Tidy(tree.Tree()) && Inv(c) && i <= |ls| && i <= |values|
      requires Storing(c, ls, start, values, i, st) && Spent(c.m.Keys, memory, start, i, tree.memory)
      ensures var needed := NodesNeeded(tree.Tree(), KeyAt(start, i));
        && (needed <= tree.memory <==> Enough(c.m.Keys, memory, start, i + 1))
        && (needed <= tree.memory ==> Spent(c.m.Keys, memory, start, i + 1, tree.memory - needed))
      ensures Enough(c.m.Keys, memory, start, i)
    {
      SpentEnough(c.m.Keys, memory, start, i, tree.memory);
      tree.Open();
      CacheRuns.StoringKeys(c, ls, start, values, i, st);
      NeededIsGrowth(tree.Tree(), tree.m, KeyAt(start, i));
      SpendMore(c.m.Keys, memory, start, i, tree.memory, NodesNeeded(tree.Tree(), KeyAt(start, i)));
    }

    lemma FewNodes(key: Key)
      requires Valid()
      ensures NodesNeeded(tree.Tree(), key) <= MOST_NODES
    {
      tree.Open();
      Open();
      NeededMost(tree.Tree(), key);
    }

    /** An update that started with the cache `u.c` has stored `i` values in the leaves `ls`. */
    ghost predicate Underway(u: Update, ls: seq<TreeLeaf>, i: nat)
      reads this, st.leaves.Keys, tree, tree.Repr
    {
      && Valid() && Inv(u.c) && |ls| == i <= |u.values| && Storing(u.c, ls, u.start, u.values, i, st)
      && (u.tidy ==> Tidy(tree.Tree()) && Spent(u.c.m.Keys, u.memory, u.start, i, tree.memory))
      && tree.memory >= u.memory - MOST_NODES * i
      && (i == 0 ==> tree.memory == u.memory && tree.Rooted() == u.rooted && RootAfter(u.start) == u.root)
      && (i > 0 ==> u.root && tree.rnode != Null)
    }

    /** The same, kept closed for the loop that only passes it on. */
    ghost predicate OnTheWay(u: Update, ls: seq<TreeLeaf>, i: nat)
      reads this, st.leaves.Keys, tree, tree.Repr
    {
      forall x {:trigger Opens(x)} :: Opens(x) ==> Underway(u, ls, i)
    }

    lemma OnTheWayIs(u: Update, ls: seq<TreeLeaf>, i: nat)
      ensures OnTheWay(u, ls, i) <==> Underway(u, ls, i)
    {
      assert Opens(0);
    }

    /** How an update that was to store at most `most` values has ended. */
    ghost predicate Ended(u: Update, ls: seq<TreeLeaf>, most: nat)
      reads this, st.leaves.Keys, tree, tree.Repr
    {
      && Valid() && |ls| <= most && Storing(u.c, ls, u.start, u.values, |ls|, st)
      && (u.tidy ==> AsManyAsFit(u.c.m.Keys, u.memory, u.start, most, |ls|))
      && (u.tidy && |ls| == most ==> Tidy(tree.Tree()))
      && (|ls| < most ==> tree.memory == 0 && u.memory < MOST_NODES * most)
      && (tree.Rooted() <==> if most == 0 then u.rooted else u.root)
    }

    /** It stops when all is stored that was to be. */
    lemma Complete(u: Update, ls: seq<TreeLeaf>, i: nat)
      requires OnTheWay(u, ls, i)
      ensures Ended(u, ls, i)
    {
      OnTheWayIs(u, ls, i);
      if u.tidy {
        SpentEnough(u.c.m.Keys, u.memory, u.start, i, tree.memory);
        LastThatFits(u.c.m.Keys, u.memory, u.start, i, i);
      }
    }

    /** One more value is stored. */
    lemma Continues(u: Update, more: seq<TreeLeaf>, i: nat)
      requires Valid() && Inv(u.c) && |more| == i + 1 <= |u.values|
      requires Storing(u.c, more, u.start, u.values, i + 1, st) && u.root && tree.rnode != Null
      requires u.tidy ==> Tidy(tree.Tree()) && Spent(u.c.m.Keys, u.memory, u.start, i + 1, tree.memory)
      requires tree.memory >= u.memory - MOST_NODES * (i + 1)
      ensures OnTheWay(u, more, i + 1)
    {
      OnTheWayIs(u, more, i + 1);
    }

    /** Or the tree has run out of nodes. */
    lemma Stops(u: Update, ls: seq<TreeLeaf>, most: nat)
      requires Valid() && |ls| < most && Storing(u.c, ls, u.start, u.values, |ls|, st)
      requires tree.memory == 0 && u.memory < MOST_NODES * most && (tree.Rooted() <==> u.root)
      requires u.tidy ==>
        Enough(u.c.m.Keys, u.memory, u.start, |ls|) && !Enough(u.c.m.Keys, u.memory, u.start, |ls| + 1)
      ensures Ended(u, ls, most)
    {
      if u.tidy {
        LastThatFits(u.c.m.Keys, u.memory, u.start, most, |ls|);
      }
    }

    /** One round of it: a leaf for the next value, which is stored, or the tree runs out of nodes. */
    method StoreRound(value: MetaData, i: nat, most: nat, ghost u: Update, ghost ls: seq<TreeLeaf>, start: Key)
      returns (error: int, ghost more: seq<TreeLeaf>)
      requires OnTheWay(u, ls, i) && i < most <= |u.values| && value == u.values[i] && start == u.start
      modifies `lru, `cacheNum, `st, `log, st.leaves.Keys, tree, tree.Repr
      ensures Goes() && fresh(tree.Repr - old(tree.Repr)) && fresh(st.leaves.Keys - old(st.leaves.Keys))
      ensures error == 0 || error == -ENOMEM
      ensures |more| == (if error == 0 then i + 1 else i)
      ensures if error == 0 then OnTheWay(u, more, i + 1) else Ended(u, more, most)
    {
      OnTheWayIs(u, ls, i);
      FewNodes(KeyAt(start, i));
      FirstKey(start);
      MoreNodes(i, most);
      if u.tidy {
        NextCost(u.c, ls, start, u.values, i, u.memory);
      }
      error, more := StoreNext(start, value, i, u.c, ls, u.values);
      if error == 0 {
        Continues(u, more, i);
      } else {
        Stops(u, more, most);
      }
    }

    /**
     * Stores the values in leaves, of which there is memory for `leafMem`; stops at the first that
     * memory runs out for. The result does not report that when it was memory for a leaf, and not
     * for the first.
     */
    method StoreBlocks(start: Key, count: nat, values: array<MetaData>, leafMem: nat)
      returns (ret: int, ghost ls: seq<TreeLeaf>)
      requires Valid() && count <= values.Length
      modifies `lru, `cacheNum, `st, `log, st.leaves.Keys, tree, tree.Repr
      ensures Goes() && fresh(tree.Repr - old(tree.Repr)) && fresh(st.leaves.Keys - old(st.leaves.Keys))
      ensures Ended(old(Begun(start, values[..])), ls, Min(count, leafMem))
      ensures ret == if |ls| == count || 0 < |ls| == leafMem then 0 else -ENOMEM
    {
      ret, ls := -ENOMEM, [];
      ghost var u := Begun(start, values[..]);
      Beginning(u);
      var i := 0;
      while i < count
        invariant i <= Min(count, leafMem) && |ls| == i && ret == (if i == 0 then -ENOMEM else 0)
        invariant OnTheWay(u, ls, i) && Goes()
        invariant fresh(tree.Repr - old(tree.Repr)) && fresh(st.leaves.Keys - u.c.leaves.Keys)
      {
        if i >= leafMem {
          Complete(u, ls, i);
          return;
        }
        ghost var g := log;
        ret, ls := StoreRound(values[i], i, Min(count, leafMem), u, ls, start);
        ExtendsOn(log, g, old(log));
        if ret != 0 {
          return;
        }
        i := i + 1;
      }
      Complete(u, ls, i);
      ret := 0;
    }

    /** The update that starts now. */
    ghost function Begun(start: Key, values: seq<MetaData>): Update
      reads this, tree
    {
      Update(st, Tidy(tree.Tree()), tree.memory, tree.Rooted(), RootAfter(start), start, values)
    }

    lemma Beginning(u: Update)
      requires Valid() && u == Begun(u.start, u.values)
      ensures OnTheWay(u, [], 0)
    {
      Now();
      StoringNone(st, [], u.start, u.values);
      NothingSpent(st.m.Keys, tree.memory, u.start);
      OnTheWayIs(u, [], 0);
    }

    /** Making room, as an eviction. */
    method EvictExcess(count: nat)
      requires Valid() && RoomFits(count, cacheNum, cacheSize)
      modifies `lru, `cacheNum, `st, `log, st.leaves.Keys, tree, tree.Repr
      ensures Valid() && TreeKept() && st.leaves.Keys == old(st.leaves.Keys)
      ensures Goes() && st == RoomMade(old(st), Room(count, old(cacheNum), cacheSize))
    {
      assert cacheNum == |st.m| by {
        Now();
      }
      var i := cacheNum + count - cacheSize;
      if i > cacheSize {
        i := cacheSize;
      }
      if i > 0 {
        Evict(i, SpareNone);
      }
    }

    /**
     * Evicts what an update of `count` blocks needs room for: as many of the least recently used
     * leaves as the blocks would be too many, but no more than the cache size, and no others.
     */
    method MakeRoom(count: nat)
      requires Valid() && RoomFits(count, cacheNum, cacheSize)
      modifies `lru, `cacheNum, `st, `log, st.leaves.Keys, tree, tree.Repr
      ensures Valid() && TreeKept() && st.leaves.Keys == old(st.leaves.Keys)
      ensures Goes() && st == RoomMade(old(st), Room(count, old(cacheNum), cacheSize))
      ensures InRoom(old(st), st, count, cacheSize) && lru == st.lru && cacheNum == |lru|
    {
      SizesNow();
      ghost var room := RoomFacts(st, count, cacheSize);
      EvictExcess(count);
      SizesNow();
    }

    /** When the root that is needed can be had. */
    lemma RootFacts(u: Update)
      requires Valid() && u == Begun(u.start, u.values)
      ensures RootOk(u)
    {
      tree.StoredMeansRoot();
    }

    /** What an update says about the root in the end. */
    lemma RootOutcome(u: Update, ls: seq<TreeLeaf>, most: nat)
      requires RootOk(u) && Ended(u, ls, most)
      ensures u.tidy ==> (!tree.Rooted() <==> most > 0 && u.c.m == map[] && u.start > 0 && u.memory == 0)
      ensures u.rooted && !tree.Rooted() ==> most > 0 && u.c.m == map[] && u.start > 0 && u.memory == 0
      ensures u.rooted && |ls| == most ==> tree.Rooted()
    {
      if ls != [] {
        StoringIs(u.c, ls, u.start, u.values, |ls|, st);
        assert KeyAt(u.start, |ls| - 1) in st.m;
        tree.StoredMeansRoot();
      }
    }

    /** And about a success that is none. */
    lemma ResultOutcome(u: Update, ls: seq<TreeLeaf>, count: nat, leafMem: nat)
      requires Ended(u, ls, Min(count, leafMem))
      ensures u.tidy ==>
        (|ls| < count && 0 < |ls| == leafMem <==>
           0 < leafMem < count && Enough(u.c.m.Keys, u.memory, u.start, leafMem))
      ensures u.memory >= MOST_NODES * Min(count, leafMem) ==>
        (|ls| < count && 0 < |ls| == leafMem <==> 0 < leafMem < count)
    {
      assert Enough(u.c.m.Keys, u.memory, u.start, leafMem) <==> Enough(u.c.m.Keys, u.memory, u.start, leafMem);
    }

    /** An update, as far as memory goes. */
    method UpdateBlocks(start: Key, count: nat, values: array<MetaData>, leafMem: nat)
      returns (ret: int, ghost ls: seq<TreeLeaf>)
      requires Valid() && count <= values.Length && RoomFits(count, cacheNum, cacheSize)
      modifies `lru, `cacheNum, `st, `log, st.leaves.Keys, tree, tree.Repr
      ensures Valid() && Goes() && fresh(tree.Repr - old(tree.Repr)) && fresh(st.leaves.Keys - old(st.leaves.Keys))
      ensures ret == if |ls| == count || 0 < |ls| == leafMem then 0 else -ENOMEM
      ensures |ls| < Min(count, leafMem) ==> tree.memory == 0 && old(tree.memory) < MOST_NODES * Min(count, leafMem)
      ensures var c := RoomMade(old(st), Room(count, old(cacheNum), cacheSize));
        && |ls| <= Min(count, leafMem) && StoreRange(c, ls, start, values[..], |ls|) == Some(st)
        && (old(tree.Rooted()) && !tree.Rooted() ==>
              Min(count, leafMem) > 0 && c.m == map[] && start > 0 && old(tree.memory) == 0)
      ensures old(Tidy(tree.Tree())) ==>
        var c := RoomMade(old(st), Room(count, old(cacheNum), cacheSize));
        && (!tree.Rooted() <==> Min(count, leafMem) > 0 && c.m == map[] && start > 0 && old(tree.memory) == 0)
        && AsManyAsFit(c.m.Keys, old(tree.memory), start, Min(count, leafMem), |ls|)
        && (ret == 0 && |ls| < count <==> 0 < leafMem < count && Enough(c.m.Keys, old(tree.memory), start, leafMem))
      ensures old(tree.memory) >= MOST_NODES * Min(count, leafMem) ==>
        (ret == 0 && |ls| < count <==> 0 < leafMem < count)
      ensures |ls| == Min(count, leafMem) ==>
        (old(tree.Rooted()) ==> tree.Rooted()) && (old(Tidy(tree.Tree())) ==> Tidy(tree.Tree()))
    {
      MakeRoom(count);
      ghost var u, g := Begun(start, values[..]), log;
      RootFacts(u);
      ret, ls := StoreBlocks(start, count, values, leafMem);
      ExtendsOn(log, g, old(log));
      StoringIs(u.c, ls, start, values[..], |ls|, st);
      RootOutcome(u, ls, Min(count, leafMem));
      ResultOutcome(u, ls, count, leafMem);
    }

    /**
     * Makes room, then stores the values of a range of blocks. Memory may run out on the way:
     * what was stored until then stays. The result reports that, except when memory for a leaf
     * runs out after the first block. In a tidy tree as many blocks are stored as there is memory
     * for, and it stays tidy if these are all.
     */
    method CacheUpdate(start: Key, count: nat, values: array<MetaData>, leafMem: nat)
      returns (ret: int, ghost ls: seq<TreeLeaf>)
      requires Valid() && count <= values.Length && RoomFits(count, cacheNum, cacheSize)
      modifies `lru, `cacheNum, `st, `log, st.leaves.Keys, tree, tree.Repr
      ensures Valid() && Goes() && fresh(tree.Repr - old(tree.Repr)) && fresh(st.leaves.Keys - old(st.leaves.Keys))
      ensures ret == if |ls| == count || 0 < |ls| == leafMem then 0 else -ENOMEM
      ensures |ls| < Min(count, leafMem) ==> tree.memory == 0 && old(tree.memory) < MOST_NODES * Min(count, leafMem)
      ensures var c := RoomMade(old(st), Room(count, old(cacheNum), cacheSize));
        && |ls| <= Min(count, leafMem) && StoreRange(c, ls, start, values[..], |ls|) == Some(st)
        && (old(tree.Rooted()) && !tree.Rooted() ==>
              Min(count, leafMem) > 0 && c.m == map[] && start > 0 && old(tree.memory) == 0)
      ensures old(Tidy(tree.Tree())) ==>
        var c := RoomMade(old(st), Room(count, old(cacheNum), cacheSize));
        && (!tree.Rooted() <==> Min(count, leafMem) > 0 && c.m == map[] && start > 0 && old(tree.memory) == 0)
        && AsManyAsFit(c.m.Keys, old(tree.memory), start, Min(count, leafMem), |ls|)
        && (ret == 0 && |ls| < count <==> 0 < leafMem < count && Enough(c.m.Keys, old(tree.memory), start, leafMem))
      ensures old(tree.memory) >= MOST_NODES * Min(count, leafMem) ==>
        (ret == 0 && |ls| < count <==> 0 < leafMem < count)
      ensures |ls| == Min(count, leafMem) ==>
        (old(tree.Rooted()) ==> tree.Rooted()) && (old(Tidy(tree.Tree())) ==> Tidy(tree.Tree()))
      ensures Updated(old(st), st, ls, start, values[..], count, cacheSize)
      ensures CacheRuns.OpResult(old(st), CacheRuns.Update(start, count, values[..], ls), cacheSize) == Some(st)
    {
      SizesNow();
      ghost var c := st;
      ret, ls := UpdateBlocks(start, count, values, leafMem);
      UpdateRun(c, st, ls, start, values[..], count, cacheSize);
    }

    /** Clears some entries of a basket. */
    method ClearBasket(basket: array<TreeLeaf?>, lo: nat, hi: nat)
      requires lo <= hi <= basket.Length
      modifies basket
      ensures forall x | 0 <= x < basket.Length :: basket[x] == if lo <= x < hi then null else old(basket[x])
    {
      var i := lo;
      while i < hi
        invariant lo <= i <= hi
        invariant forall x | 0 <= x < basket.Length :: basket[x] == if lo <= x < i then null else old(basket[x])
      {
        basket[i] := null;
        i := i + 1;
      }
    }

    /** Moves the entry to place `to`, or drops it. */
    method MoveEntry(basket: array<TreeLeaf?>, i: nat, hit: bool, to: nat)
      requires i < basket.Length && (hit ==> to < basket.Length)
      modifies basket
      ensures basket[..] == Moved(old(basket[..]), i, hit, to)
    {
      var leaf := basket[i];
      basket[i] := null;
      if hit {
        basket[to] := leaf;
      }
    }

    /** The basket half of a round: the entry moves to the place of its block, or is dropped. */
    method ScatterOne(basket: array<TreeLeaf?>, i: nat, start: Key, count: nat, retOff: nat, ghost m: Index,
                      ghost all: seq<Key>, ghost hits: seq<Key>)
      returns (leaf: TreeLeaf, hit: bool, off: nat)
      requires i < |all| <= count <= basket.Length && count < ULONG_LIMIT
      requires all[i] in m && m[all[i]].blkid == all[i]
      requires Hits(m, all, hits, start, FindEnd(start, count))
      requires Scattered(basket[..], m, all, hits, start, count, FindEnd(start, count), i + 1)
      requires retOff == Offset(hits, start, count, i + 1)
      modifies basket
      ensures leaf == m[all[i]] && hit == (i < |hits|) && off == Offset(hits, start, count, i)
      ensures Scattered(basket[..], m, all, hits, start, count, FindEnd(start, count), i)
    {
      OffsetTells(m, all, hits, start, count, i);
      leaf := basket[i];
      hit := start <= leaf.blkid < retOff;
      off := if hit then leaf.blkid else retOff;
      ScatterEntry(basket[..], m, all, hits, start, count, FindEnd(start, count), i);
      MoveEntry(basket, i, hit, if hit then leaf.blkid - start else 0);
    }

    /** The cache half of a round: a hit gains a reader and moves to the front of the list. */
    method TouchHit(leaf: TreeLeaf, hit: bool, ghost c: Cache, ghost hits: seq<Key>, ghost i: nat)
      requires Closed() && Findable(c, hits) && TouchedFrom(c, hits, i + 1) == Some(st)
      requires hit == (i < |hits|) && (hit ==> leaf == c.m[hits[i]] && leaf in st.leaves)
      modifies `lru, `st, `log, st.leaves.Keys
      ensures Closed() && Goes() && st.leaves.Keys == old(st.leaves.Keys)
      ensures TouchedFrom(c, hits, i) == Some(st)
    {
      if hit {
        NextTouch(c, st, hits, i);
        TouchLeaf(leaf);
      }
    }

    /** One round of the downward loop of a find. */
    method FindRound(basket: array<TreeLeaf?>, i: nat, start: Key, count: nat, retOff: nat, ghost c: Cache,
                     ghost all: seq<Key>, ghost hits: seq<Key>)
      returns (hit: bool, off: nat)
      requires Closed() && Findable(c, hits) && i < |all| <= count <= basket.Length && count < ULONG_LIMIT
      requires TouchedFrom(c, hits, i + 1) == Some(st)
      requires Hits(c.m, all, hits, start, FindEnd(start, count))
      requires Scattered(basket[..], c.m, all, hits, start, count, FindEnd(start, count), i + 1)
      requires retOff == Offset(hits, start, count, i + 1)
      modifies basket, `lru, `st, `log, st.leaves.Keys
      ensures Closed() && Goes() && st.leaves.Keys == old(st.leaves.Keys)
      ensures TouchedFrom(c, hits, i) == Some(st)
      ensures Scattered(basket[..], c.m, all, hits, start, count, FindEnd(start, count), i)
      ensures hit == (i < |hits|) && off == Offset(hits, start, count, i)
    {
      KeyStays(c, st, hits, i + 1, all[i]);
      LeafNow(c.m[all[i]]);
      var leaf;
      leaf, hit, off := ScatterOne(basket, i, start, count, retOff, c.m, all, hits);
      ghost var b := basket[..];
      TouchHit(leaf, hit, c, hits, i);
      assert basket[..] == b;
    }

    /** Scans the tree into the basket, and clears what the scan did not fill. */
    method Gather(basket: array<TreeLeaf?>, start: Key, count: nat) returns (fault: bool, ret: nat)
      requires tree.Sealed() && count <= basket.Length
      modifies basket
      ensures fault <==> !ScanSafe(tree, start, count)
      ensures !fault ==> ret <= count && ret <= |Scan(tree.m, start, ULONG_LIMIT)|
      ensures !fault ==> |Scan(tree.m, start, FindEnd(start, count))| <= ret
      ensures !fault ==>
        var all, hits, hi := Scan(tree.m, start, ULONG_LIMIT)[..ret], Scan(tree.m, start, FindEnd(start, count)),
                                   FindEnd(start, count);
        Hits(tree.m, all, hits, start, hi) && Scattered(basket[..], tree.m, all, hits, start, count, hi, ret)
    {
      ClearBasket(basket, 0, count);
      tree.Open();
      fault, ret := GangLookup(tree, basket, start, count);
      if fault {
        return;
      }
      ClearBasket(basket, ret, count);
      ghost var hi := FindEnd(start, count);
      ghost var all := Scan(tree.m, start, ULONG_LIMIT)[..ret];
      ScanSplit(tree.m, start, hi, ULONG_LIMIT);
      ScanBound(tree.m, start, hi);
      ScanHits(tree.m, start, hi, ret);
      ScatterStart(basket[..], tree.m, all, Scan(tree.m, start, hi), start, count, hi);
    }

    /** The downward loop of a find: moves the hits to their places and takes a reference to each. */
    method FindLoop(basket: array<TreeLeaf?>, ret: nat, start: Key, count: nat, ghost c: Cache, ghost all: seq<Key>,
                    ghost hits: seq<Key>)
      returns (rret: nat)
      requires Closed() && c == st && Findable(c, hits) && ret == |all| <= count <= basket.Length
      requires count < ULONG_LIMIT && Hits(c.m, all, hits, start, FindEnd(start, count))
      requires Scattered(basket[..], c.m, all, hits, start, count, FindEnd(start, count), ret)
      modifies basket, `lru, `st, `log, st.leaves.Keys
      ensures Closed() && Goes() && TouchedFrom(c, hits, 0) == Some(st) && rret == |hits|
      ensures Scattered(basket[..], c.m, all, hits, start, count, FindEnd(start, count), 0)
    {
      var i, retOff: nat := ret, (start + count) % ULONG_LIMIT;
      rret := 0;
      while i > 0
        invariant 0 <= i <= ret && Closed() && st.leaves.Keys == c.leaves.Keys
        invariant TouchedFrom(c, hits, i) == Some(st) && Goes()
        invariant Scattered(basket[..], c.m, all, hits, start, count, FindEnd(start, count), i)
        invariant retOff == Offset(hits, start, count, i) && rret == if i < |hits| then |hits| - i else 0
      {
        i := i - 1;
        var hit;
        ghost var g := log;
        hit, retOff := FindRound(basket, i, start, count, retOff, c, all, hits);
        ExtendsOn(log, g, old(log));
        if hit {
          rret := rret + 1;
        }
      }
    }

    /** The tree does not notice. */
    method FindBesideTree(basket: array<TreeLeaf?>, ret: nat, start: Key, count: nat, ghost c: Cache,
                          ghost all: seq<Key>, ghost hits: seq<Key>)
      returns (rret: nat)
      requires tree.Sealed() && Closed() && c == st && Findable(c, hits)
      requires ret == |all| <= count <= basket.Length && count < ULONG_LIMIT
      requires Hits(c.m, all, hits, start, FindEnd(start, count))
      requires Scattered(basket[..], c.m, all, hits, start, count, FindEnd(start, count), ret)
      modifies basket, `lru, `st, `log, st.leaves.Keys
      ensures tree.Sealed() && Closed() && Goes() && st.m == c.m && st.leaves.Keys == c.leaves.Keys
      ensures TouchedFrom(c, hits, 0) == Some(st) && rret == |hits|
      ensures Scattered(basket[..], c.m, all, hits, start, count, FindEnd(start, count), 0)
    {
      rret := FindLoop(basket, ret, start, count, c, all, hits);
      FindFacts(c, hits, 0);
    }

    /** A find, as the loop with the scanned keys. */
    method FindBlocks(start: Key, count: nat, basket: array<TreeLeaf?>) returns (fault: bool, rret: nat)
      requires Valid() && count <= basket.Length && count < ULONG_LIMIT
      requires ReadersLeft(st, start, FindEnd(start, count))
      modifies basket, `lru, `st, `log, st.leaves.Keys
      ensures fault <==> !ScanSafe(tree, start, count)
      ensures Valid() && Goes() && st.leaves.Keys == old(st.leaves.Keys) && (fault ==> st == old(st))
      ensures !fault ==>
        && (forall x | 0 <= x < count :: basket[x] == FoundAt(old(st.m), start + x, start, FindEnd(start, count)))
        && var hits := Scan(old(st.m), start, FindEnd(start, count));
        rret == |hits| && TouchedFrom(old(st), hits, 0) == Some(st)
    {
      rret := 0;
      var ret;
      fault, ret := Gather(basket, start, count);
      if fault {
        return;
      }
      ghost var c, hi := st, FindEnd(start, count);
      ghost var all, hits := Scan(c.m, start, ULONG_LIMIT)[..ret], Scan(c.m, start, hi);
      Now();
      CanFind(c, start, hi);
      rret := FindBesideTree(basket, ret, start, count, c, all, hits);
      ScatterEnd(basket[..], c.m, all, hits, start, count, hi);
    }

    /**
     * Looks up a range of blocks: `basket[x]` becomes the leaf of block `start + x`, or null, and
     * the caller gets a reference to each leaf found. The number of hits is returned. A range
     * that reaches the last block number finds nothing. The scan of a tree without the root it
     * should have is a fault.
     */
    method CacheFind(start: Key, count: nat, basket: array<TreeLeaf?>) returns (fault: bool, rret: nat)
      requires Valid() && count <= basket.Length && count < ULONG_LIMIT
      requires ReadersLeft(st, start, FindEnd(start, count))
      modifies basket, `lru, `st, `log, st.leaves.Keys
      ensures fault <==> !ScanSafe(tree, start, count)
      ensures Valid() && Goes() && st.leaves.Keys == old(st.leaves.Keys) && lru == st.lru
      ensures fault ==> st == old(st)
      ensures !fault ==> Found(old(st), st, start, count, basket[..], rret)
      ensures !fault ==> CacheRuns.OpResult(old(st), CacheRuns.Find(start, count), cacheSize) == Some(st)
    {
      Now();
      ghost var c := st;
      fault, rret := FindBlocks(start, count, basket);
      Now();
      if !fault {
        FoundNow(c, start, count, st, basket[..], rret);
      }
    }
  }

  lemma OneStored(ls: seq<TreeLeaf>, start: Key, values: seq<MetaData>, d: Cache)
    requires |ls| == 1 <= |values| && StoreRange(EMPTY, ls, start, values, 1) == Some(d)
    ensures |d.m| == 1
  {
    assert StoreRange(EMPTY, ls, start, values, 0) == Some(EMPTY);
    assert d.m == map[KeyAt(start, 0) := ls[0]];
  }

  /** An input for which an update of two blocks stores one and reports success. */
  method PartialUpdate(a: MetaData, b: MetaData) returns (ret: int, stored: int)
    ensures ret == 0 && stored == 1
  {
    var v := new Volume(4, 2 * MOST_NODES);
    var values := new MetaData[][a, b];
    ghost var ls;
    v.Now();
    assert values[..] == [a, b] && RoomMade(EMPTY, Room(2, 0, 4)) == EMPTY;
    ret, ls := v.CacheUpdate(0, 2, values, 1);
    v.Now();
    stored := v.cacheNum;
    OneStored(ls, 0, [a, b], v.st);
  }

  lemma MoreNodes(i: nat, count: nat)
    requires i < count
    ensures MOST_NODES * (i + 1) == MOST_NODES * i + MOST_NODES <= MOST_NODES * count
  {
  }

  lemma FirstKey(start: Key)
    ensures KeyAt(start, 0) == start
  {
  }
}
