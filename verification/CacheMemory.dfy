// How many blocks of an update the memory for tree nodes is enough for.
module CacheMemories {
  import opened RadixKeys
  import opened RadixShape
  import opened RadixNeeds
  import opened CacheBatches

  /** There is memory for the nodes that the first `n` blocks of a range add to those of the cached ones. */
  ghost predicate Enough(keys: set<Key>, memory: nat, start: Key, n: nat) {
    |NodesOf(keys + Range(start, n))| <= |NodesOf(keys)| + memory
  }

  /** Of at most `most` blocks, as many were stored as there is memory for. */
  ghost predicate AsManyAsFit(keys: set<Key>, memory: nat, start: Key, most: nat, stored: nat) {
    forall n: nat {:trigger Enough(keys, memory, start, n)} | n <= most ::
      n <= stored <==> Enough(keys, memory, start, n)
  }

  lemma {:induction false} RangeGrows(start: Key, i: nat, n: nat)
    requires i <= n
    ensures Range(start, i) <= Range(start, n)
  {
    if i < n {
      RangeGrows(start, i, n - 1);
    }
  }

  /** It is enough to know this of the last block stored and the one after. */
  lemma LastThatFits(keys: set<Key>, memory: nat, start: Key, most: nat, stored: nat)
    requires Enough(keys, memory, start, stored)
    requires stored >= most || !Enough(keys, memory, start, stored + 1)
    ensures AsManyAsFit(keys, memory, start, most, stored)
  {
    forall n: nat | n <= most ensures n <= stored <==> Enough(keys, memory, start, n) {
      if n <= stored {
        RangeGrows(start, n, stored);
        NodesGrow(keys + Range(start, n), keys + Range(start, stored));
      } else {
        RangeGrows(start, stored + 1, n);
        NodesGrow(keys + Range(start, stored + 1), keys + Range(start, n));
      }
    }
  }

  /** What is left of the memory after some blocks, and what the next one needs. */
  ghost predicate Spent(keys: set<Key>, memory: nat, start: Key, n: nat, left: nat) {
    left + |NodesOf(keys + Range(start, n))| == memory + |NodesOf(keys)|
  }

  lemma NothingSpent(keys: set<Key>, memory: nat, start: Key)
    ensures Spent(keys, memory, start, 0, memory)
  {
    assert keys + Range(start, 0) == keys;
  }

  lemma SpentEnough(keys: set<Key>, memory: nat, start: Key, n: nat, left: nat)
    requires Spent(keys, memory, start, n, left)
    ensures Enough(keys, memory, start, n)
  {
  }

  lemma SpendMore(keys: set<Key>, memory: nat, start: Key, n: nat, left: nat, needed: int)
    requires Spent(keys, memory, start, n, left)
    requires needed == |NodesOf(keys + Range(start, n) + {KeyAt(start, n)})| - |NodesOf(keys + Range(start, n))|
    ensures needed <= left <==> Enough(keys, memory, start, n + 1)
    ensures 0 <= needed <= left ==> Spent(keys, memory, start, n + 1, left - needed)
  {
    assert keys + Range(start, n + 1) == keys + Range(start, n) + {KeyAt(start, n)};
  }
}
