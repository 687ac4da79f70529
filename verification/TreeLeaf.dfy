// The cache entry that the radix tree and the LRU list both point to.
module TreeLeaves {

  const WORD_LIMIT: nat := 0x1_0000_0000
  const DELETE_BIT: nat := 0x8000_0000

  /** The metadata a leaf carries; the cache never looks inside it. */
  type MetaData = nat

  /** One cached block: `flagRefcnt` packs the delete mark (bit 31) with the number of readers. */
  class TreeLeaf {
    var data: MetaData
    var blkid: nat
    var flagRefcnt: nat

    constructor (data: MetaData, blkid: nat)
      ensures this.data == data && this.blkid == blkid && this.flagRefcnt == 0
    {
      this.data, this.blkid, this.flagRefcnt := data, blkid, 0;
    }
  }

  /** `word & (1u << 31)`, as a truth value. */
  predicate IsDelete(word: nat) {
    word / DELETE_BIT % 2 == 1
  }

  /** `word & ~(1u << 31)`. */
  function RefCount(word: nat): nat {
    word % DELETE_BIT
  }

  /** `word | (1u << 31)`. */
  function SetDelete(word: nat): nat {
    if IsDelete(word) then word else word + DELETE_BIT
  }

  /** `++word` and `--word` on 32 unsigned bits. */
  function Inc(word: nat): nat {
    (word + 1) % WORD_LIMIT
  }

  function Dec(word: nat): nat {
    (word + WORD_LIMIT - 1) % WORD_LIMIT
  }

  // ---- the two fields of the word ----

  /** The reader count has 31 bits. */
  const MAX_HOLDS: nat := DELETE_BIT - 1

  datatype Word = Word(count: int, deleted: bool)

  /** The 32 bits that hold both fields. */
  ghost function Pack(w: Word): int {
    w.count + if w.deleted then DELETE_BIT else 0
  }

  /**
   * The C expressions read and write the packed fields: incrementing and decrementing the count
   * leaves the mark alone, and marking leaves the count alone.
   */
  lemma PackFacts(w: Word)
    requires 0 <= w.count <= MAX_HOLDS
    ensures 0 <= Pack(w) < WORD_LIMIT
    ensures IsDelete(Pack(w)) == w.deleted && RefCount(Pack(w)) == w.count
    ensures SetDelete(Pack(w)) == Pack(w.(deleted := true))
    ensures w.count < MAX_HOLDS ==> Inc(Pack(w)) == Pack(w.(count := w.count + 1))
    ensures w.count > 0 ==> Dec(Pack(w)) == Pack(w.(count := w.count - 1))
  {
  }

  /** Counting one more reader works exactly up to 31 bits; one too many becomes the delete mark. */
  lemma OneMoreReader(w: Word)
    requires 0 <= w.count <= MAX_HOLDS && !w.deleted
    ensures !IsDelete(Inc(Pack(w))) && RefCount(Inc(Pack(w))) == w.count + 1 <==> w.count < MAX_HOLDS
    ensures w.count == MAX_HOLDS ==> IsDelete(Inc(Pack(w))) && RefCount(Inc(Pack(w))) == 0
  {
  }
}
