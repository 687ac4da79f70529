// How long a stretch of blocks shares one allocation flag, 64 flags at a time, and the cut of
// a block range into such stretches.
module AllocationRanges {
  import opened Words

  const CHUNK_SIZE: nat := 64
  /** Longer ranges overflow the C int that holds `start_index + nr_LBIDs - 1`. */
  const RANGE_LIMIT: nat := 0x7FFF_FFC0

  datatype Op = Read | Write | Overwrite

  /** Which blocks were written before. */
  type Bitmap = nat -> bool

  /** A 64-bit word, bit 0 first. */
  type Chunk = c: seq<bool> | |c| == CHUNK_SIZE witness seq(CHUNK_SIZE, _ => false)

  /** The word that holds the flag of a block. */
  function GetAllocationFlag(flags: Bitmap, lbid: nat): Chunk {
    seq(CHUNK_SIZE, i requires 0 <= i < CHUNK_SIZE => flags(lbid / CHUNK_SIZE * CHUNK_SIZE + i))
  }

  /** `find_next_bit` and `find_next_zero_bit`: the first bit equal to `bit` from `start` on, or 64. */
  function FindNext(c: Chunk, bit: bool, start: nat): (r: nat)
    requires start <= CHUNK_SIZE
    ensures start <= r <= CHUNK_SIZE
    decreases CHUNK_SIZE - start
  {
    if start == CHUNK_SIZE || c[start] == bit then start else FindNext(c, bit, start + 1)
  }

  /**
   * The stretch from `s` on within one word: the bit where it stops (64 at the end of the word), and
   * its length up to `n`.
   */
  function InWord(flags: Bitmap, op: Op, s: nat, n: nat): (r: (nat, nat))
    requires op != Read && s + n <= ULONG_LIMIT && n < RANGE_LIMIT
    ensures r.1 <= n && (r.0 == CHUNK_SIZE && n > 0 ==> r.1 > 0)
  {
    var start := s % CHUNK_SIZE;
    var range := start + n - 1;
    var next := FindNext(GetAllocationFlag(flags, s), op == Write, start);
    var end := if next - 1 > range then range else next - 1;
    (next, end - start + 1)
  }

  // ---- bit by bit ----

  /** The same length, one flag at a time. */
  ghost function Run(flags: Bitmap, bit: bool, s: nat, n: nat): nat
    decreases n
  {
    if n == 0 || flags(s) != bit then 0 else 1 + Run(flags, bit, s + 1, n - 1)
  }

  /** A run is the longest stretch of equal flags: it ends at the limit or at a different flag. */
  lemma {:induction false} RunIsLongest(flags: Bitmap, bit: bool, s: nat, n: nat)
    ensures var r := Run(flags, bit, s, n);
      && r <= n && (forall k | s <= k < s + r :: flags(k) == bit)
      && (r < n ==> flags(s + r) != bit)
    decreases n
  {
    if n != 0 && flags(s) == bit {
      RunIsLongest(flags, bit, s + 1, n - 1);
    }
  }

  /** And nothing else is. */
  lemma {:induction false} RunIsUnique(flags: Bitmap, bit: bool, s: nat, r: nat, n: nat)
    requires r <= n && (forall k | s <= k < s + r :: flags(k) == bit) && (r < n ==> flags(s + r) != bit)
    ensures Run(flags, bit, s, n) == r
    decreases n
  {
    if r > 0 {
      RunIsUnique(flags, bit, s + 1, r - 1, n - 1);
    }
  }

  lemma {:induction false} RunSkips(flags: Bitmap, bit: bool, s: nat, a: nat, n: nat)
    requires a <= n && forall k | s <= k < s + a :: flags(k) == bit
    ensures Run(flags, bit, s, n) == a + Run(flags, bit, s + a, n - a)
    decreases a
  {
    if a > 0 {
      RunSkips(flags, bit, s + 1, a - 1, n - 1);
    }
  }

  lemma FlagOf(flags: Bitmap, s: nat, i: nat)
    requires i < CHUNK_SIZE
    ensures GetAllocationFlag(flags, s)[i] == flags(s - s % CHUNK_SIZE + i)
  {
  }

  lemma {:induction false} FindNextFinds(c: Chunk, bit: bool, start: nat)
    requires start <= CHUNK_SIZE
    ensures var r := FindNext(c, bit, start);
      (r < CHUNK_SIZE ==> c[r] == bit) && forall i | start <= i < r :: c[i] != bit
    decreases CHUNK_SIZE - start
  {
    if start < CHUNK_SIZE && c[start] != bit {
      FindNextFinds(c, bit, start + 1);
    }
  }

  /** What one word tells about the blocks from `s` on. */
  lemma InWordFits(flags: Bitmap, op: Op, s: nat, n: nat)
    requires op != Read && s + n <= ULONG_LIMIT && n < RANGE_LIMIT
    ensures var (next, length) := InWord(flags, op, s, n);
      && (forall k | s <= k < s + length :: flags(k) == (op == Overwrite))
      && (length < n && next != CHUNK_SIZE ==> flags(s + length) != (op == Overwrite))
  {
    var start := s % CHUNK_SIZE;
    var next := FindNext(GetAllocationFlag(flags, s), op == Write, start);
    FindNextFinds(GetAllocationFlag(flags, s), op == Write, start);
    forall k | s <= k < s + InWord(flags, op, s, n).1 ensures flags(k) == (op == Overwrite) {
      FlagOf(flags, s, start + (k - s));
    }
    if next < CHUNK_SIZE {
      FlagOf(flags, s, next);
    }
  }

  lemma RunByParts(flags: Bitmap, bit: bool, s: nat, n: nat, length: nat, more: bool)
    requires length <= n && (forall k | s <= k < s + length :: flags(k) == bit)
    requires length < n && !more ==> flags(s + length) != bit
    ensures Run(flags, bit, s, n) == length + if more && length < n then Run(flags, bit, s + length, n - length) else 0
  {
    RunSkips(flags, bit, s, length, n);
  }

  // ---- word by word ----

  /**
   * The length of the stretch from `s` on whose flags suit `op`, at most `n`: the word-wise
   * computation finds the bit-wise length.
   */
  function ContinuousRange(flags: Bitmap, op: Op, s: nat, n: nat): (r: nat)
    requires op != Read && s + n <= ULONG_LIMIT && n < RANGE_LIMIT
    ensures r == Run(flags, op == Overwrite, s, n)
    decreases n
  {
    var (next, length) := InWord(flags, op, s, n);
    InWordFits(flags, op, s, n);
    RunByParts(flags, op == Overwrite, s, n, length, next == CHUNK_SIZE);
    if n > length && next == CHUNK_SIZE then length + ContinuousRange(flags, op, s + length, n - length) else length
  }

  /** The operation for the first block of a range, and how far it reaches. */
  function AllocationRange(flags: Bitmap, s: nat, n: nat): (Op, nat)
    requires s + n <= ULONG_LIMIT && n < RANGE_LIMIT
  {
    var op := if GetAllocationFlag(flags, s)[s % CHUNK_SIZE] then Overwrite else Write;
    (op, ContinuousRange(flags, op, s, n))
  }

  // ---- cutting a range ----

  /** A stretch of a write request. */
  datatype Piece = Piece(op: Op, start: nat, length: nat)

  /** A stretch is not empty, suits its operation, and cannot be extended. */
  lemma RangeFits(flags: Bitmap, s: nat, n: nat)
    requires 0 < n < RANGE_LIMIT && s + n <= ULONG_LIMIT
    ensures var (op, length) := AllocationRange(flags, s, n);
      && op != Read && 0 < length <= n && (forall k | s <= k < s + length :: flags(k) == (op == Overwrite))
      && (length < n ==> flags(s + length) != (op == Overwrite))
  {
    var (op, length) := AllocationRange(flags, s, n);
    FlagOf(flags, s, s % CHUNK_SIZE);
    RunIsLongest(flags, op == Overwrite, s, n);
  }

  /** Non-empty stretches that cover a range without gap or overlap, in order. */
  ghost predicate Tiles(ps: seq<Piece>, s: nat, n: nat) {
    if ps == [] then n == 0
    else ps[0].start == s && 0 < ps[0].length <= n && Tiles(ps[1..], s + ps[0].length, n - ps[0].length)
  }

  /** That is: the first starts at `s`, each next one where the one before it ends, and the last ends at `s + n`. */
  lemma {:induction false} TilesInOrder(ps: seq<Piece>, s: nat, n: nat)
    requires Tiles(ps, s, n)
    ensures if |ps| == 0 then n == 0 else n > 0 && ps[0].start == s
    ensures forall i | 0 <= i < |ps| ::
      && ps[i].length > 0
      && ps[i].start + ps[i].length == if i + 1 < |ps| then ps[i + 1].start else s + n
    decreases ps
  {
    if ps != [] {
      var rest := ps[1..];
      TilesInOrder(rest, s + ps[0].length, n - ps[0].length);
      assert forall i | 1 <= i < |ps| :: ps[i] == rest[i - 1];
      assert |ps| > 1 ==> rest[0].start == s + ps[0].length;
    }
  }

  /** Each stretch is homogeneous: new blocks are written, old ones overwritten. */
  ghost predicate Uniform(flags: Bitmap, ps: seq<Piece>) {
    forall i | 0 <= i < |ps| :: Suits(flags, ps[i])
  }

  ghost predicate Suits(flags: Bitmap, p: Piece) {
    p.op != Read && forall k | p.start <= k < p.start + p.length :: flags(k) == (p.op == Overwrite)
  }

  /** Neighbours differ, so no two of them could have been one. */
  ghost predicate Alternating(ps: seq<Piece>) {
    forall i | 0 < i < |ps| :: ps[i - 1].op != ps[i].op
  }

  /** The stretches cover the range in order, each is homogeneous, and no two neighbours are alike. */
  ghost predicate Cut(flags: Bitmap, ps: seq<Piece>, s: nat, n: nat) {
    Tiles(ps, s, n) && Uniform(flags, ps) && Alternating(ps)
  }

  /** Putting a stretch in front of a cut that goes on where it ends. */
  lemma PieceFirst(flags: Bitmap, p: Piece, rest: seq<Piece>, n: nat)
    requires 0 < p.length <= n && Suits(flags, p) && (p.length < n ==> flags(p.start + p.length) != (p.op == Overwrite))
    requires Cut(flags, rest, p.start + p.length, n - p.length)
    ensures Cut(flags, [p] + rest, p.start, n)
  {
  }

  /** Cutting a range into stretches, each as long as the flags allow. */
  function Pieces(flags: Bitmap, s: nat, n: nat): (ps: seq<Piece>)
    requires s + n <= ULONG_LIMIT && n < RANGE_LIMIT
    ensures Cut(flags, ps, s, n)
    decreases n
  {
    if n == 0 then []
    else
      var (op, length) := AllocationRange(flags, s, n);
      RangeFits(flags, s, n);
      var rest := Pieces(flags, s + length, n - length);
      PieceFirst(flags, Piece(op, s, length), rest, n);
      [Piece(op, s, length)] + rest
  }

  lemma CutExists(flags: Bitmap, s: nat, n: nat) returns (ps: seq<Piece>)
    requires s + n <= ULONG_LIMIT && n < RANGE_LIMIT
    ensures Cut(flags, ps, s, n)
  {
    ps := Pieces(flags, s, n);
  }

  /** The first stretch of any cut is what the allocation flags say, and the others cut the rest. */
  lemma FirstPiece(flags: Bitmap, ps: seq<Piece>, s: nat, n: nat)
    requires n > 0 && Cut(flags, ps, s, n)
    ensures ps[0].op == (if flags(s) then Overwrite else Write) && ps[0].length == Run(flags, flags(s), s, n)
    ensures ps[0].start == s && 0 < ps[0].length <= n && Cut(flags, ps[1..], s + ps[0].length, n - ps[0].length)
  {
    var p := ps[0];
    assert Suits(flags, p);
    assert Tiles(ps[1..], s + p.length, n - p.length);
    assert p.length < n ==> ps[1..][0] == ps[1] && Suits(flags, ps[1]);
    RunIsUnique(flags, p.op == Overwrite, s, p.length, n);
  }

  /** Only one cut of a range has these properties. */
  lemma {:induction false} CutIsUnique(flags: Bitmap, ps: seq<Piece>, qs: seq<Piece>, s: nat, n: nat)
    requires Cut(flags, ps, s, n) && Cut(flags, qs, s, n)
    ensures ps == qs
    decreases n
  {
    if n > 0 {
      FirstPiece(flags, ps, s, n);
      FirstPiece(flags, qs, s, n);
      CutIsUnique(flags, ps[1..], qs[1..], s + ps[0].length, n - ps[0].length);
    }
  }
}
