// Keys of the radix tree: 64-bit block numbers cut into 6-bit digits.
module RadixKeys {
  import opened Words

  const MAP_SHIFT := 6
  const MAP_SIZE := 64
  const INDEX_BITS := 64
  /** Entries of the height table and of the path array kept by deletion. */
  const MAX_PATH := 12
  const MAX_HEIGHT := 11

  /** A 64-bit unsigned key. */
  type Key = k: int | 0 <= k < ULONG_LIMIT

  function Pow2(n: nat): (r: nat)
    ensures r > 0
  {
    if n == 0 then 1 else 2 * Pow2(n - 1)
  }

  /** The unsigned right shift `x >> n`. */
  function Shr(x: nat, n: nat): nat {
    Quotient(x, Pow2(n))
  }

  function Quotient(x: nat, d: nat): nat
    requires d > 0
  {
    x / d
  }

  /** What is left of `k` once its `l` lowest digits are dropped. */
  function Prefix(k: nat, l: nat): nat {
    if l == 0 then k else Prefix(k, l - 1) / MAP_SIZE
  }

  /** The largest key a tree of the given height can hold, as the height table stores it. */
  function MaxIndex(height: nat): (r: nat) {
    var tmp := height * MAP_SHIFT;
    if tmp >= INDEX_BITS then ULONG_LIMIT - 1
    else Shr(Shr(ULONG_LIMIT - 1, INDEX_BITS - tmp - 1), 1)
  }

  lemma {:induction false} PowAdd(a: nat, b: nat)
    ensures Pow2(a + b) == Pow2(a) * Pow2(b)
  {
    if a > 0 {
      PowAdd(a - 1, b);
    }
  }

  lemma MultipleGap(a: int, d: int)
    requires d >= 0
    ensures a >= 1 ==> a * d >= d
    ensures a <= -1 ==> a * d <= -d
  {
  }

  lemma DivUnique(x: int, d: int, q: int, r: int)
    requires 0 <= r < d && x == q * d + r
    ensures x / d == q && x % d == r
  {
    assert x == (x / d) * d + x % d;
    MultipleGap(x / d - q, d);
  }

  lemma Regroup(q: int, b: int, r: int, a: int, s: int)
    ensures (q * b + r) * a + s == q * (a * b) + (r * a + s)
  {
  }

  lemma DigitBound(r: int, b: int, a: int, s: int)
    requires 0 <= r < b && 0 <= s < a
    ensures 0 <= r * a + s < a * b
  {
    MultipleGap(b - r, a);
    assert (b - r) * a == a * b - r * a;
    assert r * a >= 0;
  }

  /** Dividing twice is dividing once by the product. */
  lemma DivDiv(x: nat, a: nat, b: nat)
    requires a > 0 && b > 0
    ensures a * b > 0 && x / a / b == x / (a * b)
  {
    var q, s := x / a, x % a;
    var q', r := q / b, q % b;
    Regroup(q', b, r, a, s);
    DigitBound(r, b, a, s);
    DivUnique(x, a * b, q', r * a + s);
  }

  /** Shifting by six bits a level is dropping one digit a level. */
  lemma {:induction false} ShrIsPrefix(k: nat, l: nat)
    ensures Shr(k, l * MAP_SHIFT) == Prefix(k, l)
  {
    if l > 0 {
      ShrIsPrefix(k, l - 1);
      PowAdd((l - 1) * MAP_SHIFT, MAP_SHIFT);
      assert Pow2(MAP_SHIFT) == MAP_SIZE;
      DivDiv(k, Pow2((l - 1) * MAP_SHIFT), MAP_SIZE);
    }
  }

  lemma PowValues()
    ensures Pow2(16) == 0x1_0000 && Pow2(64) == ULONG_LIMIT
  {
    assert Pow2(8) == 0x100;
    PowAdd(8, 8);
    PowAdd(16, 16);
    PowAdd(32, 32);
  }

  lemma ShrZeroIff(k: nat, n: nat)
    ensures Shr(k, n) == 0 <==> k < Pow2(n)
  {
    var p := Pow2(n);
    assert k == k / p * p + k % p;
    if k < p {
      DivUnique(k, p, 0, k);
    }
  }

  lemma PowLarge(n: nat)
    requires n >= INDEX_BITS
    ensures Pow2(n) >= ULONG_LIMIT
  {
    PowValues();
    PowAdd(INDEX_BITS, n - INDEX_BITS);
  }

  /** The height table tells exactly which keys fit: those with no digit above the height. */
  lemma {:induction false} FitsIffNoPrefix(k: Key, h: nat)
    ensures k <= MaxIndex(h) <==> Prefix(k, h) == 0
  {
    ShrIsPrefix(k, h);
    ShrZeroIff(k, h * MAP_SHIFT);
    if h * MAP_SHIFT >= INDEX_BITS {
      PowLarge(h * MAP_SHIFT);
    } else {
      MaxIndexValue(h);
    }
  }

  lemma OnesSplit(p: int, q: int)
    ensures p * q - 1 == (p - 1) * q + (q - 1)
  {
  }

  /** Shifting all ones right leaves all ones. */
  lemma ShrOnes(a: nat, b: nat)
    ensures Shr(Pow2(a) * Pow2(b) - 1, b) == Pow2(a) - 1
  {
    var p, q := Pow2(a), Pow2(b);
    OnesSplit(p, q);
    DivUnique(p * q - 1, q, p - 1, q - 1);
  }

  lemma MaxIndexValue(h: nat)
    requires h * MAP_SHIFT < INDEX_BITS
    ensures MaxIndex(h) == Pow2(h * MAP_SHIFT) - 1
  {
    var tmp := h * MAP_SHIFT;
    var s := INDEX_BITS - tmp - 1;
    PowValues();
    PowAdd(tmp + 1, s);
    ShrOnes(tmp + 1, s);
    assert Pow2(1) == 2;
    PowAdd(tmp, 1);
    ShrOnes(tmp, 1);
  }

  /** Every 64-bit key fits a tree of height 11. */
  lemma TallestHoldsAll(k: Key)
    ensures Prefix(k, MAX_HEIGHT) == 0
  {
    FitsIffNoPrefix(k, MAX_HEIGHT);
  }

  lemma {:induction false} PrefixZeroAbove(k: nat, l: nat, h: nat)
    requires l <= h && Prefix(k, l) == 0
    ensures Prefix(k, h) == 0
    decreases h - l
  {
    if l < h {
      assert Prefix(k, l + 1) == 0;
      PrefixZeroAbove(k, l + 1, h);
    }
  }

  lemma {:induction false} PrefixMonotone(a: nat, b: nat, l: nat)
    requires a <= b
    ensures Prefix(a, l) <= Prefix(b, l)
  {
    if l > 0 {
      PrefixMonotone(a, b, l - 1);
    }
  }

  /** The first key whose prefix at level `l` is `q` is `q` shifted left by `l` digits. */
  lemma {:induction false} PrefixOfBase(q: nat, l: nat)
    ensures Prefix(q * Pow2(l * MAP_SHIFT), l) == q
  {
    var p := Pow2(l * MAP_SHIFT);
    ShrIsPrefix(q * p, l);
    DivUnique(q * p, p, q, 0);
  }

  /** A key below that first key has a smaller prefix. */
  lemma {:induction false} BelowBase(k: nat, q: nat, l: nat)
    requires k < q * Pow2(l * MAP_SHIFT)
    ensures Prefix(k, l) < q
  {
    var p := Pow2(l * MAP_SHIFT);
    ShrIsPrefix(k, l);
    assert k == (k / p) * p + k % p;
    MultipleGap(q - k / p, p);
  }
}
