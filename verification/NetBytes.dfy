// Numbers in network byte order.
module NetBytes {
  import opened Words

  type Byte = b: nat | b < 256

  /** The memory that a buffer pointer points into. */
  type Memory = nat -> Byte

  const SHORT: nat := 2
  const INT: nat := 4
  const LONG: nat := 8

  /** The number of values of `n` bytes. */
  function Span(n: nat): nat
    ensures Span(n) > 0
  {
    if n == 0 then 1 else 256 * Span(n - 1)
  }

  /** Bytes as an unsigned number, most significant byte first. */
  function Number(bs: seq<Byte>): (v: nat)
    ensures v < Span(|bs|)
  {
    if bs == [] then 0 else Number(bs[..|bs| - 1]) * 256 + bs[|bs| - 1]
  }

  function Slice(mem: Memory, at: nat, n: nat): seq<Byte> {
    seq(n, i requires 0 <= i < n => mem(at + i))
  }

  /** The number in the `n` bytes at a place in memory. */
  function Value(mem: Memory, at: nat, n: nat): nat {
    Number(Slice(mem, at, n))
  }

  /** A number as `n` bytes. */
  function Bytes(v: nat, n: nat): (bs: seq<Byte>)
    ensures |bs| == n
  {
    if n == 0 then [] else Bytes(v / 256, n - 1) + [v % 256]
  }

  /** The memory holds these bytes. */
  ghost predicate Holds(mem: Memory, at: nat, bs: seq<Byte>) {
    forall i | 0 <= i < |bs| :: mem(at + i) == bs[i]
  }

  lemma HoldsParts(mem: Memory, at: nat, a: seq<Byte>, b: seq<Byte>)
    ensures Holds(mem, at, a + b) <==> Holds(mem, at, a) && Holds(mem, at + |a|, b)
  {
    if Holds(mem, at, a + b) {
      forall i | 0 <= i < |a| ensures mem(at + i) == a[i] {
        assert (a + b)[i] == a[i];
      }
      forall i | 0 <= i < |b| ensures mem(at + |a| + i) == b[i] {
        assert (a + b)[|a| + i] == b[i] && at + (|a| + i) == at + |a| + i;
      }
    }
    if Holds(mem, at, a) && Holds(mem, at + |a|, b) {
      forall i | 0 <= i < |a + b| ensures mem(at + i) == (a + b)[i] {
        assert i >= |a| ==> mem(at + |a| + (i - |a|)) == b[i - |a|];
      }
    }
  }

  lemma {:induction false} NumberOfBytes(v: nat, n: nat)
    requires v < Span(n)
    ensures Number(Bytes(v, n)) == v
  {
    if n > 0 {
      NumberOfBytes(v / 256, n - 1);
      assert Bytes(v, n)[..n - 1] == Bytes(v / 256, n - 1);
    }
  }

  /** Reading a number gives back what was written. */
  lemma ReadBack(mem: Memory, at: nat, v: nat, n: nat)
    requires v < Span(n) && Holds(mem, at, Bytes(v, n))
    ensures Value(mem, at, n) == v
  {
    assert Slice(mem, at, n) == Bytes(v, n);
    NumberOfBytes(v, n);
  }

  lemma Spans()
    ensures Span(SHORT) == 0x1_0000 && Span(INT) == 0x1_0000_0000 && Span(LONG) == 0x1_0000_0000_0000_0000
  {
  }

  // ---- the buffer as the parser reads it ----

  type U16 = x: nat | x < 0x1_0000
  type U32 = x: nat | x < 0x1_0000_0000
  type U64 = x: nat | x < ULONG_LIMIT
  type Short = x: int | -0x8000 <= x < 0x8000

  /** The C conversions of unsigned numbers to signed ones, and of an int to a short. */
  function ShortOf(v: U16): Short { if v < 0x8000 then v else v - 0x1_0000 }
  function IntOf(v: U32): int { if v < 0x8000_0000 then v else v - 0x1_0000_0000 }
  function LongOf(v: U64): int { if v < 0x8000_0000_0000_0000 then v else v - ULONG_LIMIT }
  function LowShort(v: U32): Short { ShortOf(v % 0x1_0000) }

  /**
   * `READ_NET_SHORT`, `READ_NET_INT` and `READ_NET_LONG` on some buffer: the number at a position,
   * as the field that it is assigned to holds it.
   */
  datatype Net = Net(
    ushort: nat -> U16, short: nat -> Short, sint: nat -> int, intAsShort: nat -> Short, ulong: nat -> U64,
    slong: nat -> int)

  function U16At(mem: Memory, at: nat): U16 { Spans(); Value(mem, at, SHORT) }
  function U32At(mem: Memory, at: nat): U32 { Spans(); Value(mem, at, INT) }
  function U64At(mem: Memory, at: nat): U64 { Spans(); Value(mem, at, LONG) }

  /** A buffer in memory. */
  function Buffer(mem: Memory): Net {
    Net((at: nat) => U16At(mem, at), (at: nat) => ShortOf(U16At(mem, at)), (at: nat) => IntOf(U32At(mem, at)),
        (at: nat) => LowShort(U32At(mem, at)), (at: nat) => U64At(mem, at), (at: nat) => LongOf(U64At(mem, at)))
  }

  lemma LastByte(mem: Memory, at: nat, n: nat)
    ensures Value(mem, at, 0) == 0 && Value(mem, at, n + 1) == 256 * Value(mem, at, n) + mem(at + n)
  {
    assert Slice(mem, at, n + 1)[..n] == Slice(mem, at, n);
  }

  lemma BigEndian(mem: Memory, at: nat)
    ensures U16At(mem, at) == 256 * mem(at) + mem(at + 1)
    ensures U32At(mem, at) == 0x1_0000 * U16At(mem, at) + U16At(mem, at + 2)
    ensures U64At(mem, at) == 0x1_0000_0000 * U32At(mem, at) + U32At(mem, at + 4)
  {
    Joined(mem, at, 1, 1);
    Joined(mem, at, 2, 2);
    Joined(mem, at, 4, 4);
    LastByte(mem, at, 0);
    LastByte(mem, at + 1, 0);
  }

  lemma WordBytes(mem: Memory, at: nat)
    ensures var low := 256 * mem(at + 2) + mem(at + 3);
      U32At(mem, at) == 0x100_0000 * mem(at) + 0x1_0000 * mem(at + 1) + low && U32At(mem, at) % 0x1_0000 == low
  {
    BigEndian(mem, at);
    BigEndian(mem, at + 2);
  }

  /**
   * What the macros read, byte by byte: the first byte is the most significant one, and a signed field
   * holds it less the range if it is too large for the field.
   */
  lemma BufferReads(mem: Memory, at: nat)
    ensures var net, half := Buffer(mem), 256 * mem(at) + mem(at + 1);
      net.ushort(at) == half && net.short(at) == if half < 0x8000 then half else half - 0x1_0000
    ensures var net, low := Buffer(mem), 256 * mem(at + 2) + mem(at + 3);
      var word := 0x100_0000 * mem(at) + 0x1_0000 * mem(at + 1) + low;
      && net.sint(at) == (if word < 0x8000_0000 then word else word - 0x1_0000_0000)
      && net.intAsShort(at) == if low < 0x8000 then low else low - 0x1_0000
  {
    BigEndian(mem, at);
    WordBytes(mem, at);
  }

  /** And the same for eight bytes. */
  lemma BufferReadsLong(mem: Memory, at: nat)
    ensures var net := Buffer(mem);
      var high := 0x100_0000 * mem(at) + 0x1_0000 * mem(at + 1) + (256 * mem(at + 2) + mem(at + 3));
      var low := 0x100_0000 * mem(at + 4) + 0x1_0000 * mem(at + 5) + (256 * mem(at + 6) + mem(at + 7));
      var long := 0x1_0000_0000 * high + low;
      && net.ulong(at) == long
      && net.slong(at) == if long < 0x8000_0000_0000_0000 then long else long - 0x1_0000_0000_0000_0000
  {
    BigEndian(mem, at);
    WordBytes(mem, at);
    WordBytes(mem, at + 4);
    assert mem(at + 4 + 1) == mem(at + 5) && mem(at + 4 + 2) == mem(at + 6) && mem(at + 4 + 3) == mem(at + 7);
  }

  lemma Shifted(s: nat, v: nat)
    ensures 256 * s * v == 256 * (s * v)
  {
  }

  lemma {:induction false} Joined(mem: Memory, at: nat, a: nat, b: nat)
    ensures Value(mem, at, a + b) == Span(b) * Value(mem, at, a) + Value(mem, at + a, b)
  {
    if b > 0 {
      Joined(mem, at, a, b - 1);
      LastByte(mem, at, a + b - 1);
      LastByte(mem, at + a, b - 1);
      Shifted(Span(b - 1), Value(mem, at, a));
    }
  }

  // ---- a message as the numbers it consists of ----

  datatype Token = Half(h: U16) | Word(w: U32) | Double(d: U64)

  function TokenSize(t: Token): nat {
    match t
    case Half(_) => SHORT
    case Word(_) => INT
    case Double(_) => LONG
  }

  function TokenBytes(t: Token): (bs: seq<Byte>)
    ensures |bs| == TokenSize(t)
  {
    match t
    case Half(v) => Bytes(v, SHORT)
    case Word(v) => Bytes(v, INT)
    case Double(v) => Bytes(v, LONG)
  }

  /** A message: numbers one after the other. */
  datatype Message = Empty | Num(t: Token) | Cat(front: Message, back: Message)

  function Size(m: Message): nat {
    match m
    case Empty => 0
    case Num(t) => TokenSize(t)
    case Cat(a, b) => Size(a) + Size(b)
  }

  /** A message as bytes. */
  function Flatten(m: Message): (bs: seq<Byte>)
    ensures |bs| == Size(m)
  {
    match m
    case Empty => []
    case Num(t) => TokenBytes(t)
    case Cat(a, b) => Flatten(a) + Flatten(b)
  }

  /** The buffer reads as this number, whichever type it is converted to. */
  ghost predicate TokenHere(net: Net, at: nat, t: Token) {
    match t
    case Half(v) => net.ushort(at) == v && net.short(at) == ShortOf(v)
    case Word(v) => net.sint(at) == IntOf(v) && net.intAsShort(at) == LowShort(v)
    case Double(v) => net.ulong(at) == v && net.slong(at) == LongOf(v)
  }

  /** The buffer reads as this message. */
  ghost predicate Here(net: Net, at: nat, m: Message)
    decreases m
  {
    match m
    case Empty => true
    case Num(t) => TokenHere(net, at, t)
    case Cat(a, b) => Here(net, at, a) && Here(net, at + Size(a), b)
  }

  lemma TokenBack(mem: Memory, at: nat, t: Token)
    requires Holds(mem, at, TokenBytes(t))
    ensures TokenHere(Buffer(mem), at, t)
  {
    Spans();
    match t
    case Half(v) => ReadBack(mem, at, v, SHORT);
    case Word(v) => ReadBack(mem, at, v, INT);
    case Double(v) => ReadBack(mem, at, v, LONG);
  }

  /** Memory that holds the bytes of a message reads as that message. */
  lemma {:induction false} MessageBack(mem: Memory, at: nat, m: Message)
    requires Holds(mem, at, Flatten(m))
    ensures Here(Buffer(mem), at, m)
    decreases m
  {
    match m
    case Empty =>
    case Num(t) => TokenBack(mem, at, t);
    case Cat(a, b) =>
      HoldsParts(mem, at, Flatten(a), Flatten(b));
      MessageBack(mem, at, a);
      MessageBack(mem, at + Size(a), b);
  }
}
