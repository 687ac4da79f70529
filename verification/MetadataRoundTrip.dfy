// Responses as messages: the parser gives back what was sent, for every response it should accept.
module MetadataRoundTrips {
  import opened Words
  import opened NetBytes
  import opened MetadataResponses

  // ---- printing, in the parser's field order ----

  function UShort(x: Short): U16 { if x < 0 then x + 0x1_0000 else x }

  function PrintLongs(xs: seq<U64>): Message {
    if xs == [] then Empty else Cat(PrintLongs(xs[..|xs| - 1]), Num(Double(xs[|xs| - 1])))
  }

  lemma {:induction false} LongsBack(net: Net, at: nat, xs: seq<U64>)
    ensures Size(PrintLongs(xs)) == 8 * |xs|
    ensures Here(net, at, PrintLongs(xs)) ==> LongsHere(net, at, xs)
  {
    if xs != [] {
      var n := |xs| - 1;
      LongsBack(net, at, xs[..n]);
      if Here(net, at, PrintLongs(xs)) {
        PairHere(net, at, PrintLongs(xs[..n]), Num(Double(xs[n])));
        assert TokenHere(net, at + 8 * n, Double(xs[n]));
        forall k: nat | k < |xs| ensures xs[k] == net.ulong(at + 8 * k) {
          assert k < n ==> xs[..n][k] == xs[k];
        }
      }
    }
  }

  /** A location that fits its fields. */
  ghost predicate LocationOk(l: Location) {
    -0x8000_0000 <= l.ip < 0x8000_0000 && l.port < 0x1_0000 && l.nrTriplets == |l.triplets|
  }

  ghost function PrintLocation(l: Location): Message
    requires LocationOk(l)
  {
    Cat(Cat(Num(Word(if l.ip < 0 then l.ip + 0x1_0000_0000 else l.ip)), Num(Half(l.port))),
        Cat(Num(Word(l.nrTriplets)), PrintLongs(l.triplets)))
  }

  lemma PairHere(net: Net, at: nat, a: Message, b: Message)
    ensures Size(Cat(a, b)) == Size(a) + Size(b)
    ensures Here(net, at, Cat(a, b)) <==> Here(net, at, a) && Here(net, at + Size(a), b)
  {
  }

  lemma LocationBack(net: Net, at: nat, l: Location)
    requires LocationOk(l)
    ensures Size(PrintLocation(l)) == LocationSize(l)
    ensures Here(net, at, PrintLocation(l)) ==> LocationHere(net, at, l)
  {
    LongsBack(net, at + 10, l.triplets);
    PairHere(net, at + 6, Num(Word(l.nrTriplets)), PrintLongs(l.triplets));
    PairHere(net, at, Num(Word(if l.ip < 0 then l.ip + 0x1_0000_0000 else l.ip)), Num(Half(l.port)));
  }

  ghost predicate LocationsOk(ls: seq<Location>) {
    forall k | 0 <= k < |ls| :: LocationOk(ls[k])
  }

  ghost function PrintLocations(ls: seq<Location>): Message
    requires LocationsOk(ls)
  {
    if ls == [] then Empty else Cat(PrintLocations(ls[..|ls| - 1]), PrintLocation(ls[|ls| - 1]))
  }

  lemma {:induction false} LocationsBack(net: Net, at: nat, ls: seq<Location>)
    requires LocationsOk(ls)
    ensures Size(PrintLocations(ls)) == LocationsSize(ls)
    ensures Here(net, at, PrintLocations(ls)) ==> LocationsHere(net, at, ls)
  {
    if ls != [] {
      var before, l := ls[..|ls| - 1], ls[|ls| - 1];
      LocationsBack(net, at, before);
      LocationBack(net, at + LocationsSize(before), l);
      if Here(net, at, PrintLocations(ls)) {
        LocationsSnoc(net, at, before, l);
        assert before + [l] == ls;
      }
    }
  }

  ghost predicate LocatedOk(lr: Located) {
    lr.nrHbids == |lr.hbids| && lr.nrLocs == |lr.locs| && LocationsOk(lr.locs)
  }

  ghost function PrintLocated(lr: Located): Message
    requires LocatedOk(lr)
  {
    Cat(Cat(Num(Half(UShort(lr.state))), Num(Half(lr.nrHbids))),
        Cat(PrintLongs(lr.hbids), PrintRest(lr)))
  }

  ghost function PrintRest(lr: Located): Message
    requires LocatedOk(lr)
  {
    Cat(Num(Half(lr.nrLocs)), PrintLocations(lr.locs))
  }

  lemma RestBack(net: Net, at: nat, lr: Located)
    requires LocatedOk(lr)
    ensures Size(PrintRest(lr)) == 2 + LocationsSize(lr.locs)
    ensures Here(net, at, PrintRest(lr)) ==> net.short(at) == lr.nrLocs && LocationsHere(net, at + 2, lr.locs)
  {
    LocationsBack(net, at + 2, lr.locs);
    PairHere(net, at, Num(Half(lr.nrLocs)), PrintLocations(lr.locs));
  }

  lemma LocatedBack(net: Net, at: nat, lr: Located)
    requires LocatedOk(lr)
    ensures Size(PrintLocated(lr)) == LocatedSize(lr)
    ensures Here(net, at, PrintLocated(lr)) ==> LocatedHere(net, at, lr)
  {
    LongsBack(net, at + 4, lr.hbids);
    RestBack(net, at + 4 + 8 * |lr.hbids|, lr);
    PairHere(net, at + 4, PrintLongs(lr.hbids), PrintRest(lr));
    PairHere(net, at, Num(Half(UShort(lr.state))), Num(Half(lr.nrHbids)));
  }

  ghost predicate LocatedsOk(lrs: seq<Located>) {
    forall k | 0 <= k < |lrs| :: LocatedOk(lrs[k])
  }

  ghost function PrintLocateds(lrs: seq<Located>): Message
    requires LocatedsOk(lrs)
  {
    if lrs == [] then Empty else Cat(PrintLocateds(lrs[..|lrs| - 1]), PrintLocated(lrs[|lrs| - 1]))
  }

  /** `acc` are the located requests before the first without replicas. */
  ghost predicate Accepted(lrs: seq<Located>, acc: seq<Located>) {
    && acc <= lrs && (forall k | 0 <= k < |acc| :: acc[k].locs != [])
    && (|acc| < |lrs| ==> lrs[|acc|].locs == [])
  }

  lemma AcceptedSnoc(before: seq<Located>, acc: seq<Located>, lr: Located)
    requires Accepted(before, acc)
    ensures Accepted(before + [lr], if acc == before && lr.locs != [] then before + [lr] else acc)
  {
  }

  lemma EmptyStops(net: Net, at: nat, lr: Located)
    requires LocatedHere(net, at, lr) && lr.locs == []
    ensures StopsHere(net, at)
  {
  }

  /** The parser finds the accepted ones, and stops behind them if there are more. */
  ghost predicate AcceptedHere(net: Net, at: nat, lrs: seq<Located>, acc: seq<Located>) {
    LocatedsHere(net, at, acc) && (acc != lrs ==> StopsHere(net, at + LocatedsSize(acc)))
  }

  lemma AcceptedBack(net: Net, at: nat, before: seq<Located>, acc: seq<Located>, lr: Located)
    requires Accepted(before, acc) && AcceptedHere(net, at, before, acc)
    requires LocatedHere(net, at + LocatedsSize(before), lr)
    ensures AcceptedHere(net, at, before + [lr], if acc == before && lr.locs != [] then before + [lr] else acc)
  {
    if acc == before {
      if lr.locs == [] {
        EmptyStops(net, at + LocatedsSize(before), lr);
      } else {
        LocatedsSnoc(net, at, before, lr);
      }
    }
  }

  lemma AcceptNext(net: Net, at: nat, before: seq<Located>, acc: seq<Located>, lr: Located) returns (more: seq<Located>)
    requires Accepted(before, acc) && LocatedOk(lr)
    ensures Accepted(before + [lr], more) && Size(PrintLocated(lr)) == LocatedSize(lr)
    ensures AcceptedHere(net, at, before, acc) && Here(net, at + LocatedsSize(before), PrintLocated(lr)) ==>
      AcceptedHere(net, at, before + [lr], more)
  {
    LocatedBack(net, at + LocatedsSize(before), lr);
    AcceptedSnoc(before, acc, lr);
    if AcceptedHere(net, at, before, acc) && Here(net, at + LocatedsSize(before), PrintLocated(lr)) {
      AcceptedBack(net, at, before, acc, lr);
    }
    more := if acc == before && lr.locs != [] then before + [lr] else acc;
  }

  lemma {:induction false} LocatedsBack(net: Net, at: nat, lrs: seq<Located>) returns (acc: seq<Located>)
    requires LocatedsOk(lrs)
    ensures Size(PrintLocateds(lrs)) == LocatedsSize(lrs) && Accepted(lrs, acc)
    ensures Here(net, at, PrintLocateds(lrs)) ==> AcceptedHere(net, at, lrs, acc)
  {
    acc := lrs;
    if lrs != [] {
      var before, lr := lrs[..|lrs| - 1], lrs[|lrs| - 1];
      acc := LocatedsBack(net, at, before);
      acc := AcceptNext(net, at, before, acc, lr);
      assert before + [lr] == lrs;
    }
  }

  /** A response that fits its fields, with its located requests numbered as the parser numbers them. */
  ghost predicate ResponseOk(r: Response) {
    && -0x8000_0000_0000_0000 <= r.volumeID < 0x8000_0000_0000_0000
    && |r.lrs| == r.nrLrs < 0x1_0000 && LocatedsOk(r.lrs) && Numbered(r.startLbid, r.lrs)
  }

  ghost function PrintHeader(r: Response): Message
    requires ResponseOk(r)
  {
    Cat(Cat(Num(Double(if r.volumeID < 0 then r.volumeID + ULONG_LIMIT else r.volumeID)), Num(Double(r.startLbid))),
        Cat(Num(Half(UShort(r.nrLbids))), Cat(Num(Double(r.commitId)), Num(Half(r.nrLrs)))))
  }

  ghost function Print(r: Response): Message
    requires ResponseOk(r)
  {
    Cat(PrintHeader(r), PrintLocateds(r.lrs))
  }

  lemma NumberedPrefix(start: U64, lrs: seq<Located>, acc: seq<Located>)
    requires Numbered(start, lrs) && acc <= lrs
    ensures Numbered(start, acc)
  {
    forall k: nat | k < |acc| ensures NumberStep(start, acc, k) {
      assert NumberStep(start, lrs, k) && acc[..k] == lrs[..k];
    }
  }

  lemma HeaderBack(net: Net, at: nat, r: Response)
    requires ResponseOk(r) && Here(net, at, PrintHeader(r))
    ensures net.slong(at) == r.volumeID && net.ulong(at + 8) == r.startLbid && net.short(at + 16) == r.nrLbids
    ensures net.ulong(at + 18) == r.commitId && net.ushort(at + 26) == r.nrLrs
  {
    var c, d, e := Num(Half(UShort(r.nrLbids))), Num(Double(r.commitId)), Num(Half(r.nrLrs));
    PairHere(net, at, Num(Double(if r.volumeID < 0 then r.volumeID + ULONG_LIMIT else r.volumeID)),
             Num(Double(r.startLbid)));
    PairHere(net, at + 16, c, Cat(d, e));
    PairHere(net, at + 18, d, e);
  }

  lemma PairSize(a: Message, b: Message)
    ensures Size(Cat(a, b)) == Size(a) + Size(b)
  {
  }

  lemma HeaderSize(r: Response)
    requires ResponseOk(r)
    ensures Size(PrintHeader(r)) == HEADER
  {
    var a, b := Num(Double(if r.volumeID < 0 then r.volumeID + ULONG_LIMIT else r.volumeID)), Num(Double(r.startLbid));
    var c, d, e := Num(Half(UShort(r.nrLbids))), Num(Double(r.commitId)), Num(Half(r.nrLrs));
    PairSize(a, b);
    PairSize(d, e);
    PairSize(c, Cat(d, e));
    PairSize(Cat(a, b), Cat(c, Cat(d, e)));
  }

  /** What there is to find in a printed response: the located requests before the first without replicas. */
  lemma ResponseBack(net: Net, at: nat, r: Response) returns (acc: seq<Located>)
    requires ResponseOk(r) && Here(net, at, Print(r))
    ensures Accepted(r.lrs, acc) && ResponseHere(net, at, r.(lrs := acc))
    ensures Size(Print(r)) == HEADER + LocatedsSize(r.lrs)
  {
    HeaderSize(r);
    HeaderBack(net, at, r);
    acc := LocatedsBack(net, at + HEADER, r.lrs);
    NumberedPrefix(r.startLbid, r.lrs, acc);
  }

  // ---- what the parser finds is unique ----

  lemma LocationUnique(net: Net, at: nat, a: Location, b: Location)
    requires LocationHere(net, at, a) && LocationHere(net, at, b)
    ensures a == b
  {
  }

  lemma {:induction false} LocationsUnique(net: Net, at: nat, a: seq<Location>, b: seq<Location>)
    requires LocationsHere(net, at, a) && LocationsHere(net, at, b) && |a| == |b|
    ensures a == b
    decreases |a|
  {
    if a != [] {
      var n := |a| - 1;
      LocationsPrefix(net, at, a, n);
      LocationsPrefix(net, at, b, n);
      LocationsUnique(net, at, a[..n], b[..n]);
      assert LocationStep(net, at, a, n) && LocationStep(net, at, b, n);
      LocationUnique(net, at + LocationsSize(a[..n]), a[n], b[n]);
      assert a == a[..n] + [a[n]] && b == b[..n] + [b[n]];
    }
  }

  lemma LocationsPrefix(net: Net, at: nat, ls: seq<Location>, n: nat)
    requires LocationsHere(net, at, ls) && n <= |ls|
    ensures LocationsHere(net, at, ls[..n])
  {
    forall k: nat | k < n ensures LocationStep(net, at, ls[..n], k) {
      assert LocationStep(net, at, ls, k) && ls[..n][..k] == ls[..k];
    }
  }

  lemma LocatedUnique(net: Net, at: nat, a: Located, b: Located)
    requires LocatedHere(net, at, a) && LocatedHere(net, at, b) && a.slbid == b.slbid
    ensures a == b
  {
    assert a.hbids == b.hbids;
    LocationsUnique(net, at + 6 + 8 * |a.hbids|, a.locs, b.locs);
  }

  lemma LocatedsPrefix(net: Net, at: nat, lrs: seq<Located>, n: nat)
    requires LocatedsHere(net, at, lrs) && n <= |lrs|
    ensures LocatedsHere(net, at, lrs[..n])
  {
    forall k: nat | k < n ensures LocatedStep(net, at, lrs[..n], k) {
      assert LocatedStep(net, at, lrs, k) && lrs[..n][..k] == lrs[..k];
    }
  }

  lemma LastUnique(net: Net, at: nat, start: U64, before: seq<Located>, x: Located, y: Located)
    requires LocatedHere(net, at + LocatedsSize(before), x) && LocatedHere(net, at + LocatedsSize(before), y)
    requires x.slbid == AddLong(start, LbidOffset(before)) == y.slbid
    ensures x == y
  {
    LocatedUnique(net, at + LocatedsSize(before), x, y);
  }

  lemma {:induction false} LocatedsUnique(net: Net, at: nat, start: U64, a: seq<Located>, b: seq<Located>)
    requires LocatedsHere(net, at, a) && LocatedsHere(net, at, b) && |a| == |b|
    requires Numbered(start, a) && Numbered(start, b)
    ensures a == b
    decreases |a|
  {
    if a != [] {
      var n := |a| - 1;
      LocatedsPrefix(net, at, a, n);
      LocatedsPrefix(net, at, b, n);
      NumberedPrefix(start, a, a[..n]);
      NumberedPrefix(start, b, b[..n]);
      LocatedsUnique(net, at, start, a[..n], b[..n]);
      assert LocatedStep(net, at, a, n) && LocatedStep(net, at, b, n);
      assert NumberStep(start, a, n) && NumberStep(start, b, n);
      LastUnique(net, at, start, a[..n], a[n], b[n]);
      assert a == a[..n] + [a[n]] && b == b[..n] + [b[n]];
    }
  }

  lemma {:induction false} BeyondPrefix(net: Net, at: nat, start: U64, a: seq<Located>, b: seq<Located>, p: nat)
    returns (lr: Located)
    requires LocatedsHere(net, at, a) && LocatedsHere(net, at, b) && Numbered(start, a) && Numbered(start, b)
    requires |a| < |b| && p == at + LocatedsSize(a)
    ensures LocatedHere(net, p, lr) && lr.locs != []
  {
    lr := b[|a|];
    LocatedsPrefix(net, at, b, |a|);
    NumberedPrefix(start, b, b[..|a|]);
    LocatedsUnique(net, at, start, a, b[..|a|]);
    assert LocatedStep(net, at, b, |a|);
  }

  lemma NoStop(net: Net, at: nat, lr: Located)
    requires LocatedHere(net, at, lr) && lr.locs != []
    ensures !StopsHere(net, at)
  {
  }

  /** Where the parser stops there is no located request with replicas. */
  lemma {:induction false} NotLonger(net: Net, at: nat, start: U64, a: seq<Located>, b: seq<Located>, n: nat, p: nat)
    requires LocatedsHere(net, at, a) && LocatedsHere(net, at, b) && Numbered(start, a) && Numbered(start, b)
    requires p == at + LocatedsSize(a) && |b| <= n && (|a| < n ==> StopsHere(net, p))
    ensures |b| <= |a|
  {
    if |a| < |b| {
      var lr := BeyondPrefix(net, at, start, a, b, p);
      NoStop(net, p, lr);
    }
  }

  lemma ListUnique(net: Net, at: nat, start: U64, n: nat, a: seq<Located>, b: seq<Located>)
    requires ListHere(net, at, start, n, a) && ListHere(net, at, start, n, b)
    ensures a == b
  {
    NotLonger(net, at, start, a, b, n, at + LocatedsSize(a));
    NotLonger(net, at, start, b, a, n, at + LocatedsSize(b));
    LocatedsUnique(net, at, start, a, b);
  }

  /** A buffer determines the response that the parser finds in it. */
  lemma ResponseUnique(net: Net, at: nat, r: Response, s: Response)
    requires ResponseHere(net, at, r) && ResponseHere(net, at, s)
    ensures r == s
  {
    ListUnique(net, at + HEADER, r.startLbid, r.nrLrs, r.lrs, s.lrs);
  }

  lemma AcceptedAll(lrs: seq<Located>, acc: seq<Located>)
    requires Accepted(lrs, acc)
    ensures |acc| == |lrs| ==> acc == lrs
    ensures |acc| == |lrs| <==> forall k | 0 <= k < |lrs| :: lrs[k].locs != []
  {
  }

  /**
   * The round trip, and its exact condition: from the bytes of a response the parser gets the
   * response back and returns the number of bytes if and only if there is a located request and
   * each has a replica. Otherwise it returns 0.
   */
  lemma ParsesBack(mem: Memory, at: nat, r: Response, s: Response)
    requires ResponseOk(r) && Holds(mem, at, Flatten(Print(r))) && ResponseHere(Buffer(mem), at, s)
    ensures var good := r.lrs != [] && forall k | 0 <= k < |r.lrs| :: r.lrs[k].locs != [];
      && Consumed(s) == (if good then |Flatten(Print(r))| else 0)
      && (good ==> s == r)
      && Accepted(r.lrs, s.lrs)
  {
    MessageBack(mem, at, Print(r));
    var acc := ResponseBack(Buffer(mem), at, r);
    ResponseUnique(Buffer(mem), at, s, r.(lrs := acc));
    AcceptedAll(r.lrs, acc);
  }

  // ---- block numbers ----

  function Total(lrs: seq<Located>): int {
    if lrs == [] then 0 else Total(lrs[..|lrs| - 1]) + lrs[|lrs| - 1].nrHbids
  }

  ghost predicate Counted(lrs: seq<Located>) {
    forall k | 0 <= k < |lrs| :: lrs[k].nrHbids >= 0
  }

  lemma {:induction false} TotalBounds(lrs: seq<Located>)
    requires Counted(lrs)
    ensures Total(lrs) >= 0
  {
    if lrs != [] {
      TotalBounds(lrs[..|lrs| - 1]);
    }
  }

  lemma {:induction false} TotalGrows(lrs: seq<Located>, k: nat)
    requires Counted(lrs) && k <= |lrs|
    ensures Total(lrs[..k]) <= Total(lrs)
    decreases |lrs|
  {
    if k < |lrs| {
      TotalGrows(lrs[..|lrs| - 1], k);
      assert lrs[..|lrs| - 1][..k] == lrs[..k];
    } else {
      assert lrs[..k] == lrs;
    }
  }

  /** The offset is the total, but for a multiple of 2^16. */
  lemma {:induction false} OffsetWraps(lrs: seq<Located>) returns (c: int)
    ensures Total(lrs) == LbidOffset(lrs) + 0x1_0000 * c && -0x8000 * |lrs| <= Total(lrs) <= 0x7FFF * |lrs|
  {
    c := 0;
    if lrs != [] {
      var before := lrs[..|lrs| - 1];
      c := OffsetWraps(before);
      var sum := LbidOffset(before) + lrs[|lrs| - 1].nrHbids;
      c := if sum > 0x7FFF then c + 1 else if sum < -0x8000 then c - 1 else c;
    }
  }

  /** The block that comes after some located requests, if their blocks follow the start block. */
  ghost predicate FitsShort(start: U64, before: seq<Located>) {
    -0x8000 <= Total(before) <= 0x7FFF && 0 <= start + Total(before) < ULONG_LIMIT
  }

  lemma TilesAt(start: U64, before: seq<Located>)
    requires |before| < 0x1_0000
    ensures AddLong(start, LbidOffset(before)) == start + Total(before) <==> FitsShort(start, before)
  {
    var c := OffsetWraps(before);
  }

  /**
   * Each located request starts where those before it end, if and only if the number of blocks
   * before it fits a short and leads to a block number.
   */
  lemma Tiling(start: U64, lrs: seq<Located>)
    requires Numbered(start, lrs) && |lrs| < 0x1_0000
    ensures (forall k | 0 <= k < |lrs| :: lrs[k].slbid == start + Total(lrs[..k]))
      <==> forall k | 0 <= k < |lrs| :: FitsShort(start, lrs[..k])
  {
    forall k | 0 <= k < |lrs|
      ensures lrs[k].slbid == start + Total(lrs[..k]) <==> FitsShort(start, lrs[..k])
    {
      assert NumberStep(start, lrs, k);
      TilesAt(start, lrs[..k]);
    }
  }

  /**
   * With block counts that are not negative and a range that ends below 2^64, that is: if and only
   * if the blocks of all but the last fit in a short.
   */
  lemma TilingOfCounts(start: U64, lrs: seq<Located>)
    requires Numbered(start, lrs) && Counted(lrs) && |lrs| < 0x1_0000 && start + Total(lrs) < ULONG_LIMIT
    ensures (forall k | 0 <= k < |lrs| :: lrs[k].slbid == start + Total(lrs[..k]))
      <==> lrs == [] || Total(lrs[..|lrs| - 1]) <= 0x7FFF
  {
    Tiling(start, lrs);
    forall k | 0 <= k < |lrs|
      ensures 0 <= Total(lrs[..k]) <= Total(lrs[..|lrs| - 1]) && Total(lrs[..k]) <= Total(lrs)
    {
      TotalBounds(lrs[..k]);
      TotalGrows(lrs, k);
      TotalGrows(lrs[..|lrs| - 1], k);
      assert lrs[..|lrs| - 1][..k] == lrs[..k];
    }
  }
}
