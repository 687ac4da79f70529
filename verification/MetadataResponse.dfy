// The namenode's answer to a metadata query: parsing it, and what the parser accepts.
module MetadataResponses {
  import opened Words
  import opened NetBytes

  /** A replica: address and port of the datanode, and the physical places of the blocks. */
  datatype Location = Location(ip: int, port: nat, nrTriplets: Short, triplets: seq<U64>)

  /** A located request; it has as many logical blocks as hbids. */
  datatype Located = Located(
    slbid: nat, state: Short, nrHbids: Short, hbids: seq<U64>, nrLocs: Short, locs: seq<Location>)

  datatype Response = Response(
    volumeID: int, startLbid: U64, nrLbids: Short, commitId: U64, nrLrs: nat, lrs: seq<Located>)

  const HEADER: nat := 28

  // ---- C arithmetic ----

  /** The sum of two shorts, stored in a short. */
  function AddShort(x: Short, y: Short): Short {
    if x + y > 0x7FFF then x + y - 0x1_0000 else if x + y < -0x8000 then x + y + 0x1_0000 else x + y
  }

  /** A short added to a block id, on 64 bits. */
  function AddLong(start: U64, x: Short): U64 {
    if start + x < 0 then start + x + ULONG_LIMIT
    else if start + x >= ULONG_LIMIT then start + x - ULONG_LIMIT
    else start + x
  }

  /** How often a loop up to a signed bound runs. */
  function Rounds(n: int): nat { if n < 0 then 0 else n }

  // ---- what is where in the buffer ----

  ghost predicate LongsHere(net: Net, at: nat, xs: seq<U64>) {
    forall k: nat | k < |xs| :: xs[k] == net.ulong(at + 8 * k)
  }

  ghost predicate LocationHere(net: Net, at: nat, l: Location) {
    && l.ip == net.sint(at) && l.port == net.ushort(at + 4) && l.nrTriplets == net.intAsShort(at + 6)
    && |l.triplets| == Rounds(l.nrTriplets) && LongsHere(net, at + 10, l.triplets)
  }

  function LocationSize(l: Location): nat { 10 + 8 * |l.triplets| }

  function LocationsSize(ls: seq<Location>): (size: nat)
    ensures size >= |ls|
  {
    if ls == [] then 0 else LocationsSize(ls[..|ls| - 1]) + LocationSize(ls[|ls| - 1])
  }

  ghost predicate LocationStep(net: Net, at: nat, ls: seq<Location>, k: nat) {
    k < |ls| && LocationHere(net, at + LocationsSize(ls[..k]), ls[k])
  }

  ghost predicate LocationsHere(net: Net, at: nat, ls: seq<Location>) {
    forall k: nat {:trigger LocationStep(net, at, ls, k)} | k < |ls| :: LocationStep(net, at, ls, k)
  }

  ghost predicate LocatedHere(net: Net, at: nat, lr: Located) {
    && lr.state == net.short(at) && lr.nrHbids == net.short(at + 2)
    && |lr.hbids| == Rounds(lr.nrHbids) && LongsHere(net, at + 4, lr.hbids)
    && lr.nrLocs == net.short(at + 4 + 8 * |lr.hbids|)
    && |lr.locs| == Rounds(lr.nrLocs) && LocationsHere(net, at + 6 + 8 * |lr.hbids|, lr.locs)
  }

  function LocatedSize(lr: Located): nat { 6 + 8 * |lr.hbids| + LocationsSize(lr.locs) }

  function LocatedsSize(lrs: seq<Located>): (size: nat)
    ensures size >= |lrs|
  {
    if lrs == [] then 0 else LocatedsSize(lrs[..|lrs| - 1]) + LocatedSize(lrs[|lrs| - 1])
  }

  /** The offset of the next block, which the parser keeps in a short. */
  function LbidOffset(lrs: seq<Located>): Short {
    if lrs == [] then 0 else AddShort(LbidOffset(lrs[..|lrs| - 1]), lrs[|lrs| - 1].nrHbids)
  }

  ghost predicate LocatedStep(net: Net, at: nat, lrs: seq<Located>, k: nat) {
    k < |lrs| && LocatedHere(net, at + LocatedsSize(lrs[..k]), lrs[k]) && lrs[k].locs != []
  }

  /** Located requests one after the other, each with a replica. */
  ghost predicate LocatedsHere(net: Net, at: nat, lrs: seq<Located>) {
    forall k: nat {:trigger LocatedStep(net, at, lrs, k)} | k < |lrs| :: LocatedStep(net, at, lrs, k)
  }

  ghost predicate NumberStep(start: U64, lrs: seq<Located>, k: nat) {
    k < |lrs| && lrs[k].slbid == AddLong(start, LbidOffset(lrs[..k]))
  }

  /** They are numbered from the start block on. */
  ghost predicate Numbered(start: U64, lrs: seq<Located>) {
    forall k: nat {:trigger NumberStep(start, lrs, k)} | k < |lrs| :: NumberStep(start, lrs, k)
  }

  /** The parser gives up here: a located request without replicas. */
  ghost predicate StopsHere(net: Net, at: nat) {
    net.short(at + 4 + 8 * Rounds(net.short(at + 2))) <= 0
  }

  /** Located requests up to the last of `n`, or to the first without replicas. */
  ghost predicate ListHere(net: Net, at: nat, start: U64, n: nat, lrs: seq<Located>) {
    && LocatedsHere(net, at, lrs) && Numbered(start, lrs) && |lrs| <= n
    && (|lrs| < n ==> StopsHere(net, at + LocatedsSize(lrs)))
  }

  /** The header, and located requests up to the last or to the first without replicas. */
  ghost predicate ResponseHere(net: Net, at: nat, r: Response) {
    && r.volumeID == net.slong(at) && r.startLbid == net.ulong(at + 8) && r.nrLbids == net.short(at + 16)
    && r.commitId == net.ulong(at + 18) && r.nrLrs == net.ushort(at + 26)
    && ListHere(net, at + HEADER, r.startLbid, r.nrLrs, r.lrs)
  }

  /** What the parser returns for it: the number of bytes, or 0. */
  ghost function Consumed(r: Response): nat {
    if |r.lrs| == r.nrLrs > 0 then HEADER + LocatedsSize(r.lrs) else 0
  }

  // ---- the same, place by place ----

  /** Where a located request begins, where its locations begin and end, and the offset of its first block. */
  datatype Place = Place(at: nat, locs: seq<nat>, offset: int)

  /** The location that begins at `p`, and where the next one begins. */
  ghost predicate LocationAt(net: Net, p: nat, l: Location, next: nat) {
    && l.ip == net.sint(p) && l.port == net.ushort(p + 4) && l.nrTriplets == net.intAsShort(p + 6)
    && |l.triplets| == (if l.nrTriplets < 0 then 0 else l.nrTriplets)
    && (forall x: nat | x < |l.triplets| :: l.triplets[x] == net.ulong(p + 10 + 8 * x))
    && next == p + 10 + 8 * |l.triplets|
  }

  /** Locations one behind the other; they begin and end at these positions. */
  ghost predicate LocationsAt(net: Net, at: nat, ls: seq<Location>, ps: seq<nat>) {
    && |ps| == |ls| + 1 && ps[0] == at
    && forall k | 0 <= k < |ls| :: LocationAt(net, ps[k], ls[k], ps[k + 1])
  }

  /** The located request of a place, but for the number of its first block. */
  ghost predicate LocatedAt(net: Net, p: Place, lr: Located) {
    && lr.state == net.short(p.at) && lr.nrHbids == net.short(p.at + 2)
    && |lr.hbids| == (if lr.nrHbids < 0 then 0 else lr.nrHbids)
    && (forall x: nat | x < |lr.hbids| :: lr.hbids[x] == net.ulong(p.at + 4 + 8 * x))
    && lr.nrLocs == net.short(p.at + 4 + 8 * |lr.hbids|)
    && |lr.locs| == (if lr.nrLocs < 0 then 0 else lr.nrLocs)
    && LocationsAt(net, p.at + 6 + 8 * |lr.hbids|, lr.locs, p.locs)
  }

  /** The offset of the first block, on from that of another located request, in a short. */
  ghost predicate OffsetAfter(offset: int, before: int, nrHbids: int) {
    offset == (before + nrHbids + 0x8000) % 0x1_0000 - 0x8000
  }

  /** Located request number `k`, which begins where the one before it ends. */
  ghost predicate PlaceStep(net: Net, at: nat, start: U64, lrs: seq<Located>, ps: seq<Place>, k: nat) {
    && k < |lrs| && k < |ps| && LocatedAt(net, ps[k], lrs[k]) && lrs[k].locs != []
    && lrs[k].slbid == (start + ps[k].offset) % ULONG_LIMIT
    && (k == 0 ==> ps[k].at == at && ps[k].offset == 0)
    && (k > 0 ==> |ps[k - 1].locs| == |lrs[k - 1].locs| + 1 && ps[k].at == ps[k - 1].locs[|lrs[k - 1].locs|])
    && (k > 0 ==> OffsetAfter(ps[k].offset, ps[k - 1].offset, lrs[k - 1].nrHbids))
  }

  /**
   * Located requests one behind the other, each with a location. The first begins at `at`; its first
   * block is `start`. For each, the first block of the next is further by the number of its hbids,
   * in a short. The last one ends at `end`.
   */
  ghost predicate LocatedsAt(net: Net, at: nat, start: U64, lrs: seq<Located>, ps: seq<Place>, end: nat) {
    && |ps| == |lrs|
    && (forall k: nat {:trigger PlaceStep(net, at, start, lrs, ps, k)} | k < |lrs| ::
          PlaceStep(net, at, start, lrs, ps, k))
    && (if lrs == [] then end == at
        else ps[|lrs| - 1].locs != [] && end == ps[|lrs| - 1].locs[|ps[|lrs| - 1].locs| - 1])
  }

  lemma LocationPlaces(net: Net, at: nat, ls: seq<Location>) returns (ps: seq<nat>)
    requires LocationsHere(net, at, ls)
    ensures LocationsAt(net, at, ls, ps) && ps[|ls|] == at + LocationsSize(ls)
  {
    ps := seq(|ls| + 1, k requires 0 <= k <= |ls| => at + LocationsSize(ls[..k]));
    forall k | 0 <= k < |ls| ensures LocationAt(net, ps[k], ls[k], ps[k + 1]) {
      assert LocationStep(net, at, ls, k);
      assert ls[..k + 1][..k] == ls[..k];
    }
    assert ls[..|ls|] == ls;
  }

  lemma LocatedPlace(net: Net, at: nat, lr: Located, offset: int) returns (p: Place)
    requires LocatedHere(net, at, lr)
    ensures LocatedAt(net, p, lr) && p.at == at && p.offset == offset
    ensures p.locs[|lr.locs|] == at + LocatedSize(lr)
  {
    var locs := LocationPlaces(net, at + 6 + 8 * |lr.hbids|, lr.locs);
    p := Place(at, locs, offset);
  }

  lemma NextOffset(lrs: seq<Located>)
    requires lrs != []
    ensures OffsetAfter(LbidOffset(lrs), LbidOffset(lrs[..|lrs| - 1]), lrs[|lrs| - 1].nrHbids)
  {
  }

  lemma LongSum(start: U64, x: Short)
    ensures AddLong(start, x) == (start + x) % ULONG_LIMIT
  {
  }

  /** Behind located requests at their places comes another one. */
  lemma PlacesSnoc(net: Net, at: nat, start: U64, lrs: seq<Located>, ps: seq<Place>, lr: Located, p: Place)
    requires LocatedsAt(net, at, start, lrs, ps, p.at) && LocatedAt(net, p, lr) && lr.locs != []
    requires lr.slbid == (start + p.offset) % ULONG_LIMIT
    requires if lrs == [] then p.offset == 0
             else OffsetAfter(p.offset, ps[|lrs| - 1].offset, lrs[|lrs| - 1].nrHbids)
    ensures LocatedsAt(net, at, start, lrs + [lr], ps + [p], p.locs[|lr.locs|])
  {
    forall k: nat | k < |lrs| + 1 ensures PlaceStep(net, at, start, lrs + [lr], ps + [p], k) {
      if k < |lrs| {
        assert PlaceStep(net, at, start, lrs, ps, k);
      } else if k > 0 {
        assert PlaceStep(net, at, start, lrs, ps, k - 1);
      }
    }
  }

  lemma LastPlace(net: Net, at: nat, start: U64, lrs: seq<Located>, n: nat) returns (p: Place)
    requires LocatedsHere(net, at, lrs) && Numbered(start, lrs) && |lrs| == n + 1
    ensures lrs[n].locs != [] && LocatedAt(net, p, lrs[n]) && p.at == at + LocatedsSize(lrs[..n])
    ensures p.offset == LbidOffset(lrs[..n]) && lrs[n].slbid == (start + p.offset) % ULONG_LIMIT
    ensures p.locs[|lrs[n].locs|] == at + LocatedsSize(lrs)
  {
    assert LocatedStep(net, at, lrs, n) && NumberStep(start, lrs, n);
    p := LocatedPlace(net, at + LocatedsSize(lrs[..n]), lrs[n], LbidOffset(lrs[..n]));
    LongSum(start, LbidOffset(lrs[..n]));
  }

  lemma {:induction false} LocatedPlaces(net: Net, at: nat, start: U64, lrs: seq<Located>)
    returns (ps: seq<Place>, end: nat)
    requires LocatedsHere(net, at, lrs) && Numbered(start, lrs)
    ensures LocatedsAt(net, at, start, lrs, ps, end) && end == at + LocatedsSize(lrs)
    ensures lrs != [] ==> ps[|lrs| - 1].offset == LbidOffset(lrs[..|lrs| - 1])
  {
    ps, end := [], at + LocatedsSize(lrs);
    if lrs != [] {
      var n := |lrs| - 1;
      ListPrefix(net, at, start, lrs, n);
      var before;
      ps, before := LocatedPlaces(net, at, start, lrs[..n]);
      var p := LastPlace(net, at, start, lrs, n);
      if n > 0 {
        NextOffset(lrs[..n]);
        assert lrs[..n][..n - 1] == lrs[..n - 1];
      }
      PlacesSnoc(net, at, start, lrs[..n], ps, lrs[n], p);
      ps := ps + [p];
      assert lrs[..n] + [lrs[n]] == lrs;
    }
  }

  lemma ListPrefix(net: Net, at: nat, start: U64, lrs: seq<Located>, n: nat)
    requires LocatedsHere(net, at, lrs) && Numbered(start, lrs) && n <= |lrs|
    ensures LocatedsHere(net, at, lrs[..n]) && Numbered(start, lrs[..n])
  {
    forall k: nat | k < n ensures LocatedStep(net, at, lrs[..n], k) && NumberStep(start, lrs[..n], k) {
      assert LocatedStep(net, at, lrs, k) && NumberStep(start, lrs, k) && lrs[..n][..k] == lrs[..k];
    }
  }

  // ---- the parser ----

  method ReadLongs(net: Net, offset: nat, nr: int) returns (xs: seq<U64>, next: nat)
    ensures LongsHere(net, offset, xs) && |xs| == Rounds(nr) && next == offset + 8 * |xs|
  {
    xs, next := [], offset;
    var i := 0;
    while i < nr
      invariant 0 <= i <= Rounds(nr) && |xs| == i && LongsHere(net, offset, xs) && next == offset + 8 * i
    {
      xs, next := xs + [net.ulong(next)], next + LONG;
      i := i + 1;
    }
  }

  method ParseDatanodeLocation(net: Net, offset: nat) returns (l: Location, next: nat)
    ensures LocationHere(net, offset, l) && next == offset + LocationSize(l)
    ensures l.ip == net.sint(offset) && l.port == net.ushort(offset + 4) && l.nrTriplets == net.intAsShort(offset + 6)
    ensures |l.triplets| == if l.nrTriplets < 0 then 0 else l.nrTriplets
    ensures forall x: nat | x < |l.triplets| :: l.triplets[x] == net.ulong(offset + 10 + 8 * x)
    ensures next == offset + 10 + 8 * |l.triplets|
  {
    next := offset;
    var ip := net.sint(next);
    next := next + INT;
    var port := net.ushort(next);
    next := next + SHORT;
    var nrTriplets := net.intAsShort(next);
    next := next + INT;
    var triplets;
    triplets, next := ReadLongs(net, next, nrTriplets);
    l := Location(ip, port, nrTriplets, triplets);
  }

  lemma LocationsSnoc(net: Net, at: nat, ls: seq<Location>, l: Location)
    requires LocationsHere(net, at, ls) && LocationHere(net, at + LocationsSize(ls), l)
    ensures LocationsHere(net, at, ls + [l]) && LocationsSize(ls + [l]) == LocationsSize(ls) + LocationSize(l)
  {
    var more := ls + [l];
    assert more[..|ls|] == ls;
    forall k: nat | k < |more| ensures LocationStep(net, at, more, k) {
      if k < |ls| {
        assert LocationStep(net, at, ls, k) && more[..k] == ls[..k];
      }
    }
  }

  /** The replicas of a located request; returns how many bytes they take. */
  method ParseDatanodeLocations(net: Net, offset: nat, nrLocs: int)
    returns (bufOffset: nat, locs: seq<Location>, ghost ps: seq<nat>)
    ensures LocationsHere(net, offset, locs) && |locs| == Rounds(nrLocs) && bufOffset == LocationsSize(locs)
    ensures LocationsAt(net, offset, locs, ps) && bufOffset == ps[|locs|] - offset
  {
    bufOffset, locs := 0, [];
    var i := 0;
    while i < nrLocs
      invariant 0 <= i <= Rounds(nrLocs) && |locs| == i
      invariant LocationsHere(net, offset, locs) && bufOffset == LocationsSize(locs)
    {
      var l, next := ParseDatanodeLocation(net, offset + bufOffset);
      LocationsSnoc(net, offset, locs, l);
      locs, bufOffset := locs + [l], next - offset;
      i := i + 1;
    }
    ps := LocationPlaces(net, offset, locs);
  }

  /** One located request; returns how many bytes it takes, or 0 if it has no replicas. */
  method ParseLocatedRequest(net: Net, offset: nat, slbid: nat) returns (retcode: nat, lr: Located, ghost ps: seq<nat>)
    ensures LocatedHere(net, offset, lr) && lr.slbid == slbid
    ensures retcode == if lr.locs == [] then 0 else LocatedSize(lr)
    ensures lr.state == net.short(offset) && lr.nrHbids == net.short(offset + 2)
    ensures |lr.hbids| == if lr.nrHbids < 0 then 0 else lr.nrHbids
    ensures forall x: nat | x < |lr.hbids| :: lr.hbids[x] == net.ulong(offset + 4 + 8 * x)
    ensures lr.nrLocs == net.short(offset + 4 + 8 * |lr.hbids|) && |lr.locs| == if lr.nrLocs < 0 then 0 else lr.nrLocs
    ensures LocationsAt(net, offset + 6 + 8 * |lr.hbids|, lr.locs, ps)
    ensures retcode == if lr.locs == [] then 0 else ps[|lr.locs|] - offset
  {
    var next := offset;
    var state := net.short(next);
    next := next + SHORT;
    var nrHbids := net.short(next);
    next := next + SHORT;
    var hbids;
    hbids, next := ReadLongs(net, next, nrHbids);
    var nrLocs := net.short(next);
    next := next + SHORT;
    var locs;
    retcode, locs, ps := ParseDatanodeLocations(net, next, nrLocs);
    lr := Located(slbid, state, nrHbids, hbids, nrLocs, locs);
    if retcode > 0 {
      retcode := retcode + (next - offset);
    }
  }

  lemma LocatedsSnoc(net: Net, at: nat, lrs: seq<Located>, lr: Located)
    requires LocatedsHere(net, at, lrs) && LocatedHere(net, at + LocatedsSize(lrs), lr) && lr.locs != []
    ensures LocatedsHere(net, at, lrs + [lr]) && LocatedsSize(lrs + [lr]) == LocatedsSize(lrs) + LocatedSize(lr)
  {
    var more := lrs + [lr];
    assert more[..|lrs|] == lrs;
    forall k: nat | k < |more| ensures LocatedStep(net, at, more, k) {
      if k < |lrs| {
        assert LocatedStep(net, at, lrs, k) && more[..k] == lrs[..k];
      }
    }
  }

  lemma NumberedSnoc(start: U64, lrs: seq<Located>, lr: Located)
    requires Numbered(start, lrs) && lr.slbid == AddLong(start, LbidOffset(lrs))
    ensures Numbered(start, lrs + [lr]) && LbidOffset(lrs + [lr]) == AddShort(LbidOffset(lrs), lr.nrHbids)
  {
    var more := lrs + [lr];
    assert more[..|lrs|] == lrs;
    forall k: nat | k < |more| ensures NumberStep(start, more, k) {
      if k < |lrs| {
        assert NumberStep(start, lrs, k) && more[..k] == lrs[..k];
      }
    }
  }

  /** All located requests, numbered from the start block on; gives up at the first without replicas. */
  method ParseLocatedRequests(net: Net, offset: nat, start: U64, nrLrs: nat)
    returns (retcode: nat, lrs: seq<Located>, ghost places: seq<Place>, ghost end: nat)
    ensures LocatedsHere(net, offset, lrs) && Numbered(start, lrs) && |lrs| <= nrLrs
    ensures |lrs| < nrLrs ==> StopsHere(net, offset + LocatedsSize(lrs))
    ensures retcode == if |lrs| == nrLrs then LocatedsSize(lrs) else 0
    ensures LocatedsAt(net, offset, start, lrs, places, end) && end == offset + LocatedsSize(lrs)
    ensures retcode == if |lrs| == nrLrs then end - offset else 0
  {
    lrs := [];
    var bufOffset := 0;
    var lbidOffset: Short := 0;
    var i := 0;
    while i < nrLrs
      invariant i <= nrLrs && |lrs| == i && LocatedsHere(net, offset, lrs) && Numbered(start, lrs)
      invariant bufOffset == LocatedsSize(lrs) && lbidOffset == LbidOffset(lrs)
    {
      var lr;
      ghost var ps;
      retcode, lr, ps := ParseLocatedRequest(net, offset + bufOffset, AddLong(start, lbidOffset));
      if retcode == 0 {
        places, end := LocatedPlaces(net, offset, start, lrs);
        return;
      }
      LocatedsSnoc(net, offset, lrs, lr);
      NumberedSnoc(start, lrs, lr);
      bufOffset := bufOffset + retcode;
      lbidOffset := AddShort(lbidOffset, lr.nrHbids);
      lrs := lrs + [lr];
      i := i + 1;
    }
    retcode := bufOffset;
    places, end := LocatedPlaces(net, offset, start, lrs);
  }

  /** The response; returns how many bytes it takes, or 0. */
  method ParseMetadataResponse(net: Net, offset: nat)
    returns (retcode: nat, r: Response, ghost places: seq<Place>, ghost end: nat)
    ensures ResponseHere(net, offset, r) && retcode == Consumed(r)
    ensures r.volumeID == net.slong(offset) && r.startLbid == net.ulong(offset + 8)
    ensures r.nrLbids == net.short(offset + 16) && r.commitId == net.ulong(offset + 18)
    ensures r.nrLrs == net.ushort(offset + 26) && |r.lrs| <= r.nrLrs
    ensures LocatedsAt(net, offset + 28, r.startLbid, r.lrs, places, end)
    ensures |r.lrs| < r.nrLrs ==>
      var nrHbids := net.short(end + 2);
      net.short(end + 4 + if nrHbids < 0 then 0 else 8 * nrHbids) <= 0
    ensures retcode == if |r.lrs| == r.nrLrs > 0 then end - offset else 0
  {
    var next := offset;
    var volumeID := net.slong(next);
    next := next + LONG;
    var start := net.ulong(next);
    next := next + LONG;
    var nrLbids := net.short(next);
    next := next + SHORT;
    var commitId := net.ulong(next);
    next := next + LONG;
    var nrLrs := net.ushort(next);
    next := next + SHORT;
    var lrs;
    retcode, lrs, places, end := ParseLocatedRequests(net, next, start, nrLrs);
    r := Response(volumeID, start, nrLbids, commitId, nrLrs, lrs);
    if retcode > 0 {
      retcode := retcode + (next - offset);
    }
  }
}
