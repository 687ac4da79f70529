// Splitting a kernel request into DMS_IOs, each with its own list of logical blocks.
module DioSplits {
  import opened Words
  import opened AllocationRanges
  import opened LinkedRings
  import opened BlockLists
  import opened Options

  // ---- splicing a list ----

  /**
   * Moves the first `length` elements of a list to an empty list head. If there are not that
   * many nothing changes; the number of elements walked over is returned.
   */
  method MoveSubList(origHead: Link, length: nat, newHead: Link, ghost r: seq<Link>) returns (retcode: nat)
    requires Ring(r) && r[0] == origHead && length > 0 && newHead !in r
    modifies r, newHead
    ensures retcode == if length < |r| then length else |r| - 1
    ensures length < |r| ==> Ring([newHead] + r[1..length + 1]) && Ring([origHead] + r[length + 1..])
    ensures length >= |r| ==> Ring(r) && newHead.next == old(newHead.next) && newHead.prev == old(newHead.prev)
  {
    retcode := 0;
    assert Joined(r, 0);
    var cur := origHead.next;
    while cur != origHead
      invariant retcode < |r| && cur == After(r, retcode) && retcode < length
      decreases |r| - retcode
    {
      retcode := retcode + 1;
      if retcode == length {
        Splice(origHead, cur, newHead, r, length);
        return;
      }
      assert Joined(r, retcode);
      cur := cur.next;
    }
  }

  lemma CutFacts(r: seq<Link>, newHead: Link, n: nat)
    requires 0 < n < |r| && Distinct(r) && newHead !in r
    ensures var front, back := [newHead] + r[1..n + 1], [r[0]] + r[n + 1..];
      && |front| == n + 1 && |back| == |r| - n && Distinct(front) && Distinct(back)
      && (forall k | 0 < k <= n :: front[k] == r[k]) && (forall k | 0 < k < |back| :: back[k] == r[n + k])
  {
  }

  /** The pointer surgery: cuts the list behind `cur`. */
  method Splice(origHead: Link, cur: Link, newHead: Link, ghost r: seq<Link>, ghost n: nat)
    requires Ring(r) && r[0] == origHead && 0 < n < |r| && r[n] == cur && newHead !in r
    modifies r, newHead
    ensures Ring([newHead] + r[1..n + 1]) && Ring([origHead] + r[n + 1..])
  {
    assert Joined(r, 0) && Joined(r, n);
    newHead.next := origHead.next;
    newHead.next.prev := newHead;
    origHead.next := cur.next;
    cur.next.prev := origHead;
    newHead.prev := cur;
    cur.next := newHead;
    ghost var front, back := [newHead] + r[1..n + 1], [origHead] + r[n + 1..];
    CutFacts(r, newHead, n);
    forall k: nat | k < |front| ensures Joined(front, k) {
      assert old(Joined(r, k));
    }
    forall k: nat | k < |back| ensures Joined(back, k) {
      assert k > 0 ==> old(Joined(r, n + k));
    }
  }

  // ---- the request as a value ----

  /** A DMS_IO as it is first queued: operation, block range, and the head of its block list. */
  datatype Dio = Dio(op: Op, sLBID: nat, nrLBIDs: nat, list: Link)

  /** Dealing out a list of blocks to stretches: the last one takes what is left; too short a list fails. */
  ghost function Dealt(d: seq<nat>, ps: seq<Piece>): Option<seq<seq<nat>>>
    decreases ps
  {
    if ps == [] then Some([])
    else if |ps| == 1 then Some([d])
    else if |d| < ps[0].length then None
    else
      match Dealt(d[ps[0].length..], ps[1..])
      case None => None
      case Some(rest) => Some([d[..ps[0].length]] + rest)
  }

  /** The blocks from `s` on, `n` of them. */
  ghost function Blocks(s: nat, n: nat): seq<nat> {
    seq(n, i requires 0 <= i < n => s + i)
  }

  /** A list that holds exactly the blocks of the range gives each stretch exactly its own. */
  lemma {:induction false} DealtBlocks(ps: seq<Piece>, s: nat, n: nat)
    requires Tiles(ps, s, n)
    ensures Dealt(Blocks(s, n), ps).Some?
    ensures var lists := Dealt(Blocks(s, n), ps).value;
      |lists| == |ps| && forall i | 0 <= i < |ps| :: lists[i] == Blocks(ps[i].start, ps[i].length)
    decreases ps
  {
    if ps != [] {
      var l := ps[0].length;
      assert Blocks(s, n)[..l] == Blocks(s, l) && Blocks(s, n)[l..] == Blocks(s + l, n - l);
      DealtBlocks(ps[1..], s + l, n - l);
      if |ps| == 1 {
        assert Tiles(ps[1..], s + l, n - l) && n == l;
      }
    }
  }

  /** How many blocks the stretches before the last need. */
  ghost function Needed(ps: seq<Piece>): nat
    decreases ps
  {
    if |ps| <= 1 then 0 else ps[0].length + Needed(ps[1..])
  }

  /** They are the blocks before the last stretch. */
  lemma {:induction false} NeededBefore(ps: seq<Piece>, s: nat, n: nat)
    requires Tiles(ps, s, n) && ps != []
    ensures Needed(ps) == ps[|ps| - 1].start - s
    decreases ps
  {
    if |ps| > 1 {
      NeededBefore(ps[1..], s + ps[0].length, n - ps[0].length);
    }
  }

  /** Dealing succeeds exactly when the list is long enough for all stretches but the last. */
  lemma {:induction false} DealtWhenEnough(d: seq<nat>, ps: seq<Piece>)
    ensures Dealt(d, ps).Some? <==> |d| >= Needed(ps)
    decreases ps
  {
    if |ps| > 1 && |d| >= ps[0].length {
      DealtWhenEnough(d[ps[0].length..], ps[1..]);
    }
  }

  /** The queued DMS_IOs are the stretches, and `rings` are their lists. */
  ghost predicate Queued(dios: seq<Dio>, ps: seq<Piece>, rings: seq<seq<Link>>) {
    && |dios| == |ps| == |rings|
    && (forall i | 0 <= i < |dios| ::
          && Piece(dios[i].op, dios[i].sLBID, dios[i].nrLBIDs) == ps[i]
          && rings[i] != [] && rings[i][0] == dios[i].list)
  }

  /** The DMS_IO for the first of the stretches `ps`, its list `own`, and the list that is left. */
  ghost predicate NextOk(dio: Dio, ps: seq<Piece>, r: seq<Link>, own: seq<Link>, rest: seq<Link>) {
    && ps != [] && r != [] && own != [] && own[0] == dio.list && rest != []
    && Piece(dio.op, dio.sLBID, dio.nrLBIDs) == ps[0]
    && if |ps| == 1 then own == r
       else ps[0].length < |r| && own[1..] == r[1..ps[0].length + 1] && rest == [r[0]] + r[ps[0].length + 1..]
  }

  /** The first stretch of the rest of a write gets its own list; the remaining list keeps its head. */
  method NextDio(flags: Bitmap, s: nat, n: nat, lbList: Link, ghost r: seq<Link>, ghost ps: seq<Piece>)
    returns (dio: Option<Dio>, ghost own: seq<Link>, ghost rest: seq<Link>)
    requires 0 < n < RANGE_LIMIT && s + n <= ULONG_LIMIT && Cut(flags, ps, s, n) && Ring(r) && r[0] == lbList
    modifies r
    ensures dio.None? ==> |ps| > 1 && |r| - 1 < ps[0].length
    ensures dio.Some? ==> NextOk(dio.value, ps, r, own, rest)
    ensures dio.Some? ==> Ring(own) && (|ps| > 1 ==> fresh(own[0]) && Ring(rest))
  {
    var (op, length) := AllocationRange(flags, s, n);
    FlagOf(flags, s, s % CHUNK_SIZE);
    FirstPiece(flags, ps, s, n);
    own, rest := r, r;
    if length == n {
      dio := Some(Dio(op, s, n, lbList));
    } else {
      assert |ps| > 1;
      var subList := new Link.Head();
      var retcode := MoveSubList(lbList, length, subList, r);
      if retcode != length {
        return None, own, rest;
      }
      own, rest := [subList] + r[1..length + 1], [lbList] + r[length + 1..];
      dio := Some(Dio(op, s, length, subList));
    }
  }

  // ---- the loop ----

  ghost function DataOf(r: seq<Link>): seq<nat> {
    if r == [] then [] else Data(r)
  }

  /** The block ids in each of some lists. */
  ghost function Lists(rings: seq<seq<Link>>): (lists: seq<seq<nat>>)
    ensures |lists| == |rings| && forall i | 0 <= i < |rings| :: lists[i] == DataOf(rings[i])
  {
    if rings == [] then [] else Lists(rings[..|rings| - 1]) + [DataOf(rings[|rings| - 1])]
  }

  ghost function Join(lists: seq<seq<nat>>, more: Option<seq<seq<nat>>>): Option<seq<seq<nat>>> {
    match more
    case None => None
    case Some(x) => Some(lists + x)
  }

  lemma {:induction false} DealStep(lists: seq<seq<nat>>, d: seq<nat>, ps: seq<Piece>)
    requires ps != []
    ensures |ps| == 1 ==> Join(lists, Dealt(d, ps)) == Join(lists + [d], Dealt(d, ps[1..]))
    ensures |ps| > 1 && |d| >= ps[0].length ==>
      Join(lists, Dealt(d, ps)) == Join(lists + [d[..ps[0].length]], Dealt(d[ps[0].length..], ps[1..]))
    ensures |ps| > 1 && |d| < ps[0].length ==> Join(lists, Dealt(d, ps)) == None
  {
    if |ps| == 1 {
      assert lists + [d] == (lists + [d]) + [];
    } else if |d| >= ps[0].length {
      var l := ps[0].length;
      var rest := Dealt(d[l..], ps[1..]);
      if rest.Some? {
        assert lists + ([d[..l]] + rest.value) == (lists + [d[..l]]) + rest.value;
      }
    }
  }

  lemma SplitData(r: seq<Link>, own: seq<Link>, rest: seq<Link>, n: nat)
    requires 0 < n < |r| && own != [] && own[1..] == r[1..n + 1] && rest == [r[0]] + r[n + 1..]
    ensures Data(own) == Data(r)[..n] && Data(rest) == Data(r)[n..]
  {
  }

  /** The state of the splitting loop: `ps` are the stretches still to come, `cur` is the remaining list. */
  ghost predicate Splitting(d: seq<nat>, all: seq<Piece>, dios: seq<Dio>, rings: seq<seq<Link>>, ps: seq<Piece>,
                            cur: seq<Link>)
    requires cur != []
  {
    && |dios| + |ps| == |all| && all[|dios|..] == ps && Queued(dios, all[..|dios|], rings)
    && Dealt(d, all) == Join(Lists(rings), Dealt(Data(cur), ps))
    && (ps == [] || Apart(rings, cur))
  }

  ghost predicate Apart(rings: seq<seq<Link>>, cur: seq<Link>) {
    forall i, j, k | 0 <= i < |rings| && 0 <= j < |rings[i]| && 0 <= k < |cur| :: rings[i][j] != cur[k]
  }

  lemma ApartStep(rings: seq<seq<Link>>, cur: seq<Link>, own: seq<Link>, rest: seq<Link>, n: nat)
    requires Apart(rings, cur) && Distinct(cur) && 0 < n < |cur| && own != [] && own[0] !in cur
    requires own[1..] == cur[1..n + 1] && rest == [cur[0]] + cur[n + 1..]
    ensures Apart(rings + [own], rest)
  {
  }

  lemma SplitStart(d: seq<nat>, all: seq<Piece>, r: seq<Link>)
    requires r != [] && d == Data(r)
    ensures Splitting(d, all, [], [], all, r)
  {
    var rest := Dealt(d, all);
    assert rest.Some? ==> [] + rest.value == rest.value;
  }

  lemma SplitEnd(flags: Bitmap, s: nat, d: seq<nat>, all: seq<Piece>, dios: seq<Dio>, rings: seq<seq<Link>>,
                 ps: seq<Piece>, cur: seq<Link>)
    requires cur != [] && Splitting(d, all, dios, rings, ps, cur) && Cut(flags, ps, s, 0)
    ensures Queued(dios, all, rings) && Dealt(d, all) == Some(Lists(rings))
  {
    assert ps == [] && all[..|dios|] == all && Lists(rings) + [] == Lists(rings);
  }

  /** One round keeps the state. */
  lemma SplitStep(d: seq<nat>, all: seq<Piece>, dios: seq<Dio>, rings: seq<seq<Link>>, ps: seq<Piece>, cur: seq<Link>,
                  dio: Dio, own: seq<Link>, rest: seq<Link>)
    requires cur != [] && Splitting(d, all, dios, rings, ps, cur) && ps != [] && Distinct(cur)
    requires NextOk(dio, ps, cur, own, rest) && ps[0].length > 0 && Distinct(own) && (|ps| > 1 ==> own[0] !in cur)
    ensures Splitting(d, all, dios + [dio], rings + [own], ps[1..], rest)
  {
    var n := ps[0].length;
    DealStep(Lists(rings), Data(cur), ps);
    assert (rings + [own])[..|rings|] == rings;
    assert all[..|dios| + 1] == all[..|dios|] + [ps[0]];
    if |ps| > 1 {
      SplitData(cur, own, rest, n);
      ApartStep(rings, cur, own, rest, n);
    }
  }

  /** The lists dealt before are not touched. */
  method NextAside(flags: Bitmap, s: nat, n: nat, lbList: Link, ghost r: seq<Link>, ghost ps: seq<Piece>,
                   ghost rings: seq<seq<Link>>)
    returns (dio: Option<Dio>, ghost own: seq<Link>, ghost rest: seq<Link>)
    requires 0 < n < RANGE_LIMIT && s + n <= ULONG_LIMIT && Cut(flags, ps, s, n) && Ring(r) && r[0] == lbList
    requires Apart(rings, r) && forall i | 0 <= i < |rings| :: Ring(rings[i])
    modifies r
    ensures dio.None? ==> |ps| > 1 && |r| - 1 < ps[0].length
    ensures dio.Some? ==> NextOk(dio.value, ps, r, own, rest)
    ensures dio.Some? ==> Ring(own) && (|ps| > 1 ==> fresh(own[0]) && Ring(rest))
    ensures forall i | 0 <= i < |rings| :: Ring(rings[i])
  {
    forall i, l | 0 <= i < |rings| && l in rings[i] ensures l !in r {
      var j :| 0 <= j < |rings[i]| && rings[i][j] == l;
    }
    dio, own, rest := NextDio(flags, s, n, lbList, r, ps);
  }

  /** Where the loop stands: the range and the stretches still to come, the list for them, and what was made. */
  datatype Loop = Loop(s: nat, n: nat, ps: seq<Piece>, cur: seq<Link>, dios: seq<Dio>, rings: seq<seq<Link>>)

  ghost predicate LoopOk(flags: Bitmap, d: seq<nat>, all: seq<Piece>, l: Loop, x: int) {
    l.cur != [] && Cut(flags, l.ps, l.s, l.n) && Splitting(d, all, l.dios, l.rings, l.ps, l.cur)
  }

  /** The loop for a write is on its way; said without unfolding it. */
  ghost predicate OnTheWay(flags: Bitmap, d: seq<nat>, all: seq<Piece>, l: Loop) {
    forall x {:trigger LoopOk(flags, d, all, l, x)} | x == 0 :: LoopOk(flags, d, all, l, x)
  }

  lemma OnTheWayIs(flags: Bitmap, d: seq<nat>, all: seq<Piece>, l: Loop)
    ensures OnTheWay(flags, d, all, l) <==>
      l.cur != [] && Cut(flags, l.ps, l.s, l.n) && Splitting(d, all, l.dios, l.rings, l.ps, l.cur)
  {
    assert LoopOk(flags, d, all, l, 0) <==>
      l.cur != [] && Cut(flags, l.ps, l.s, l.n) && Splitting(d, all, l.dios, l.rings, l.ps, l.cur);
  }

  lemma RoundOk(flags: Bitmap, d: seq<nat>, all: seq<Piece>, l: Loop, dio: Dio, own: seq<Link>, rest: seq<Link>)
    returns (next: Loop)
    requires OnTheWay(flags, d, all, l) && l.cur != [] && Distinct(l.cur) && l.n > 0 && Distinct(own)
    requires NextOk(dio, l.ps, l.cur, own, rest) && (|l.ps| > 1 ==> own[0] !in l.cur)
    ensures OnTheWay(flags, d, all, next) && 0 < dio.nrLBIDs <= l.n && (next.n > 0 ==> |l.ps| > 1)
    ensures next == Loop(l.s + dio.nrLBIDs, l.n - dio.nrLBIDs, l.ps[1..], rest, l.dios + [dio], l.rings + [own])
  {
    OnTheWayIs(flags, d, all, l);
    FirstPiece(flags, l.ps, l.s, l.n);
    SplitStep(d, all, l.dios, l.rings, l.ps, l.cur, dio, own, rest);
    next := Loop(l.s + dio.nrLBIDs, l.n - dio.nrLBIDs, l.ps[1..], rest, l.dios + [dio], l.rings + [own]);
    OnTheWayIs(flags, d, all, next);
  }

  lemma RoundFails(flags: Bitmap, d: seq<nat>, all: seq<Piece>, l: Loop)
    requires OnTheWay(flags, d, all, l) && l.cur != [] && |l.ps| > 1 && |l.cur| - 1 < l.ps[0].length
    ensures Dealt(d, all).None?
  {
    OnTheWayIs(flags, d, all, l);
    DealStep(Lists(l.rings), Data(l.cur), l.ps);
  }

  /** A round of the loop for a write. */
  method SplitRound(flags: Bitmap, lbList: Link, s: nat, n: nat, ghost d: seq<nat>, ghost all: seq<Piece>,
                    ghost l: Loop)
    returns (dio: Option<Dio>, ghost next: Loop)
    requires OnTheWay(flags, d, all, l) && l.s == s && l.n == n && 0 < n < RANGE_LIMIT && s + n <= ULONG_LIMIT
    requires Ring(l.cur) && l.cur[0] == lbList && forall i | 0 <= i < |l.rings| :: Ring(l.rings[i])
    modifies l.cur
    ensures dio.None? ==> Dealt(d, all).None? && next == l
    ensures dio.Some? ==>
      && 0 < dio.value.nrLBIDs <= n && next.s == s + dio.value.nrLBIDs && next.n == n - dio.value.nrLBIDs
      && next.dios == l.dios + [dio.value] && OnTheWay(flags, d, all, next)
      && (next.n > 0 ==>
            Ring(next.cur) && next.cur[0] == lbList && forall x | 0 <= x < |next.cur| :: next.cur[x] in l.cur)
    ensures forall i | 0 <= i < |next.rings| :: Ring(next.rings[i])
  {
    assert Cut(flags, l.ps, s, n) && Apart(l.rings, l.cur) by {
      OnTheWayIs(flags, d, all, l);
    }
    ghost var own, rest;
    dio, own, rest := NextAside(flags, s, n, lbList, l.cur, l.ps, l.rings);
    next := l;
    if dio.Some? {
      next := RoundOk(flags, d, all, l, dio.value, own, rest);
    } else {
      RoundFails(flags, d, all, l);
    }
  }

  /** The loop has come to its end. */
  lemma SplitDone(flags: Bitmap, d: seq<nat>, all: seq<Piece>, l: Loop)
    requires OnTheWay(flags, d, all, l) && l.n == 0
    ensures Queued(l.dios, all, l.rings) && Dealt(d, all) == Some(Lists(l.rings))
  {
    OnTheWayIs(flags, d, all, l);
    SplitEnd(flags, l.s, d, all, l.dios, l.rings, l.ps, l.cur);
  }

  lemma SplitBegin(flags: Bitmap, s: nat, n: nat, r: seq<Link>) returns (all: seq<Piece>, l: Loop)
    requires n < RANGE_LIMIT && s + n <= ULONG_LIMIT && r != []
    ensures Cut(flags, all, s, n) && OnTheWay(flags, Data(r), all, l) && l == Loop(s, n, all, r, [], [])
    ensures Dealt(Data(r), all).Some? <==> |r| - 1 >= Needed(all)
    ensures all != [] ==> Needed(all) == all[|all| - 1].start - s
  {
    all := CutExists(flags, s, n);
    if all != [] {
      NeededBefore(all, s, n);
    }
    l := Loop(s, n, all, r, [], []);
    SplitStart(Data(r), all, r);
    OnTheWayIs(flags, Data(r), all, l);
    DealtWhenEnough(Data(r), all);
  }

  /**
   * Splits a kernel request. A read becomes one DMS_IO with the whole list. A write becomes one
   * DMS_IO for each homogeneous stretch, each with exactly its share of the block list; it fails
   * only when the list is too short for that.
   */
  method MakeDios(op: Op, flags: Bitmap, sLBID: nat, nrLBIDs: nat, lbList: Link, ghost r: seq<Link>)
    returns (ok: bool, dios: seq<Dio>, ghost all: seq<Piece>, ghost rings: seq<seq<Link>>)
    requires op != Overwrite && nrLBIDs < RANGE_LIMIT && sLBID + nrLBIDs <= ULONG_LIMIT
    requires Ring(r) && r[0] == lbList
    modifies r
    ensures op == Read ==> ok && dios == (if nrLBIDs == 0 then [] else [Dio(Read, sLBID, nrLBIDs, lbList)])
    ensures op == Read ==> rings == (if nrLBIDs == 0 then [] else [r])
    ensures op == Write ==> Cut(flags, all, sLBID, nrLBIDs) && (ok <==> |r| - 1 >= Needed(all))
    ensures op == Write && all != [] ==> Needed(all) == all[|all| - 1].start - sLBID
    ensures op == Write && ok ==> Queued(dios, all, rings) && Dealt(Data(r), all) == Some(Lists(rings))
    ensures forall i | 0 <= i < |rings| :: Ring(rings[i])
  {
    ok, dios := true, [];
    var s: nat, n: nat := sLBID, nrLBIDs;
    ghost var l;
    all, l := SplitBegin(flags, s, n, r);
    while n > 0
      invariant n < RANGE_LIMIT && s + n <= ULONG_LIMIT && l.s == s && l.n == n && l.dios == dios
      invariant n > 0 ==> Ring(l.cur) && l.cur[0] == lbList && forall x | 0 <= x < |l.cur| :: l.cur[x] in r
      invariant forall i | 0 <= i < |l.rings| :: Ring(l.rings[i])
      invariant op == Write ==> OnTheWay(flags, Data(r), all, l)
      invariant op == Read ==> (if n > 0 then l == Loop(sLBID, nrLBIDs, all, r, [], [])
                                else nrLBIDs == 0 || (dios == [Dio(Read, sLBID, nrLBIDs, lbList)] && l.rings == [r]))
      invariant n == nrLBIDs == 0 ==> dios == [] && l.rings == []
    {
      if op != Read {
        var dio;
        dio, l := SplitRound(flags, lbList, s, n, Data(r), all, l);
        if dio == None {
          ok, rings := false, l.rings;
          return;
        }
        dios, s, n := dios + [dio.value], s + dio.value.nrLBIDs, n - dio.value.nrLBIDs;
      } else {
        dios, n := [Dio(Read, s, n, lbList)], 0;
        l := l.(n := 0, dios := dios, rings := [r]);
      }
    }
    rings := l.rings;
    if op == Write {
      SplitDone(flags, Data(r), all, l);
    }
  }

  /** A DMS_IO with a list of exactly the blocks of its range, ascending. */
  ghost predicate OwnsItsBlocks(dio: Dio, ring: seq<Link>)
    reads ring
  {
    && Ring(ring) && ring[0] == dio.list && |ring| == dio.nrLBIDs + 1
    && forall x | 1 <= x <= dio.nrLBIDs :: ring[x].data == dio.sLBID + x - 1
  }

  /**
   * The DMS_IOs of a write: one behind the other they make up its range; each is for new blocks only
   * or for old ones only, and neighbours are not for the same kind.
   */
  ghost predicate CutOut(flags: Bitmap, dios: seq<Dio>, s: nat, n: nat) {
    && (dios == [] <==> n == 0)
    && (forall i | 0 <= i < |dios| ::
          && dios[i].nrLBIDs > 0 && (i == 0 ==> dios[i].sLBID == s)
          && dios[i].sLBID + dios[i].nrLBIDs == (if i + 1 < |dios| then dios[i + 1].sLBID else s + n)
          && dios[i].op != Read
          && forall k | dios[i].sLBID <= k < dios[i].sLBID + dios[i].nrLBIDs :: flags(k) == (dios[i].op == Overwrite))
    && (forall i | 0 < i < |dios| :: dios[i - 1].op != dios[i].op)
  }

  lemma PieceOf(dios: seq<Dio>, ps: seq<Piece>, rings: seq<seq<Link>>, i: nat)
    requires Queued(dios, ps, rings) && i < |dios|
    ensures dios[i].op == ps[i].op && dios[i].sLBID == ps[i].start && dios[i].nrLBIDs == ps[i].length
  {
  }

  lemma CutMakes(flags: Bitmap, s: nat, n: nat, all: seq<Piece>, dios: seq<Dio>, rings: seq<seq<Link>>)
    requires Cut(flags, all, s, n) && Queued(dios, all, rings)
    ensures CutOut(flags, dios, s, n)
  {
    TilesInOrder(all, s, n);
    forall i | 0 <= i < |dios|
      ensures dios[i].nrLBIDs > 0 && (i == 0 ==> dios[i].sLBID == s)
      ensures dios[i].sLBID + dios[i].nrLBIDs == if i + 1 < |dios| then dios[i + 1].sLBID else s + n
      ensures dios[i].op != Read && (i > 0 ==> dios[i - 1].op != dios[i].op)
      ensures forall k | dios[i].sLBID <= k < dios[i].sLBID + dios[i].nrLBIDs :: flags(k) == (dios[i].op == Overwrite)
    {
      PieceOf(dios, all, rings, i);
      assert Suits(flags, all[i]);
      if i + 1 < |dios| {
        PieceOf(dios, all, rings, i + 1);
      }
      if i > 0 {
        PieceOf(dios, all, rings, i - 1);
      } else {
        assert all[0].start == s;
      }
    }
  }

  lemma OwnData(dio: Dio, ring: seq<Link>)
    requires Ring(ring) && ring[0] == dio.list && Data(ring) == Blocks(dio.sLBID, dio.nrLBIDs)
    ensures OwnsItsBlocks(dio, ring)
  {
    forall x | 1 <= x <= dio.nrLBIDs ensures ring[x].data == dio.sLBID + x - 1 {
      assert Data(ring)[x - 1] == Blocks(dio.sLBID, dio.nrLBIDs)[x - 1];
    }
  }

  /** A list with as many nodes as blocks, with ascending data from the first block on. */
  lemma WholeData(r: seq<Link>, s: nat, n: nat)
    requires |r| == n + 1 && forall x | 1 <= x <= n :: r[x].data == s + x - 1
    ensures Data(r) == Blocks(s, n)
  {
  }

  lemma OwnLists(flags: Bitmap, s: nat, n: nat, all: seq<Piece>, dios: seq<Dio>, rings: seq<seq<Link>>)
    requires Cut(flags, all, s, n) && Queued(dios, all, rings) && Dealt(Blocks(s, n), all) == Some(Lists(rings))
    requires forall i | 0 <= i < |rings| :: Ring(rings[i])
    ensures forall i | 0 <= i < |dios| :: OwnsItsBlocks(dios[i], rings[i])
  {
    DealtBlocks(all, s, n);
    forall i | 0 <= i < |dios| ensures OwnsItsBlocks(dios[i], rings[i]) {
      assert Lists(rings)[i] == DataOf(rings[i]);
      OwnData(dios[i], rings[i]);
    }
  }

  /**
   * The whole request: its list holds all its blocks, so splitting never fails, the DMS_IOs are the
   * homogeneous stretches in order (or the one read), and each owns exactly the blocks of its range.
   */
  method SplitRequest(op: Op, flags: Bitmap, sLBID: nat, nrLBIDs: nat, lbList: Link, ghost r: seq<Link>)
    returns (ok: bool, dios: seq<Dio>, ghost rings: seq<seq<Link>>)
    requires op != Overwrite && nrLBIDs < RANGE_LIMIT && sLBID + nrLBIDs <= ULONG_LIMIT
    requires Ring(r) && r[0] == lbList
    requires |r| == nrLBIDs + 1 && forall x | 1 <= x <= nrLBIDs :: r[x].data == sLBID + x - 1
    modifies r
    ensures ok && |dios| == |rings|
    ensures forall i | 0 <= i < |dios| :: OwnsItsBlocks(dios[i], rings[i])
    ensures op == Write ==> CutOut(flags, dios, sLBID, nrLBIDs)
    ensures op == Read ==> dios == if nrLBIDs == 0 then [] else [Dio(Read, sLBID, nrLBIDs, lbList)]
  {
    ghost var all;
    WholeData(r, sLBID, nrLBIDs);
    ok, dios, all, rings := MakeDios(op, flags, sLBID, nrLBIDs, lbList, r);
    if op == Write {
      DealtBlocks(all, sLBID, nrLBIDs);
      DealtWhenEnough(Blocks(sLBID, nrLBIDs), all);
      OwnLists(flags, sLBID, nrLBIDs, all, dios, rings);
      CutMakes(flags, sLBID, nrLBIDs, all, dios, rings);
    }
  }
}
