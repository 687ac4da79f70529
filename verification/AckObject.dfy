// The objects behind one DMS_IO on the heap: its located requests, its metadata with the pointer
// back to it, and its list of blocks.
module AckObjects {
  import opened LinkedRings
  import opened BlockLists
  import opened AckPolicies
  import opened AckRequests

  class LocatedRequest {
    const slbid: nat
    const nrLbids: nat
    /** The last answer of each replica. */
    var results: seq<int>
    var wmem: int
    var wdisk: int
    var committed: bool
    /** Which located request of which DMS_IO this is. */
    ghost const at: (nat, nat)

    ghost function Value(): Located
      reads this
    {
      Located(slbid, nrLbids, results, wmem, wdisk, committed)
    }

    constructor (v: Located, ghost at: (nat, nat))
      ensures Value() == v && this.at == at
    {
      slbid, nrLbids, results := v.slbid, v.nrLbids, v.results;
      wmem, wdisk, committed := v.wmem, v.wdisk, v.committed;
      this.at := at;
    }

    /** A replica has the data in memory. */
    method UpdateMem() returns (retcode: int)
      modifies `wmem
      ensures wmem == old(wmem) - 1 && retcode == if wmem == 0 then ACT_CUSER else WAITING
    {
      wmem := wmem - 1;
      if wmem == 0 {
        retcode := ACT_CUSER;
      } else {
        retcode := WAITING;
      }
    }

    /** A replica has the data on disk. */
    method UpdateDisk(cuser: bool) returns (retcode: int)
      modifies `wdisk
      ensures wdisk == old(wdisk) - 1
      ensures retcode == if wdisk == 0 then ACT_LRDONE else if cuser then ACT_CUSER else WAITING
    {
      retcode := if cuser then ACT_CUSER else WAITING;
      wdisk := wdisk - 1;
      if wdisk == 0 {
        retcode := ACT_LRDONE;
      }
    }

    /** The commit policy: notes the answer, updates the counters, and says what to do next. */
    method UpdatePolicy(write: bool, replica: nat, ack: int) returns (retcode: int)
      requires replica < |results|
      modifies `results, `wmem, `wdisk
      ensures (Value(), retcode) == Policy(write, old(Value()), replica, ack)
      ensures results == if old(results[replica]) == WDISK_ACK then old(results) else old(results)[replica := ack]
      ensures wmem == old(wmem) -
        if ack == WMEM_ACK || ack == PWMEM_ACK || (write && ack in FAILURES) then 1 else 0
      ensures wdisk == old(wdisk) -
        if ack in {WDISK_ACK, PWDISK_ACK, READ_ACK} || (write && ack in FAILURES) then 1 else 0
      ensures retcode ==
        if ack == WMEM_ACK || ack == PWMEM_ACK then (if wmem == 0 then ACT_CUSER else WAITING)
        else if ack in {WDISK_ACK, PWDISK_ACK, READ_ACK} then (if wdisk == 0 then ACT_LRDONE else ACT_CUSER)
        else if write && ack in FAILURES then
          (if wdisk == 0 then ACT_LRDONE else if wmem == 0 then ACT_CUSER else WAITING)
        else ACT_NONE
    {
      assert FAILURES == {UNDEFINED, EXCEPTION, IOEXCEPTION, IOFAIL_BUT_LUN_OK_EXCEPTION, FAILED_LUN_EXCEPTION};
      retcode := ACT_NONE;
      if results[replica] != WDISK_ACK {
        results := results[replica := ack];
      }
      match KindOf(ack) {
        case Mem => retcode := UpdateMem();
        case Disk => retcode := UpdateDisk(true);
        case Read => retcode := UpdateDisk(true);
        case Failure =>
          if write {
            retcode := UpdateMem();
            retcode := UpdateDisk(retcode != 0);
          }
        case Unknown =>
      }
    }
  }

  /** What the located requests of a DMS_IO hold. */
  ghost function Values(lrs: seq<LocatedRequest>): (values: seq<Located>)
    reads lrs
    ensures |values| == |lrs| && forall j | 0 <= j < |lrs| :: values[j] == lrs[j].Value()
  {
    if lrs == [] then [] else Values(lrs[..|lrs| - 1]) + [lrs[|lrs| - 1].Value()]
  }

  /** Which list a link belongs to: that of a DMS_IO by its number, or that of the DMS_IOs. */
  type Homes = map<Link, int>

  const DIO_LIST: int := -1

  ghost predicate Owned(home: Homes, r: seq<Link>, k: int) {
    forall x | 0 <= x < |r| :: r[x] in home && home[r[x]] == k
  }

  class DmsIo {
    const did: nat
    const list: Link
    var result: int
    ghost var ring: seq<Link>

    /** It waits for these blocks. */
    ghost predicate Matches(i: nat, p: Part, home: Homes)
      reads this, ring
    {
      && did == i && result == p.result
      && Ring(ring) && ring[0] == list && Data(ring) == p.blocks && Owned(home, ring, i)
    }

    constructor (did: nat, list: Link, ghost ring: seq<Link>)
      ensures this.did == did && this.list == list && this.ring == ring && result == TRUE
    {
      this.did, this.list, this.ring, result := did, list, ring, TRUE;
    }

    /** The first result that is not `true` stays; the blocks of a committed range leave the list. */
    method CommitRangeOfBlocks(slbid: nat, nr: nat, code: int) returns (empty: bool)
      requires Ring(ring) && ring[0] == list
      modifies `result, `ring, ring
      ensures result == Swap(old(result), code)
      ensures Ring(ring) && ring[0] == list && (forall x | 0 <= x < |ring| :: ring[x] in old(ring))
      ensures Data(ring) == Kept(old(Data(ring)), slbid, 0, nr) && (empty <==> Data(ring) == [])
    {
      if result == TRUE {
        result := code;
      }
      ghost var s;
      empty, s := CommitRange(list, slbid, nr, ring);
      ring := s;
    }
  }

  class Metadata {
    const lrs: seq<LocatedRequest>
    var pdio: DmsIo?
    var waiting: int
    /** The commits sent to the namenode. */
    var nnCommits: nat
    ghost const no: nat

    ghost predicate LrsMatch(p: Part)
      reads lrs
    {
      |lrs| == |p.lrs| && forall j | 0 <= j < |lrs| :: lrs[j].at == (no, j) && lrs[j].Value() == p.lrs[j]
    }

    /** The objects are what the value says; its count of the answer being handled is not on the heap. */
    ghost predicate Matches(p: Part, home: Homes)
      reads this, lrs, pdio, if pdio == null then [] else pdio.ring
    {
      && LrsMatch(p) && waiting == p.waiting && nnCommits == p.nnCommits
      && (pdio != null <==> p.attached) && (pdio != null ==> pdio.Matches(no, p, home))
    }

    constructor (ghost no: nat, lrs: seq<LocatedRequest>, pdio: DmsIo)
      ensures this.no == no && this.lrs == lrs && this.pdio == pdio && waiting == |lrs| && nnCommits == 0
    {
      this.no, this.lrs, this.pdio, waiting, nnCommits := no, lrs, pdio, |lrs|, 0;
    }

    /** More links with a home make no difference. */
    lemma MatchesGrown(p: Part, home: Homes, grown: Homes)
      requires Matches(p, home) && forall x | x in home :: x in grown && grown[x] == home[x]
      ensures Matches(p, grown)
    {
    }

    /** One answer for one located request. */
    method CountAnswer(write: bool, j: nat, replica: nat, ack: int, ghost p: Part, ghost home: Homes)
      returns (retcode: int)
      requires Matches(p, home) && j < |lrs| && replica < |lrs[j].results|
      modifies lrs[j]
      ensures Matches(Counted(write, p, j, replica, ack).0, home)
      ensures retcode == Counted(write, p, j, replica, ack).1
    {
      retcode := lrs[j].UpdatePolicy(write, replica, ack);
    }

    /** The blocks of a located request are committed for the first time. */
    method CommitBlocks(j: nat, dio: DmsIo, ack: int, ghost p: Part, ghost home: Homes) returns (empty: bool)
      requires Matches(p, home) && j < |lrs| && !lrs[j].committed && dio == pdio
      modifies lrs[j], dio`result, dio`ring, dio.ring
      ensures Matches(CommitPart(p, j, ack), home) && (empty <==> CommitPart(p, j, ack).blocks == [])
    {
      lrs[j].committed := true;
      empty := dio.CommitRangeOfBlocks(lrs[j].slbid, lrs[j].nrLbids, ack);
    }

    /** Subtracts the located requests that are done; tells when that leaves none to wait for. */
    method UpdateWaiting(doneLrs: nat) returns (retcode: int)
      modifies `waiting
      ensures waiting == old(waiting) - doneLrs
      ensures retcode == if 1 <= old(waiting) <= doneLrs then ACT_CNAMENODE else ACT_NONE
    {
      retcode := ACT_NONE;
      var k := 0;
      while k < doneLrs
        invariant k <= doneLrs && waiting == old(waiting) - k
        invariant retcode == if 1 <= old(waiting) <= k then ACT_CNAMENODE else ACT_NONE
      {
        waiting := waiting - 1;
        if waiting == 0 {
          retcode := ACT_CNAMENODE;
        }
        k := k + 1;
      }
    }
  }

  const ACT_CNAMENODE := 3

  // ---- a DMS_IO before any answer ----

  method NewRequests(no: nat, lrs: seq<Located>) returns (objects: seq<LocatedRequest>)
    ensures |objects| == |lrs|
    ensures forall j | 0 <= j < |lrs| ::
      fresh(objects[j]) && objects[j].at == (no, j) && objects[j].Value() == lrs[j]
  {
    objects := [];
    var j := 0;
    while j < |lrs|
      invariant j == |objects| <= |lrs|
      invariant forall k | 0 <= k < j :: fresh(objects[k]) && objects[k].at == (no, k) && objects[k].Value() == lrs[k]
    {
      var lr := new LocatedRequest(lrs[j], (no, j));
      objects, j := objects + [lr], j + 1;
    }
  }

  lemma LastStays(r: seq<Link>, i: nat, x: Link)
    requires i < |r|
    ensures var e := Data(Insert(r, i, x));
      |e| == |r| && e[i] == x.data && (i < |r| - 1 ==> e[|r| - 1] == r[|r| - 1].data)
  {
  }

  lemma PlaceIsLast(r: seq<Link>, i: nat, x: Link, d: seq<nat>)
    requires i < |r| && Ascending(Data(Insert(r, i, x))) && Data(r) == d && forall y | y in d :: y < x.data
    ensures i == |r| - 1 && Data(Insert(r, i, x)) == d + [x.data]
  {
    LastStays(r, i, x);
    assert d == [] || (d[|d| - 1] in d && d[|d| - 1] == r[|r| - 1].data);
  }

  /** Adds the last block to a list. */
  method AddBlock(head: Link, data: nat, ghost r: seq<Link>) returns (ghost s: seq<Link>)
    requires Ring(r) && r[0] == head && Ascending(Data(r)) && forall y | y in Data(r) :: y < data
    modifies r
    ensures Ring(s) && s[0] == head && Data(s) == Data(r) + [data]
    ensures forall k | 0 <= k < |s| :: s[k] in r || fresh(s[k])
  {
    var x := new Link(data);
    ghost var d := Data(r);
    var retcode;
    ghost var i;
    retcode, i := AddSorted(head, x, r);
    PlaceIsLast(r, i, x, d);
    s := Insert(r, i, x);
  }

  method NewBlocks(blocks: seq<nat>) returns (head: Link, ghost r: seq<Link>)
    requires Ascending(blocks)
    ensures Ring(r) && r[0] == head && Data(r) == blocks
    ensures forall k | 0 <= k < |r| :: fresh(r[k])
  {
    head := new Link.Head();
    r := [head];
    var k := 0;
    while k < |blocks|
      invariant k <= |blocks| && Ring(r) && r[0] == head && Data(r) == blocks[..k]
      invariant forall k | 0 <= k < |r| :: fresh(r[k])
    {
      r := AddBlock(head, blocks[k], r);
      k := k + 1;
    }
  }
}
