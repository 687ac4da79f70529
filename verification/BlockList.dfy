// The list of the logical blocks that a request still waits for, sorted by block id.
module BlockLists {
  import opened LinkedRings

  const DMS_OK := 0
  const DMS_FAIL := 1

  /** The block ids of a list, from the front. */
  ghost predicate Ascending(d: seq<nat>) {
    forall i, j | 0 <= i < j < |d| :: d[i] < d[j]
  }

  // ---- insertion ----

  /** Walks from the tail to the place for a block id; also finds a block with the same id. */
  method FindPlace(head: Link, data: nat, ghost r: seq<Link>) returns (pos: Link, duplicate: bool, ghost i: nat)
    requires Ring(r) && r[0] == head && Ascending(Data(r))
    ensures i < |r| && pos == r[i] && (duplicate <==> i > 0 && r[i].data == data)
    ensures forall k | i < k < |r| :: r[k].data > data
    ensures i > 0 ==> r[i].data <= data
  {
    i := |r| - 1;
    assert Joined(r, i);
    pos, duplicate := head.prev, false;
    while pos != head
      invariant i < |r| && pos == r[i]
      invariant forall k | i < k < |r| :: r[k].data > data
      decreases i
    {
      if pos.data == data {
        duplicate := true;
        break;
      } else if pos.data < data {
        break;
      }
      assert Joined(r, i - 1);
      pos, i := pos.prev, i - 1;
    }
  }

  lemma AscendingInsert(d: seq<nat>, i: nat, x: nat)
    requires Ascending(d) && i <= |d| && (i > 0 ==> d[i - 1] < x) && (i < |d| ==> x < d[i])
    ensures Ascending(d[..i] + [x] + d[i..])
  {
  }

  lemma InsertData(r: seq<Link>, i: nat, x: Link)
    requires i < |r| && Ascending(Data(r))
    requires (i + 1 < |r| ==> r[i + 1].data > x.data) && (i > 0 ==> r[i].data < x.data)
    ensures Data(Insert(r, i, x)) == Data(r)[..i] + [x.data] + Data(r)[i..]
    ensures Ascending(Data(Insert(r, i, x)))
  {
    assert Data(Insert(r, i, x)) == Data(r)[..i] + [x.data] + Data(r)[i..];
    AscendingInsert(Data(r), i, x.data);
  }

  /** A block id is found exactly where the walk stops, or nowhere. */
  lemma PlaceTells(r: seq<Link>, i: nat, data: nat)
    requires i < |r| && Ascending(Data(r))
    requires (forall k | i < k < |r| :: r[k].data > data) && (i > 0 ==> r[i].data <= data)
    ensures data in Data(r) <==> i > 0 && r[i].data == data
  {
    var d := Data(r);
    assert i > 0 ==> d[i - 1] == r[i].data;
    assert forall k | 0 <= k < |d| :: d[k] == r[k + 1].data;
    assert forall k | 0 <= k < i - 1 :: d[k] < d[i - 1];
  }

  /**
   * Adds a block to the sorted list, unless its id is there already: the list stays sorted and
   * gains exactly this block, or it does not change at all.
   */
  method AddSorted(head: Link, x: Link, ghost r: seq<Link>) returns (retcode: int, ghost i: nat)
    requires Ring(r) && r[0] == head && Ascending(Data(r)) && x !in r
    modifies r, x
    ensures i < |r| && retcode == if x.data in Data(r) then -DMS_FAIL else DMS_OK
    ensures retcode == DMS_OK ==> Ring(Insert(r, i, x)) && Ascending(Data(Insert(r, i, x)))
    ensures retcode != DMS_OK ==> forall l | l in r + [x] :: l.prev == old(l.prev) && l.next == old(l.next)
  {
    retcode := -DMS_FAIL;
    var pos, duplicate;
    pos, duplicate, i := FindPlace(head, x.data, r);
    PlaceTells(r, i, x.data);
    if !duplicate {
      InsertData(r, i, x);
      ListAdd(x, pos, r, i);
      retcode := DMS_OK;
    }
  }

  // ---- committing a range ----

  /** The ids that stay when those from `slbid + i` on are taken out one after the other. */
  function Kept(d: seq<nat>, slbid: nat, i: nat, nr: int): seq<nat>
    decreases d
  {
    if d == [] then []
    else if d[0] != slbid + i then [d[0]] + Kept(d[1..], slbid, i, nr)
    else if i + 1 == nr then d[1..]
    else Kept(d[1..], slbid, i + 1, nr)
  }

  /** Block `x` belongs to the run from `slbid + i` on: it and all blocks before it are in the list. */
  ghost predicate InRun(d: seq<nat>, slbid: nat, i: nat, nr: int, x: nat) {
    && slbid + i <= x && (nr > 0 ==> x < slbid + nr)
    && forall y: nat {:trigger y in d} | slbid + i <= y <= x :: y in d
  }

  lemma InRunStep(d: seq<nat>, slbid: nat, i: nat, nr: int, x: nat)
    requires d != [] && Ascending(d)
    requires forall k | 0 <= k < |d| :: d[k] >= slbid + i || i == 0
    ensures x in d <==> x == d[0] || x in d[1..]
    ensures d[0] !in d[1..] && Ascending(d[1..])
    ensures d[0] == slbid + i ==>
      (InRun(d, slbid, i, nr, x) <==> (x == d[0] && (nr > 0 ==> i < nr)) || InRun(d[1..], slbid, i + 1, nr, x))
    ensures d[0] != slbid + i ==> (InRun(d, slbid, i, nr, x) <==> InRun(d[1..], slbid, i, nr, x))
    ensures d[0] != slbid + i ==> !InRun(d, slbid, i, nr, d[0])
  {
    var e := d[1..];
    AscendingTail(d);
    assert forall y :: y in d <==> y == d[0] || y in e;
    if d[0] > slbid + i {
      assert slbid + i !in d && slbid + i !in e;
    }
  }

  lemma {:induction false} KeptFrom(d: seq<nat>, slbid: nat, i: nat, nr: int, x: nat)
    requires Ascending(d) && (nr > 0 ==> i < nr)
    requires forall k | 0 <= k < |d| :: d[k] >= slbid + i || i == 0
    ensures x in Kept(d, slbid, i, nr) <==> x in d && !InRun(d, slbid, i, nr, x)
    decreases d
  {
    if d != [] {
      InRunStep(d, slbid, i, nr, x);
      if d[0] != slbid + i {
        KeptFrom(d[1..], slbid, i, nr, x);
      } else if i + 1 != nr {
        KeptFrom(d[1..], slbid, i + 1, nr, x);
      }
    }
  }

  lemma AscendingTail(d: seq<nat>)
    requires d != [] && Ascending(d)
    ensures Ascending(d[1..]) && forall y | y in d[1..] :: d[0] < y
  {
  }

  lemma AscendingCons(x: nat, w: seq<nat>)
    requires Ascending(w) && forall y | y in w :: x < y
    ensures Ascending([x] + w)
  {
    assert forall k | 0 <= k < |w| :: w[k] in w;
  }

  lemma {:induction false} KeptAscending(d: seq<nat>, slbid: nat, i: nat, nr: int)
    requires Ascending(d)
    ensures Ascending(Kept(d, slbid, i, nr)) && forall x | x in Kept(d, slbid, i, nr) :: x in d
    decreases d
  {
    if d != [] {
      AscendingTail(d);
      if d[0] != slbid + i {
        KeptAscending(d[1..], slbid, i, nr);
        AscendingCons(d[0], Kept(d[1..], slbid, i, nr));
      } else if i + 1 != nr {
        KeptAscending(d[1..], slbid, i + 1, nr);
      }
    }
  }

  /**
   * On a sorted list this takes out exactly the run of consecutive blocks from `slbid` on, as far
   * as it goes and at most `nr` of them; a count of 0 or less is no limit.
   */
  lemma KeptIsAllButRun(d: seq<nat>, slbid: nat, nr: int)
    requires Ascending(d)
    ensures Ascending(Kept(d, slbid, 0, nr))
    ensures forall x :: x in Kept(d, slbid, 0, nr) <==> x in d && !InRun(d, slbid, 0, nr, x)
  {
    KeptAscending(d, slbid, 0, nr);
    forall x ensures x in Kept(d, slbid, 0, nr) <==> x in d && !InRun(d, slbid, 0, nr, x) {
      KeptFrom(d, slbid, 0, nr, x);
    }
  }

  /**
   * The walk takes out only blocks of the range if and only if the range is not empty or its first
   * block is not in the list.
   */
  lemma RangeRespected(d: seq<nat>, slbid: nat, nr: int)
    requires Ascending(d)
    ensures (forall x | x in d && x !in Kept(d, slbid, 0, nr) :: slbid <= x < slbid + nr) <==> nr > 0 || slbid !in d
  {
    KeptIsAllButRun(d, slbid, nr);
    if nr <= 0 && slbid in d {
      assert InRun(d, slbid, 0, nr, slbid);
    }
  }

  /** A range of no block takes out the block where it starts. */
  lemma EmptyRangeTakesOne()
    ensures Kept([5], 5, 0, 0) == []
  {
  }

  /** What is left to do when the walk has reached position `k`. */
  ghost function KeptAt(s: seq<Link>, k: nat, slbid: nat, i: nat, nr: int): seq<nat>
    requires 0 < k <= |s|
  {
    Data(s)[..k - 1] + Kept(Data(s)[k - 1..], slbid, i, nr)
  }

  /** One step of the walk. */
  lemma KeptStep(s: seq<Link>, k: nat, slbid: nat, i: nat, nr: int)
    requires 0 < k < |s|
    ensures s[k].data != slbid + i ==> KeptAt(s, k, slbid, i, nr) == KeptAt(s, k + 1, slbid, i, nr)
    ensures s[k].data == slbid + i ==>
      KeptAt(s, k, slbid, i, nr) ==
        if i + 1 == nr then Data(Remove(s, k)) else KeptAt(Remove(s, k), k, slbid, i + 1, nr)
  {
    var d, e := Data(s), Data(Remove(s, k));
    assert d[k - 1..][1..] == d[k..] && d[..k] == d[..k - 1] + [d[k - 1]];
    assert e[..k - 1] == d[..k - 1] && e[k - 1..] == d[k..] && e == d[..k - 1] + d[k..];
  }

  /** One round of the loop: the block is taken out if it is the next of the range. */
  method CommitRound(cur: Link, slbid: nat, i: nat, ghost nr: int, ghost s: seq<Link>, ghost k: nat)
    returns (hit: bool, ghost t: seq<Link>, ghost j: nat)
    requires Ring(s) && 0 < k < |s| && s[k] == cur
    modifies s
    ensures Ring(t) && t[0] == s[0] && (forall x | 0 <= x < |t| :: t[x] in s)
    ensures 0 < j <= |t| && |t| - j < |s| - k && After(t, j - 1) == After(s, k)
    ensures KeptAt(s, k, slbid, i, nr) ==
      if hit && i + 1 == nr then Data(t) else KeptAt(t, j, slbid, if hit then i + 1 else i, nr)
  {
    KeptStep(s, k, slbid, i, nr);
    hit, t, j := cur.data == slbid + i, s, k + 1;
    if hit {
      RemoveFacts(s, k);
      ListDel(cur, s, k);
      t, j := Remove(s, k), k;
    }
  }

  /**
   * Takes the blocks of a committed range out of the list, and tells whether the list is empty now. Of
   * a sorted list these are the consecutive blocks from `slbid` on, at most `nr` if that is positive.
   */
  method CommitRange(head: Link, slbid: nat, nr: int, ghost r: seq<Link>) returns (empty: bool, ghost s: seq<Link>)
    requires Ring(r) && r[0] == head
    modifies r
    ensures Ring(s) && s[0] == head && (forall x | 0 <= x < |s| :: s[x] in r)
    ensures Data(s) == Kept(Data(r), slbid, 0, nr)
    ensures empty <==> Data(s) == []
    ensures Ascending(Data(r)) ==>
      forall x: nat {:trigger x in Data(s)} :: x in Data(s) <==>
        x in Data(r) && !(slbid <= x && (nr > 0 ==> x < slbid + nr) && forall y: nat | slbid <= y <= x :: y in Data(r))
  {
    empty, s := CommitWalk(head, slbid, nr, r);
    if Ascending(Data(r)) {
      KeptIsAllButRun(Data(r), slbid, nr);
    }
  }

  /** The walk through the list. */
  method CommitWalk(head: Link, slbid: nat, nr: int, ghost r: seq<Link>) returns (empty: bool, ghost s: seq<Link>)
    requires Ring(r) && r[0] == head
    modifies r
    ensures Ring(s) && s[0] == head && (forall x | 0 <= x < |s| :: s[x] in r)
    ensures Data(s) == Kept(Data(r), slbid, 0, nr)
    ensures empty <==> Data(s) == []
  {
    s := r;
    var i := 0;
    ghost var k := 1;
    assert Joined(s, 0) && (|s| > 1 ==> Joined(s, 1));
    var cur := head.next;
    var next := cur.next;
    while cur != head
      invariant Ring(s) && s[0] == head && (forall x | 0 <= x < |s| :: s[x] in r)
      invariant 1 <= k <= |s| && cur == After(s, k - 1) && next == cur.next
      invariant KeptAt(s, k, slbid, i, nr) == Kept(Data(r), slbid, 0, nr)
      decreases |s| - k
    {
      assert Joined(s, k);
      var hit;
      hit, s, k := CommitRound(cur, slbid, i, nr, s, k);
      if hit {
        i := i + 1;
        if i == nr {
          break;
        }
      }
      assert Joined(s, 0) && (k < |s| ==> Joined(s, k));
      cur, next := next, next.next;
    }
    assert Joined(s, 0);
    empty := head.next == head;
  }
}
