// One kernel request: its DMS_IOs with their metadata, and what every delivery order of the
// acknowledgements does to them.
module AckRequests {
  import opened BlockLists
  import opened AckPolicies

  /** The C `true`: what a result is before the first commit. */
  const TRUE := 1

  /**
   * A DMS_IO and its metadata: the located requests, how many of them are not accounted as done,
   * how many were reported done by the answer now being handled, the commits sent to the namenode,
   * whether the DMS_IO is still queued (and the metadata points to it), and the blocks it waits for.
   */
  datatype Part = Part(lrs: seq<Located>, waiting: int, done: nat, nnCommits: nat, attached: bool,
                       blocks: seq<nat>, result: int)

  /** A kernel request: its parts, its result so far, and the results it was ended with. */
  datatype Request = Request(parts: seq<Part>, result: int, ended: seq<int>)

  /** `atomic_cmpxchg(result, true, code)`. */
  function Swap(result: int, code: int): int {
    if result == TRUE then code else result
  }

  predicate AnyAttached(parts: seq<Part>) {
    exists i | 0 <= i < |parts| :: parts[i].attached
  }

  // ---- what the handlers do ----

  /** A DMS_IO whose last block was committed leaves the request; the last one ends it. */
  function CompleteDio(q: Request, i: nat): Request
    requires i < |q.parts|
  {
    var parts := q.parts[i := q.parts[i].(attached := false)];
    var result := Swap(q.result, q.parts[i].result);
    Request(parts, result, if AnyAttached(parts) then q.ended else q.ended + [result])
  }

  /** The blocks of located request `j` are committed, unless they were before. */
  function CommitPart(p: Part, j: nat, code: int): Part
    requires j < |p.lrs|
  {
    var lr := p.lrs[j];
    p.(lrs := p.lrs[j := lr.(committed := true)], result := Swap(p.result, code),
       blocks := Kept(p.blocks, lr.slbid, 0, lr.nrLbids))
  }

  function CommitLBs(q: Request, i: nat, j: nat, code: int): Request
    requires i < |q.parts| && j < |q.parts[i].lrs|
  {
    if q.parts[i].lrs[j].committed then q
    else
      var p := CommitPart(q.parts[i], j, code);
      var q' := q.(parts := q.parts[i := p]);
      if p.blocks == [] then CompleteDio(q', i) else q'
  }

  /** The counters after one answer. */
  function Counted(write: bool, p: Part, j: nat, replica: nat, ack: int): (Part, int)
    requires j < |p.lrs| && replica < |p.lrs[j].results|
  {
    var (lr, code) := Policy(write, p.lrs[j], replica, ack);
    (p.(lrs := p.lrs[j := lr], done := p.done + if code == ACT_LRDONE then 1 else 0), code)
  }

  /** One answer of replica `replica` of located request `j` of part `i`. */
  function Deliver(write: bool, q: Request, i: nat, j: nat, replica: nat, ack: int): Request
    requires i < |q.parts| && j < |q.parts[i].lrs| && replica < |q.parts[i].lrs[j].results|
  {
    var (p, code) := Counted(write, q.parts[i], j, replica, ack);
    var q' := q.(parts := q.parts[i := p]);
    if code == ACT_CUSER || code == ACT_LRDONE then CommitLBs(q', i, j, ack) else q'
  }

  /** The located requests reported done are subtracted; reaching 0 commits to the namenode. */
  function Account(p: Part): Part {
    p.(waiting := p.waiting - p.done, done := 0,
       nnCommits := p.nnCommits + if 1 <= p.waiting <= p.done then 1 else 0)
  }

  // ---- one part: the invariant ----

  ghost predicate InRange(lr: Located, x: nat) {
    lr.slbid <= x < lr.slbid + lr.nrLbids
  }

  /** Some located request that is not committed yet covers the block. */
  ghost predicate Waits(lrs: seq<Located>, x: nat) {
    exists j | 0 <= j < |lrs| :: !lrs[j].committed && InRange(lrs[j], x)
  }

  /** The located requests cover ascending, disjoint, non-empty ranges. */
  ghost predicate Ranges(lrs: seq<Located>) {
    && (forall j | 0 <= j < |lrs| :: lrs[j].nrLbids > 0)
    && (forall j, k | 0 <= j < k < |lrs| :: lrs[j].slbid + lrs[j].nrLbids <= lrs[k].slbid)
  }

  /** The DMS_IO waits for exactly the blocks of the uncommitted located requests. */
  ghost predicate BlocksOk(lrs: seq<Located>, blocks: seq<nat>) {
    Ranges(lrs) && Ascending(blocks) && forall x: nat {:trigger Waits(lrs, x)} :: x in blocks <==> Waits(lrs, x)
  }

  /** How many located requests have all disk answers. */
  ghost function NumDone(lrs: seq<Located>): nat {
    if lrs == [] then 0 else NumDone(lrs[..|lrs| - 1]) + if lrs[|lrs| - 1].wdisk == 0 then 1 else 0
  }

  ghost predicate NoneCommitted(lrs: seq<Located>) {
    forall j | 0 <= j < |lrs| :: !lrs[j].committed
  }

  ghost predicate LrsOk(lrs: seq<Located>, sent: seq<Acks>) {
    |sent| == |lrs| > 0 && forall j | 0 <= j < |lrs| :: LrOk(lrs[j], sent[j])
  }

  /** The counters of a part and its result agree with its located requests. */
  ghost predicate TotalsOk(p: Part) {
    && p.waiting == |p.lrs| - NumDone(p.lrs) + p.done
    && p.nnCommits == (if p.waiting == 0 then 1 else 0)
    && (p.result == TRUE <==> NoneCommitted(p.lrs))
  }

  ghost predicate PartOk(p: Part, sent: seq<Acks>) {
    && LrsOk(p.lrs, sent) && BlocksOk(p.lrs, p.blocks) && TotalsOk(p)
    && (p.attached <==> p.blocks != [])
  }

  // ---- blocks ----

  lemma WaitsCommitted(lrs: seq<Located>, j: nat, x: nat)
    requires Ranges(lrs) && j < |lrs| && !lrs[j].committed
    ensures Waits(lrs[j := lrs[j].(committed := true)], x) <==> Waits(lrs, x) && !InRange(lrs[j], x)
  {
    var lrs' := lrs[j := lrs[j].(committed := true)];
    if Waits(lrs', x) {
      var k :| 0 <= k < |lrs'| && !lrs'[k].committed && InRange(lrs'[k], x);
      assert k != j && lrs[k] == lrs'[k];
      assert if k < j then lrs[k].slbid + lrs[k].nrLbids <= lrs[j].slbid
             else lrs[j].slbid + lrs[j].nrLbids <= lrs[k].slbid;
    }
    if Waits(lrs, x) && !InRange(lrs[j], x) {
      var k :| 0 <= k < |lrs| && !lrs[k].committed && InRange(lrs[k], x);
      assert lrs'[k] == lrs[k];
    }
  }

  lemma RunIsRange(lrs: seq<Located>, blocks: seq<nat>, j: nat, x: nat)
    requires BlocksOk(lrs, blocks) && j < |lrs| && !lrs[j].committed
    ensures InRun(blocks, lrs[j].slbid, 0, lrs[j].nrLbids, x) <==> InRange(lrs[j], x)
    ensures InRange(lrs[j], x) ==> x in blocks
  {
    assert forall y: nat {:trigger y in blocks} | InRange(lrs[j], y) :: Waits(lrs, y);
    assert forall y: nat {:trigger y in blocks} :: y in blocks <==> Waits(lrs, y);
  }

  lemma CommitBlocks(lrs: seq<Located>, blocks: seq<nat>, j: nat)
    requires BlocksOk(lrs, blocks) && j < |lrs| && !lrs[j].committed
    ensures BlocksOk(lrs[j := lrs[j].(committed := true)], Kept(blocks, lrs[j].slbid, 0, lrs[j].nrLbids))
    ensures blocks != []
  {
    var lr := lrs[j];
    var lrs', kept := lrs[j := lr.(committed := true)], Kept(blocks, lr.slbid, 0, lr.nrLbids);
    KeptIsAllButRun(blocks, lr.slbid, lr.nrLbids);
    RunIsRange(lrs, blocks, j, lr.slbid);
    forall x: nat ensures x in kept <==> Waits(lrs', x) {
      WaitsCommitted(lrs, j, x);
      RunIsRange(lrs, blocks, j, x);
      assert x in blocks <==> Waits(lrs, x);
    }
  }

  lemma NothingWaits(lrs: seq<Located>, blocks: seq<nat>)
    requires BlocksOk(lrs, blocks)
    ensures blocks == [] <==> forall j | 0 <= j < |lrs| :: lrs[j].committed
  {
    if blocks == [] {
      forall j | 0 <= j < |lrs| ensures lrs[j].committed {
        assert InRange(lrs[j], lrs[j].slbid) && !Waits(lrs, lrs[j].slbid);
      }
    } else {
      assert blocks[0] in blocks && Waits(lrs, blocks[0]);
    }
  }

  lemma WaitsSame(lrs: seq<Located>, j: nat, lr: Located, x: nat)
    requires j < |lrs| && lr.slbid == lrs[j].slbid && lr.nrLbids == lrs[j].nrLbids && lr.committed == lrs[j].committed
    ensures Waits(lrs[j := lr], x) <==> Waits(lrs, x)
  {
    var lrs' := lrs[j := lr];
    if Waits(lrs, x) {
      var k :| 0 <= k < |lrs| && !lrs[k].committed && InRange(lrs[k], x);
      assert !lrs'[k].committed && InRange(lrs'[k], x);
    }
    if Waits(lrs', x) {
      var k :| 0 <= k < |lrs'| && !lrs'[k].committed && InRange(lrs'[k], x);
      assert !lrs[k].committed && InRange(lrs[k], x);
    }
  }

  /** Counting answers changes neither ranges nor commits. */
  lemma SameBlocks(lrs: seq<Located>, blocks: seq<nat>, j: nat, lr: Located)
    requires BlocksOk(lrs, blocks) && j < |lrs|
    requires lr.slbid == lrs[j].slbid && lr.nrLbids == lrs[j].nrLbids && lr.committed == lrs[j].committed
    ensures BlocksOk(lrs[j := lr], blocks)
  {
    forall x: nat ensures x in blocks <==> Waits(lrs[j := lr], x) {
      WaitsSame(lrs, j, lr, x);
      assert x in blocks <==> Waits(lrs, x);
    }
  }

  lemma {:induction false} NumDoneChange(lrs: seq<Located>, j: nat, lr: Located)
    requires j < |lrs|
    ensures NumDone(lrs[j := lr]) ==
      NumDone(lrs) - (if lrs[j].wdisk == 0 then 1 else 0) + if lr.wdisk == 0 then 1 else 0
    decreases |lrs|
  {
    var n := |lrs| - 1;
    if j < n {
      NumDoneChange(lrs[..n], j, lr);
      assert lrs[j := lr][..n] == lrs[..n][j := lr];
    } else {
      assert lrs[j := lr][..n] == lrs[..n];
    }
  }

  lemma {:induction false} NumDoneAll(lrs: seq<Located>)
    ensures NumDone(lrs) <= |lrs|
    ensures NumDone(lrs) == |lrs| <==> forall j | 0 <= j < |lrs| :: lrs[j].wdisk == 0
  {
    if lrs != [] {
      NumDoneAll(lrs[..|lrs| - 1]);
      assert forall j | 0 <= j < |lrs| - 1 :: lrs[..|lrs| - 1][j] == lrs[j];
    }
  }

  // ---- one part: every step keeps the invariant ----

  /** All located requests but one are as they should be; that one has the right counters. */
  ghost predicate LrsBut(lrs: seq<Located>, sent: seq<Acks>, j: nat) {
    && |sent| == |lrs| && j < |lrs|
    && (forall k | 0 <= k < |lrs| && k != j :: LrOk(lrs[k], sent[k]))
    && |lrs[j].results| > 0 && Counts(lrs[j], sent[j])
  }

  /** What is true of a part while located request `j` is being handled; `due` tells whether it is committed. */
  ghost predicate PartBut(p: Part, sent: seq<Acks>, j: nat, due: bool) {
    LrsBut(p.lrs, sent, j) && p.lrs[j].committed == due && BlocksOk(p.lrs, p.blocks) && TotalsOk(p)
  }

  /** A located request with new counters, of which `done` more are done. */
  ghost function WithLr(p: Part, j: nat, lr: Located, done: nat): Part
    requires j < |p.lrs|
  {
    p.(lrs := p.lrs[j := lr], done := p.done + done)
  }

  lemma SameCommits(lrs: seq<Located>, j: nat, lr: Located)
    requires j < |lrs| && lr.committed == lrs[j].committed
    ensures NoneCommitted(lrs[j := lr]) <==> NoneCommitted(lrs)
  {
    assert forall k | 0 <= k < |lrs| :: lrs[j := lr][k].committed == lrs[k].committed;
  }

  lemma LrsWith(lrs: seq<Located>, sent: seq<Acks>, j: nat, lr: Located, b: Acks)
    requires LrsOk(lrs, sent) && j < |lrs| && Counts(lr, b) && |lr.results| == |lrs[j].results|
    ensures LrsBut(lrs[j := lr], sent[j := b], j)
  {
  }

  lemma WithLrOk(p: Part, sent: seq<Acks>, j: nat, lr: Located, b: Acks, done: nat)
    requires PartOk(p, sent) && j < |p.lrs| && Counts(lr, b) && |lr.results| == |p.lrs[j].results|
    requires lr.slbid == p.lrs[j].slbid && lr.nrLbids == p.lrs[j].nrLbids && lr.committed == p.lrs[j].committed
    requires NumDone(p.lrs[j := lr]) == NumDone(p.lrs) + done
    ensures PartBut(WithLr(p, j, lr, done), sent[j := b], j, lr.committed)
  {
    LrsWith(p.lrs, sent, j, lr, b);
    SameBlocks(p.lrs, p.blocks, j, lr);
    SameCommits(p.lrs, j, lr);
  }

  lemma CommitOk(p: Part, sent: seq<Acks>, j: nat, code: int)
    requires PartBut(p, sent, j, false) && code != TRUE
    ensures PartBut(CommitPart(p, j, code), sent, j, true)
  {
    CommitBlocks(p.lrs, p.blocks, j);
    NumDoneChange(p.lrs, j, p.lrs[j].(committed := true));
    assert CommitPart(p, j, code).lrs[j].committed;
  }

  /** The commit to the user that follows, if one is asked for. */
  ghost function Finished(p: Part, j: nat, code: int, ack: int): Part
    requires j < |p.lrs|
  {
    if (code == ACT_CUSER || code == ACT_LRDONE) && !p.lrs[j].committed then
      var q := CommitPart(p, j, ack);
      q.(attached := p.attached && q.blocks != [])
    else p
  }

  lemma FinishKeeps(p: Part, sent: seq<Acks>, j: nat, code: int, ack: int, due: bool)
    requires PartBut(p, sent, j, due) && (p.attached <==> p.blocks != []) && ack != TRUE
    requires ACT_NONE <= code <= ACT_LRDONE && (due || code > WAITING <==> UserDue(sent[j], |p.lrs[j].results|))
    ensures var q := Finished(p, j, code, ack);
      PartOk(q, sent) && (q.attached ==> p.attached) && (p.attached && !q.attached ==> q.result != TRUE)
  {
    if code > WAITING && !p.lrs[j].committed {
      CommitOk(p, sent, j, ack);
      CommitBlocks(p.lrs, p.blocks, j);
      assert Finished(p, j, code, ack).lrs[j].committed;
    }
  }

  /** The part after one answer. */
  ghost function Answered(write: bool, p: Part, j: nat, replica: nat, ack: int): Part
    requires j < |p.lrs| && replica < |p.lrs[j].results|
  {
    var (q, code) := Counted(write, p, j, replica, ack);
    Finished(q, j, code, ack)
  }

  lemma CountedIs(write: bool, p: Part, j: nat, replica: nat, ack: int, lr: Located, code: int)
    requires j < |p.lrs| && replica < |p.lrs[j].results| && Policy(write, p.lrs[j], replica, ack) == (lr, code)
    ensures Counted(write, p, j, replica, ack) == (WithLr(p, j, lr, if code == ACT_LRDONE then 1 else 0), code)
  {
  }

  lemma AnswerCounted(write: bool, p: Part, sent: seq<Acks>, j: nat, replica: nat, ack: int, b: Acks)
    returns (q: Part, code: int)
    requires PartOk(p, sent) && j < |p.lrs| && MaySend(write, sent[j], |p.lrs[j].results|, replica, ack)
    requires b == Record(write, sent[j], replica, ack)
    ensures Counted(write, p, j, replica, ack) == (q, code) && |q.lrs| == |p.lrs|
    ensures PartBut(q, sent[j := b], j, p.lrs[j].committed) && q.attached == p.attached && q.blocks == p.blocks
    ensures ACT_NONE <= code <= ACT_LRDONE
    ensures p.lrs[j].committed || code > WAITING <==> UserDue(b, |q.lrs[j].results|)
  {
    assert LrOk(p.lrs[j], sent[j]);
    var lr;
    lr, code := AnswerStep(write, p.lrs[j], sent[j], replica, ack, b);
    CountedIs(write, p, j, replica, ack, lr, code);
    NumDoneChange(p.lrs, j, lr);
    WithLrOk(p, sent, j, lr, b, if code == ACT_LRDONE then 1 else 0);
    q := WithLr(p, j, lr, if code == ACT_LRDONE then 1 else 0);
  }

  /** Every answer keeps the invariant of a part. */
  lemma {:induction false} AnswerKeeps(write: bool, p: Part, sent: seq<Acks>, j: nat, replica: nat, ack: int, b: Acks)
    requires PartOk(p, sent) && j < |p.lrs| && MaySend(write, sent[j], |p.lrs[j].results|, replica, ack)
    requires b == Record(write, sent[j], replica, ack)
    ensures var q := Answered(write, p, j, replica, ack);
      && PartOk(q, sent[j := b])
      && (q.attached ==> p.attached) && (p.attached && !q.attached ==> q.result != TRUE)
  {
    AnswerIsNotTrue(write, sent[j], |p.lrs[j].results|, replica, ack);
    var q, code := AnswerCounted(write, p, sent, j, replica, ack, b);
    FinishKeeps(q, sent[j := b], j, code, ack, p.lrs[j].committed);
  }

  /** Accounting keeps the invariant, and commits to the namenode once, when nothing is left to wait for. */
  lemma AccountKeeps(p: Part, sent: seq<Acks>)
    requires PartOk(p, sent)
    ensures PartOk(Account(p), sent) && Account(p).done == 0
  {
    NumDoneAll(p.lrs);
  }
}
