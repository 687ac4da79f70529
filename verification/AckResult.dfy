// Which answer becomes the result of a DMS_IO and of a kernel request, over every run.
module AckResults {
  import opened AckPolicies
  import opened AckRequests
  import opened AckRuns
  import opened Options

  // ---- the results, read off the steps alone ----

  /** The request as it was before any answer. */
  ghost function Origin(h: History): Request {
    match h
    case Begin(_, q) => q
    case Then(before, _) => Origin(before)
  }

  ghost predicate Known(h: History, i: nat, j: nat) {
    i < |Origin(h).parts| && j < |Origin(h).parts[i].lrs|
  }

  /** The user may be told about located request `j` of DMS_IO `i`. */
  ghost predicate Due(h: History, i: nat, j: nat) {
    Known(h, i, j) && UserDue(Sent(h, i, j), |Origin(h).parts[i].lrs[j].results|)
  }

  /** The code of the answer that first made a located request of the DMS_IO due. */
  ghost function PartCode(h: History, i: nat): int {
    match h
    case Begin(_, _) => TRUE
    case Then(before, s) =>
      if PartCode(before, i) != TRUE then PartCode(before, i)
      else if s.Answer? && s.i == i && Due(h, i, s.j) then s.ack
      else TRUE
  }

  /** All located requests of the DMS_IO are due. */
  ghost predicate PartDue(h: History, i: nat) {
    forall j: nat | Known(h, i, j) :: Due(h, i, j)
  }

  /** The code of the DMS_IO that was the first to have all its located requests due. */
  ghost function RequestCode(h: History): int {
    match h
    case Begin(_, _) => TRUE
    case Then(before, s) =>
      if RequestCode(before) != TRUE then RequestCode(before)
      else if s.Answer? && PartDue(h, s.i) && !PartDue(before, s.i) then PartCode(h, s.i)
      else TRUE
  }

  // ---- what the run does not change ----

  ghost predicate SameSizes(p: Part, q: Part) {
    |p.lrs| == |q.lrs| && forall j | 0 <= j < |p.lrs| :: |p.lrs[j].results| == |q.lrs[j].results|
  }

  ghost predicate SameShape(q: Request, r: Request) {
    |q.parts| == |r.parts| && forall i | 0 <= i < |q.parts| :: SameSizes(q.parts[i], r.parts[i])
  }

  lemma AnsweredSizes(write: bool, p: Part, sent: seq<Acks>, j: nat, replica: nat, ack: int)
    requires PartOk(p, sent) && j < |p.lrs| && MaySend(write, sent[j], |p.lrs[j].results|, replica, ack)
    ensures SameSizes(Answered(write, p, j, replica, ack), p)
  {
    assert LrOk(p.lrs[j], sent[j]);
    var lr, code := AnswerStep(write, p.lrs[j], sent[j], replica, ack, Record(write, sent[j], replica, ack));
    CountedIs(write, p, j, replica, ack, lr, code);
  }

  lemma DeliverShape(write: bool, q: Request, sent: seq<Acks>, i: nat, j: nat, replica: nat, ack: int)
    requires i < |q.parts| && PartOk(q.parts[i], sent) && j < |q.parts[i].lrs|
    requires MaySend(write, sent[j], |q.parts[i].lrs[j].results|, replica, ack)
    ensures SameShape(Deliver(write, q, i, j, replica, ack), q)
  {
    DeliverIs(write, q, sent, i, j, replica, ack);
    AnsweredSizes(write, q.parts[i], sent, j, replica, ack);
    var p := Answered(write, q.parts[i], j, replica, ack);
    assert Deliver(write, q, i, j, replica, ack).parts == q.parts[i := p];
  }

  lemma StepShape(w: World, s: Step)
    requires WorldOk(w) && Enabled(w, s)
    ensures SameShape(Apply(w, s).q, w.q)
  {
    if s.Answer? {
      assert PartOk(w.q.parts[s.i], w.sent[s.i]);
      DeliverShape(w.write, w.q, w.sent[s.i], s.i, s.j, s.replica, s.ack);
    }
  }

  lemma {:induction false} ShapeStays(h: History)
    requires Run(h).Some?
    ensures SameShape(Run(h).value.q, Origin(h)) && |Run(h).value.sent| == |Origin(h).parts|
  {
    RunKeeps(h);
    if h.Then? {
      ShapeStays(h.before);
      RunKeeps(h.before);
      StepShape(Run(h.before).value, h.step);
    }
  }

  /** Due is what the run calls committed. */
  lemma DueIsCommitted(h: History, i: nat)
    requires Run(h).Some? && i < |Origin(h).parts|
    ensures i < |Run(h).value.q.parts| && |Run(h).value.q.parts[i].lrs| == |Origin(h).parts[i].lrs|
    ensures forall j | 0 <= j < |Origin(h).parts[i].lrs| :: Due(h, i, j) <==> Run(h).value.q.parts[i].lrs[j].committed
    ensures PartDue(h, i) <==> !Run(h).value.q.parts[i].attached
  {
    ShapeStays(h);
    UserCommits(h, i);
    var p := Run(h).value.q.parts[i];
    assert SameSizes(p, Origin(h).parts[i]);
    forall j: nat | j < |p.lrs| ensures Due(h, i, j) <==> p.lrs[j].committed {
      SentIsRecorded(h, i, j);
    }
    assert forall j: nat :: Known(h, i, j) <==> j < |p.lrs|;
  }

  // ---- the results of the run ----

  lemma AnsweredResult(write: bool, p: Part, sent: seq<Acks>, j: nat, replica: nat, ack: int)
    requires PartOk(p, sent) && j < |p.lrs| && MaySend(write, sent[j], |p.lrs[j].results|, replica, ack)
    ensures var q := Answered(write, p, j, replica, ack);
      && |q.lrs| == |p.lrs|
      && q.result == if p.result != TRUE then p.result else if q.lrs[j].committed then ack else TRUE
  {
    AnswerKeeps(write, p, sent, j, replica, ack, Record(write, sent[j], replica, ack));
    AnsweredStays(write, p, sent, j, replica, ack);
    AnsweredSizes(write, p, sent, j, replica, ack);
    var q := Answered(write, p, j, replica, ack);
    assert p.result == TRUE ==> NoneCommitted(p.lrs) && forall k | 0 <= k < |p.lrs| && k != j :: !q.lrs[k].committed;
  }

  /** What a step does to one DMS_IO. */
  lemma StepPart(w: World, s: Step, i: nat)
    requires WorldOk(w) && Enabled(w, s) && i < |w.q.parts|
    ensures var r := Apply(w, s).q;
      && |r.parts| == |w.q.parts|
      && (s.Answer? && s.i == i ==> r.parts[i] == Answered(w.write, w.q.parts[i], s.j, s.replica, s.ack))
      && (!(s.Answer? && s.i == i) ==> r.parts[i].result == w.q.parts[i].result)
  {
    if s.Answer? {
      assert PartOk(w.q.parts[s.i], w.sent[s.i]);
      DeliverIs(w.write, w.q, w.sent[s.i], s.i, s.j, s.replica, s.ack);
    }
  }

  /** An answer gives the DMS_IO its result if it is the first that makes a located request due. */
  lemma PartStep(b: History, s: Step, w: World, n: World, i: nat)
    requires Run(b) == Some(w) && Run(Then(b, s)) == Some(n) && i < |w.q.parts|
    requires w.q.parts[i].result == PartCode(b, i)
    ensures i < |n.q.parts| && n.q.parts[i].result == PartCode(Then(b, s), i)
  {
    RunKeeps(b);
    ShapeStays(b);
    DueIsCommitted(Then(b, s), i);
    StepPart(w, s, i);
    if s.Answer? && s.i == i {
      assert PartOk(w.q.parts[i], w.sent[i]);
      AnsweredResult(w.write, w.q.parts[i], w.sent[i], s.j, s.replica, s.ack);
    }
  }

  /** The request gets the result of the DMS_IO that is the first to leave it. */
  lemma RequestStep(b: History, s: Step, w: World, n: World)
    requires Run(b) == Some(w) && Run(Then(b, s)) == Some(n) && w.q.result == RequestCode(b)
    requires forall i | 0 <= i < |n.q.parts| :: n.q.parts[i].result == PartCode(Then(b, s), i)
    ensures n.q.result == RequestCode(Then(b, s))
  {
    RunKeeps(b);
    ShapeStays(b);
    if s.Answer? {
      DueIsCommitted(b, s.i);
      DueIsCommitted(Then(b, s), s.i);
      assert PartOk(w.q.parts[s.i], w.sent[s.i]);
      DeliverIs(w.write, w.q, w.sent[s.i], s.i, s.j, s.replica, s.ack);
    }
  }

  /**
   * The result of a DMS_IO is the code of the answer that first made one of its located requests
   * due, and the kernel request is ended with that of the DMS_IO that was complete first. So a later
   * failure shows in neither.
   */
  lemma {:induction false} ResultsAre(h: History)
    requires Run(h).Some?
    ensures var q := Run(h).value.q;
      && |q.parts| == |Origin(h).parts| && (forall i | 0 <= i < |q.parts| :: q.parts[i].result == PartCode(h, i))
      && q.result == RequestCode(h)
      && q.ended == if forall i | 0 <= i < |q.parts| :: PartDue(h, i) then [RequestCode(h)] else []
  {
    ShapeStays(h);
    RunKeeps(h);
    if h.Then? {
      ResultsAre(h.before);
      forall i | 0 <= i < |Origin(h).parts| ensures Run(h).value.q.parts[i].result == PartCode(h, i) {
        PartStep(h.before, h.step, Run(h.before).value, Run(h).value, i);
      }
      RequestStep(h.before, h.step, Run(h.before).value, Run(h).value);
    } else {
      assert forall i | 0 <= i < |h.q.parts| :: FreshPart(h.q.parts[i]);
    }
    forall i | 0 <= i < |Origin(h).parts| ensures PartDue(h, i) <==> !Run(h).value.q.parts[i].attached {
      DueIsCommitted(h, i);
    }
  }

  // ---- a failure that does not show ----

  const ONE_BLOCK := Located(0, 1, [0], 1, 1, false)
  const OTHER_BLOCK := Located(1, 1, [0], 1, 1, false)
  const TWO_BLOCKS := Request([Part([ONE_BLOCK, OTHER_BLOCK], 2, 0, 0, true, [0, 1], TRUE)], TRUE, [])

  lemma TwoBlocksFresh()
    ensures FreshRequest(TWO_BLOCKS)
  {
    var lrs := [ONE_BLOCK, OTHER_BLOCK];
    forall x: nat ensures x in [0, 1] <==> Waits(lrs, x) {
      assert InRange(lrs[0], x) <==> x == 0;
      assert InRange(lrs[1], x) <==> x == 1;
    }
  }

  /**
   * Two located requests with one replica each: the first is on disk, then the second fails. The
   * kernel request is ended with the code of the first.
   */
  lemma FailureDoesNotShow()
    ensures var first := Then(Begin(true, TWO_BLOCKS), Answer(0, 0, 0, WDISK_ACK));
      var h := Then(first, Answer(0, 1, 0, IOEXCEPTION));
      Run(h).Some? && Run(h).value.q.ended == [WDISK_ACK]
  {
    TwoBlocksFresh();
    var b := Begin(true, TWO_BLOCKS);
    var first := Then(b, Answer(0, 0, 0, WDISK_ACK));
    assert Run(first).Some?;
    ResultsAre(first);
    ShapeStays(first);
    var h := Then(first, Answer(0, 1, 0, IOEXCEPTION));
    SentIsRecorded(first, 0, 1);
    assert Run(h).Some?;
    ResultsAre(h);
  }

  // ---- when every replica was heard ----

  /** What the replicas of a write, or of a read, can have sent. */
  ghost predicate SentOk(write: bool, a: Acks) {
    && (if write then a.lost == {} else a.mem == {} && a.failed == {})
    && a.disk !! a.lost && a.disk !! a.failed && a.mem !! a.failed
  }

  lemma {:induction false} SentKinds(h: History, i: nat, j: nat)
    requires Run(h).Some? && Known(h, i, j)
    ensures SentOk(IsWrite(h), Sent(h, i, j))
  {
    if h.Then? {
      SentKinds(h.before, i, j);
      if h.step.Answer? && h.step.i == i && h.step.j == j {
        SentIsRecorded(h.before, i, j);
        ShapeStays(h.before);
      }
    }
  }

  /** Every replica of a located request has sent all that it ever will. */
  ghost predicate Heard(h: History, i: nat, j: nat)
    requires Known(h, i, j)
  {
    var a, n := Sent(h, i, j), |Origin(h).parts[i].lrs[j].results|;
    Everyone(a.disk + a.failed + a.lost, n) && (IsWrite(h) ==> Everyone(a.mem + a.failed, n))
  }

  ghost predicate AllHeard(h: History) {
    forall i: nat, j: nat | Known(h, i, j) :: Heard(h, i, j)
  }

  /** No replica could read it. */
  ghost predicate Lost(h: History, i: nat, j: nat)
    requires Known(h, i, j)
  {
    Everyone(Sent(h, i, j).lost, |Origin(h).parts[i].lrs[j].results|)
  }

  lemma SentFacts(h: History, i: nat, j: nat)
    requires Run(h).Some? && Known(h, i, j)
    ensures var a, n := Sent(h, i, j), |Origin(h).parts[i].lrs[j].results|;
      SentOk(IsWrite(h), a) && n > 0 && Below(a.disk + a.failed, n) && Below(a.mem + a.failed, n)
  {
    SentKinds(h, i, j);
    ShapeStays(h);
    RunKeeps(h);
    var w := Run(h).value;
    assert PartOk(w.q.parts[i], w.sent[i]) && SameSizes(w.q.parts[i], Origin(h).parts[i]);
    SentIsRecorded(h, i, j);
    assert LrOk(w.q.parts[i].lrs[j], w.sent[i][j]);
  }

  /** A replica that sent a read answer did not lose it, and only those can have. */
  lemma DueUnlessLost(write: bool, a: Acks, n: nat)
    requires SentOk(write, a) && n > 0 && Below(a.disk + a.failed, n)
    requires Everyone(a.disk + a.failed + a.lost, n) && (write ==> Everyone(a.mem + a.failed, n))
    ensures UserDue(a, n) <==> !Everyone(a.lost, n)
    ensures write ==> !Everyone(a.lost, n) && Done(a, n)
  {
    assert 0 in a.disk + a.failed + a.lost;
    if write {
      assert a.disk + a.failed + a.lost == a.disk + a.failed;
    } else if a.disk != {} {
      var x :| x in a.disk;
      assert x in a.disk + a.failed;
    } else {
      assert a.disk + a.failed + a.lost == a.lost;
      assert 0 !in a.mem + a.failed;
    }
  }

  lemma NotDueIfLost(a: Acks, n: nat)
    requires SentOk(false, a) && n > 0 && Below(a.disk + a.failed, n) && Everyone(a.lost, n)
    ensures !UserDue(a, n)
  {
    assert 0 !in a.mem + a.failed;
    assert forall x :: x in a.disk ==> x in a.disk + a.failed;
  }

  /** A located request that was heard is due unless it is lost; for a write it is also done. */
  lemma HeardIsDue(h: History, i: nat, j: nat)
    requires Run(h).Some? && Known(h, i, j) && Heard(h, i, j)
    ensures Due(h, i, j) <==> !Lost(h, i, j)
    ensures IsWrite(h) ==> !Lost(h, i, j) && Done(Sent(h, i, j), |Origin(h).parts[i].lrs[j].results|)
  {
    SentFacts(h, i, j);
    DueUnlessLost(IsWrite(h), Sent(h, i, j), |Origin(h).parts[i].lrs[j].results|);
  }

  /**
   * When every replica was heard, a write was ended. A read was ended if and only if no located
   * request of it is lost: the failure of a read reaches nobody.
   */
  lemma EndedWhenHeard(h: History)
    requires Run(h).Some? && AllHeard(h)
    ensures Run(h).value.q.ended != [] <==> IsWrite(h) || forall i: nat, j: nat | Known(h, i, j) :: !Lost(h, i, j)
  {
    ResultsAre(h);
    var q := Run(h).value.q;
    forall i: nat, j: nat | Known(h, i, j) ensures Due(h, i, j) <==> !Lost(h, i, j)
                                           ensures IsWrite(h) ==> !Lost(h, i, j)
    {
      HeardIsDue(h, i, j);
    }
    if forall i | 0 <= i < |q.parts| :: PartDue(h, i) {
      forall i: nat, j: nat | Known(h, i, j) ensures !Lost(h, i, j) {
        assert PartDue(h, i);
      }
    } else {
      var i :| 0 <= i < |q.parts| && !PartDue(h, i);
      var j: nat :| Known(h, i, j) && !Due(h, i, j);
      assert Lost(h, i, j);
    }
  }

  /** And a lost located request keeps its read from being ended for good. */
  lemma LostStays(g: History, h: History, i: nat, j: nat)
    requires Run(h).Some? && Extends(h, g) && Known(g, i, j) && !IsWrite(g) && Lost(g, i, j)
    ensures Run(h).value.q.ended == []
  {
    LostLater(g, h, i, j);
    SentFacts(h, i, j);
    NotDueIfLost(Sent(h, i, j), |Origin(h).parts[i].lrs[j].results|);
    ResultsAre(h);
    assert !Due(h, i, j) && !PartDue(h, i);
  }

  lemma {:induction false} LostLater(g: History, h: History, i: nat, j: nat)
    requires Run(h).Some? && Extends(h, g) && Known(g, i, j) && Lost(g, i, j)
    ensures Origin(h) == Origin(g) && IsWrite(h) == IsWrite(g) && Sent(g, i, j).lost <= Sent(h, i, j).lost
    ensures Lost(h, i, j)
  {
    if h != g {
      LostLater(g, h.before, i, j);
    }
  }

  lemma OneSent()
    ensures Record(false, NONE_YET, 0, READ_ACK) == NONE_YET.(disk := {0})
    ensures Record(false, NONE_YET, 0, IOEXCEPTION) == NONE_YET.(lost := {0})
  {
    assert NONE_YET.disk + {0} == {0} && NONE_YET.lost + {0} == {0};
  }

  /** A read of two located requests with one replica each: the first is read, the second fails. */
  lemma LostReadHangs()
    ensures var first := Then(Begin(false, TWO_BLOCKS), Answer(0, 0, 0, READ_ACK));
      var h := Then(first, Answer(0, 1, 0, IOEXCEPTION));
      Run(h).Some? && AllHeard(h) && Run(h).value.q.ended == []
  {
    TwoBlocksFresh();
    var b := Begin(false, TWO_BLOCKS);
    var first := Then(b, Answer(0, 0, 0, READ_ACK));
    assert Run(first).Some?;
    ShapeStays(first);
    SentIsRecorded(first, 0, 1);
    var h := Then(first, Answer(0, 1, 0, IOEXCEPTION));
    assert Run(h).Some?;
    assert !IsWrite(b) && Sent(b, 0, 0) == Sent(b, 0, 1) == NONE_YET;
    assert !IsWrite(first) && Sent(first, 0, 1) == NONE_YET;
    assert Sent(first, 0, 0) == Record(false, NONE_YET, 0, READ_ACK);
    assert Sent(h, 0, 0) == Sent(first, 0, 0) && Sent(h, 0, 1) == Record(false, NONE_YET, 0, IOEXCEPTION);
    OneSent();
    assert Known(h, 0, 1) && Lost(h, 0, 1);
    EndedWhenHeard(h);
  }
}
