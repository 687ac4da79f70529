// The acknowledgement protocol over whole runs: every delivery order of the answers of all
// replicas of a kernel request.
module AckRuns {
  import opened AckPolicies
  import opened AckRequests
  import opened Options

  /** A write or a read, the request, and what every replica of every located request sent so far. */
  datatype World = World(write: bool, q: Request, sent: seq<seq<Acks>>)

  /** One answer arrives, or the handler subtracts the located requests that were reported done. */
  datatype Step = Answer(i: nat, j: nat, replica: nat, ack: int) | Settle(i: nat)

  ghost predicate Enabled(w: World, s: Step)
    requires |w.sent| == |w.q.parts|
  {
    && s.i < |w.q.parts|
    && (s.Answer? ==>
          && s.j < |w.q.parts[s.i].lrs| && s.j < |w.sent[s.i]|
          && MaySend(w.write, w.sent[s.i][s.j], |w.q.parts[s.i].lrs[s.j].results|, s.replica, s.ack))
  }

  ghost function Apply(w: World, s: Step): World
    requires |w.sent| == |w.q.parts| && Enabled(w, s)
  {
    match s
    case Answer(i, j, replica, ack) =>
      w.(q := Deliver(w.write, w.q, i, j, replica, ack),
         sent := w.sent[i := w.sent[i][j := Record(w.write, w.sent[i][j], replica, ack)]])
    case Settle(i) => w.(q := w.q.(parts := w.q.parts[i := Account(w.q.parts[i])]))
  }

  // ---- the invariant ----

  ghost predicate AllAttached(parts: seq<Part>) {
    forall i | 0 <= i < |parts| :: parts[i].attached
  }

  ghost predicate PartsOk(parts: seq<Part>, sent: seq<seq<Acks>>) {
    |sent| == |parts| > 0 && forall i | 0 <= i < |parts| :: PartOk(parts[i], sent[i])
  }

  /** The request was ended once if no part is left, and not at all before. */
  ghost predicate EndOk(q: Request) {
    && q.ended == (if AnyAttached(q.parts) then [] else [q.result])
    && (q.result == TRUE <==> AllAttached(q.parts))
  }

  ghost predicate WorldOk(w: World) {
    PartsOk(w.q.parts, w.sent) && EndOk(w.q)
  }

  lemma AttachedChange(parts: seq<Part>, i: nat, p: Part)
    requires i < |parts| && p.attached == parts[i].attached
    ensures AnyAttached(parts[i := p]) <==> AnyAttached(parts)
    ensures AllAttached(parts[i := p]) <==> AllAttached(parts)
  {
    var parts' := parts[i := p];
    if AnyAttached(parts) {
      var k :| 0 <= k < |parts| && parts[k].attached;
      assert parts'[k].attached;
    }
    if AnyAttached(parts') {
      var k :| 0 <= k < |parts'| && parts'[k].attached;
      assert parts[k].attached;
    }
    assert forall k | 0 <= k < |parts| :: parts'[k].attached == parts[k].attached;
  }

  lemma PartsChange(parts: seq<Part>, sent: seq<seq<Acks>>, i: nat, p: Part, b: seq<Acks>)
    requires PartsOk(parts, sent) && i < |parts| && PartOk(p, b)
    ensures PartsOk(parts[i := p], sent[i := b])
  {
  }

  /** An answer changes one part; if it was the last of that part, the request loses it. */
  lemma DeliverIs(write: bool, q: Request, sent: seq<Acks>, i: nat, j: nat, replica: nat, ack: int)
    requires i < |q.parts| && PartOk(q.parts[i], sent) && j < |q.parts[i].lrs|
    requires MaySend(write, sent[j], |q.parts[i].lrs[j].results|, replica, ack)
    ensures var p := Answered(write, q.parts[i], j, replica, ack);
      var parts := q.parts[i := p];
      Deliver(write, q, i, j, replica, ack) ==
        if q.parts[i].attached && !p.attached then
          Request(parts, Swap(q.result, p.result),
                  q.ended + if AnyAttached(parts) then [] else [Swap(q.result, p.result)])
        else q.(parts := parts)
  {
    var b := Record(write, sent[j], replica, ack);
    var p, code := AnswerCounted(write, q.parts[i], sent, j, replica, ack, b);
    if (code == ACT_CUSER || code == ACT_LRDONE) && !p.lrs[j].committed {
      CommitBlocks(p.lrs, p.blocks, j);
      var r := CommitPart(p, j, ack);
      var parts := q.parts[i := r.(attached := false)];
      assert q.parts[i := p][i := r] == q.parts[i := r];
      assert q.parts[i := r][i := r.(attached := false)] == parts;
      assert q.ended + [] == q.ended;
    }
  }

  /** When a part leaves, what is left decides whether the request ends. */
  lemma EndAfter(q: Request, i: nat, p: Part)
    requires EndOk(q) && i < |q.parts| && (p.attached ==> q.parts[i].attached)
    requires q.parts[i].attached && !p.attached ==> p.result != TRUE
    ensures var parts := q.parts[i := p];
      EndOk(if q.parts[i].attached && !p.attached then
              Request(parts, Swap(q.result, p.result),
                      q.ended + if AnyAttached(parts) then [] else [Swap(q.result, p.result)])
            else q.(parts := parts))
  {
    if q.parts[i].attached == p.attached {
      AttachedChange(q.parts, i, p);
    } else {
      assert AnyAttached(q.parts);
      assert !q.parts[i := p][i].attached;
    }
  }

  lemma AnswerStepKeeps(w: World, s: Step)
    requires WorldOk(w) && Enabled(w, s) && s.Answer?
    ensures WorldOk(Apply(w, s))
  {
    var p, b := w.q.parts[s.i], Record(w.write, w.sent[s.i][s.j], s.replica, s.ack);
    AnswerKeeps(w.write, p, w.sent[s.i], s.j, s.replica, s.ack, b);
    DeliverIs(w.write, w.q, w.sent[s.i], s.i, s.j, s.replica, s.ack);
    var p' := Answered(w.write, p, s.j, s.replica, s.ack);
    EndAfter(w.q, s.i, p');
    PartsChange(w.q.parts, w.sent, s.i, p', w.sent[s.i][s.j := b]);
  }

  lemma SettleKeeps(w: World, s: Step)
    requires WorldOk(w) && Enabled(w, s) && s.Settle?
    ensures WorldOk(Apply(w, s))
  {
    var p := Account(w.q.parts[s.i]);
    AccountKeeps(w.q.parts[s.i], w.sent[s.i]);
    EndAfter(w.q, s.i, p);
    PartsChange(w.q.parts, w.sent, s.i, p, w.sent[s.i]);
    assert w.sent[s.i := w.sent[s.i]] == w.sent;
  }

  // ---- whole runs ----

  /** A part before any answer: every counter starts at the number of replicas. */
  ghost predicate FreshPart(p: Part) {
    && |p.lrs| > 0 && BlocksOk(p.lrs, p.blocks) && p.attached && p.result == TRUE
    && p.waiting == |p.lrs| && p.done == 0 && p.nnCommits == 0
    && (forall j | 0 <= j < |p.lrs| ::
          |p.lrs[j].results| > 0 && p.lrs[j].wmem == p.lrs[j].wdisk == |p.lrs[j].results| && !p.lrs[j].committed)
  }

  ghost predicate FreshRequest(q: Request) {
    |q.parts| > 0 && q.result == TRUE && q.ended == [] && forall i | 0 <= i < |q.parts| :: FreshPart(q.parts[i])
  }

  /** A request and the answers that came in since. */
  datatype History = Begin(write: bool, q: Request) | Then(before: History, step: Step)

  ghost function Silence(q: Request): seq<seq<Acks>> {
    seq(|q.parts|, i requires 0 <= i < |q.parts| => seq(|q.parts[i].lrs|, j => NONE_YET))
  }

  ghost function Run(h: History): Option<World> {
    match h
    case Begin(write, q) => if FreshRequest(q) then Some(World(write, q, Silence(q))) else None
    case Then(before, s) =>
      match Run(before)
      case None => None
      case Some(w) =>
        if |w.sent| == |w.q.parts| && Enabled(w, s) then Some(Apply(w, s)) else None
  }

  lemma {:induction false} NoneDone(lrs: seq<Located>)
    requires forall j | 0 <= j < |lrs| :: lrs[j].wdisk != 0
    ensures NumDone(lrs) == 0
  {
    if lrs != [] {
      NoneDone(lrs[..|lrs| - 1]);
    }
  }

  lemma FreshPartOk(p: Part)
    requires FreshPart(p)
    ensures PartOk(p, seq(|p.lrs|, j => NONE_YET))
  {
    NoneDone(p.lrs);
    NothingWaits(p.lrs, p.blocks);
    forall j | 0 <= j < |p.lrs| ensures LrOk(p.lrs[j], NONE_YET) {
      assert NONE_YET.mem + NONE_YET.failed == {} && NONE_YET.disk + NONE_YET.failed == {};
      assert 0 < |p.lrs[j].results| && 0 !in NONE_YET.mem + NONE_YET.failed;
    }
  }

  lemma FreshOk(write: bool, q: Request)
    requires FreshRequest(q)
    ensures WorldOk(World(write, q, Silence(q)))
  {
    forall i | 0 <= i < |q.parts| ensures PartOk(q.parts[i], Silence(q)[i]) && q.parts[i].attached {
      assert FreshPart(q.parts[i]);
      FreshPartOk(q.parts[i]);
    }
    assert q.parts[0].attached;
  }

  lemma {:induction false} RunKeeps(h: History)
    requires Run(h).Some?
    ensures WorldOk(Run(h).value)
  {
    match h
    case Begin(write, q) => FreshOk(write, q);
    case Then(before, s) =>
      RunKeeps(before);
      if s.Answer? {
        AnswerStepKeeps(Run(before).value, s);
      } else {
        SettleKeeps(Run(before).value, s);
      }
  }

  // ---- what holds in every run ----

  /**
   * A located request is committed to the user exactly when some replica has it on disk or every
   * replica answered; a DMS_IO waits for exactly the blocks of the others, and is gone, together
   * with the pointer to it, exactly when there are none.
   */
  lemma UserCommits(h: History, i: nat)
    requires Run(h).Some? && i < |Run(h).value.q.parts|
    ensures var w := Run(h).value;
      var p := w.q.parts[i];
      && |w.sent| == |w.q.parts| && |w.sent[i]| == |p.lrs|
      && (forall j | 0 <= j < |p.lrs| :: p.lrs[j].committed <==> UserDue(w.sent[i][j], |p.lrs[j].results|))
      && (forall x: nat {:trigger Waits(p.lrs, x)} :: x in p.blocks <==> Waits(p.lrs, x))
      && (p.attached <==> exists j | 0 <= j < |p.lrs| :: !p.lrs[j].committed)
  {
    RunKeeps(h);
    var w := Run(h).value;
    assert PartOk(w.q.parts[i], w.sent[i]);
    assert forall j | 0 <= j < |w.q.parts[i].lrs| :: LrOk(w.q.parts[i].lrs[j], w.sent[i][j]);
    NothingWaits(w.q.parts[i].lrs, w.q.parts[i].blocks);
  }

  /** The kernel request is ended at most once, and only when every block of every DMS_IO is committed. */
  lemma EndedOnce(h: History)
    requires Run(h).Some?
    ensures var q := Run(h).value.q;
      && |q.ended| <= 1
      && (q.ended != [] <==>
            forall i, j | 0 <= i < |q.parts| && 0 <= j < |q.parts[i].lrs| :: q.parts[i].lrs[j].committed)
      && (q.ended != [] ==> forall i | 0 <= i < |q.parts| :: q.parts[i].blocks == [])
  {
    RunKeeps(h);
    var q, sent := Run(h).value.q, Run(h).value.sent;
    forall i | 0 <= i < |q.parts|
      ensures q.parts[i].attached <==> exists j | 0 <= j < |q.parts[i].lrs| :: !q.parts[i].lrs[j].committed
      ensures q.parts[i].attached <==> q.parts[i].blocks != []
    {
      assert PartOk(q.parts[i], sent[i]);
      UserCommits(h, i);
    }
  }

  /**
   * The namenode is told at most once for each DMS_IO: when all its located requests are done and
   * the handler has accounted for them. By then all of them are committed to the user.
   */
  lemma NamenodeOnce(h: History, i: nat)
    requires Run(h).Some? && i < |Run(h).value.q.parts|
    ensures var w := Run(h).value;
      var p := w.q.parts[i];
      && |w.sent| == |w.q.parts| && |w.sent[i]| == |p.lrs| && p.nnCommits <= 1
      && (p.nnCommits == 1 <==>
            p.done == 0 && forall j | 0 <= j < |p.lrs| :: Done(w.sent[i][j], |p.lrs[j].results|))
      && (p.nnCommits == 1 ==> !p.attached && forall j | 0 <= j < |p.lrs| :: p.lrs[j].committed)
  {
    RunKeeps(h);
    var w := Run(h).value;
    var p, sent := w.q.parts[i], w.sent[i];
    assert PartOk(p, sent);
    NumDoneAll(p.lrs);
    NothingWaits(p.lrs, p.blocks);
    forall j | 0 <= j < |p.lrs| ensures p.lrs[j].wdisk == 0 <==> Done(sent[j], |p.lrs[j].results|)
                                ensures Done(sent[j], |p.lrs[j].results|) ==> p.lrs[j].committed
    {
      assert LrOk(p.lrs[j], sent[j]);
      DoneMeansZero(p.lrs[j], sent[j]);
      if Done(sent[j], |p.lrs[j].results|) {
        DoneIsDue(sent[j], |p.lrs[j].results|);
      }
    }
  }

  // ---- nothing is taken back ----

  /** `q` comes after `p`: commits, and results other than `true`, are final. */
  ghost predicate PartStays(p: Part, q: Part) {
    && |q.lrs| == |p.lrs| && p.nnCommits <= q.nnCommits
    && (forall j | 0 <= j < |p.lrs| :: p.lrs[j].committed ==> q.lrs[j].committed)
    && (p.result != TRUE ==> q.result == p.result)
    && (!p.attached ==> !q.attached && q.blocks == p.blocks)
  }

  ghost predicate Stays(q: Request, r: Request) {
    && |r.parts| == |q.parts|
    && (forall i | 0 <= i < |q.parts| :: PartStays(q.parts[i], r.parts[i]))
    && (q.result != TRUE ==> r.result == q.result)
    && (q.ended != [] ==> r.ended == q.ended)
  }

  lemma FinishedStays(p: Part, j: nat, lr: Located, done: nat, code: int, ack: int)
    requires j < |p.lrs| && lr.committed == p.lrs[j].committed
    requires !p.attached ==> forall k | 0 <= k < |p.lrs| :: p.lrs[k].committed
    ensures var q := Finished(WithLr(p, j, lr, done), j, code, ack);
      && PartStays(p, q) && (p.result == TRUE ==> q.result == TRUE || q.result == ack)
      && (forall k | 0 <= k < |p.lrs| && k != j :: q.lrs[k] == p.lrs[k])
  {
  }

  lemma AnsweredStays(write: bool, p: Part, sent: seq<Acks>, j: nat, replica: nat, ack: int)
    requires PartOk(p, sent) && j < |p.lrs| && MaySend(write, sent[j], |p.lrs[j].results|, replica, ack)
    ensures var q := Answered(write, p, j, replica, ack);
      && PartStays(p, q) && (p.result == TRUE ==> q.result == TRUE || q.result == ack)
      && (forall k | 0 <= k < |p.lrs| && k != j :: q.lrs[k] == p.lrs[k])
  {
    assert LrOk(p.lrs[j], sent[j]);
    var lr, code := AnswerStep(write, p.lrs[j], sent[j], replica, ack, Record(write, sent[j], replica, ack));
    CountedIs(write, p, j, replica, ack, lr, code);
    NothingWaits(p.lrs, p.blocks);
    FinishedStays(p, j, lr, if code == ACT_LRDONE then 1 else 0, code, ack);
  }

  lemma OnePartStays(q: Request, r: Request, i: nat, p: Part)
    requires i < |q.parts| && r.parts == q.parts[i := p] && PartStays(q.parts[i], p)
    requires (q.result != TRUE ==> r.result == q.result) && (q.ended != [] ==> r.ended == q.ended)
    ensures Stays(q, r)
  {
  }

  /**
   * A step never takes back a commit, touches a DMS_IO that has left the request, or changes a
   * result; the first answer that commits blocks decides the result of its DMS_IO.
   */
  lemma {:induction false} StepStays(w: World, s: Step)
    requires WorldOk(w) && Enabled(w, s)
    ensures Stays(w.q, Apply(w, s).q)
    ensures s.Answer? && w.q.parts[s.i].result == TRUE ==>
      Apply(w, s).q.parts[s.i].result == TRUE || Apply(w, s).q.parts[s.i].result == s.ack
  {
    var q := Apply(w, s).q;
    if s.Answer? {
      assert PartOk(w.q.parts[s.i], w.sent[s.i]);
      DeliverIs(w.write, w.q, w.sent[s.i], s.i, s.j, s.replica, s.ack);
      AnsweredStays(w.write, w.q.parts[s.i], w.sent[s.i], s.j, s.replica, s.ack);
      assert w.q.ended != [] ==> !w.q.parts[s.i].attached;
      OnePartStays(w.q, q, s.i, Answered(w.write, w.q.parts[s.i], s.j, s.replica, s.ack));
    } else {
      OnePartStays(w.q, q, s.i, Account(w.q.parts[s.i]));
    }
  }

  ghost predicate Extends(h: History, g: History) {
    h == g || (h.Then? && Extends(h.before, g))
  }

  lemma StaysTrans(p: Request, q: Request, r: Request)
    requires Stays(p, q) && Stays(q, r)
    ensures Stays(p, r)
  {
  }

  /** So the first failure or success code that reaches the kernel request is its result for good. */
  lemma {:induction false} HistoryStays(g: History, h: History)
    requires Run(h).Some? && Extends(h, g)
    ensures Run(g).Some? && Stays(Run(g).value.q, Run(h).value.q)
  {
    if h != g {
      HistoryStays(g, h.before);
      RunKeeps(h.before);
      StepStays(Run(h.before).value, h.step);
      StaysTrans(Run(g).value.q, Run(h.before).value.q, Run(h).value.q);
    }
  }

  /** The replica has acknowledged to disk, and the note of it is there. */
  ghost predicate NotedOnDisk(q: Request, i: nat, j: nat, replica: nat) {
    && i < |q.parts| && j < |q.parts[i].lrs| && replica < |q.parts[i].lrs[j].results|
    && q.parts[i].lrs[j].results[replica] == WDISK_ACK
  }

  lemma AnsweredNote(write: bool, p: Part, j: nat, replica: nat, ack: int, r: nat)
    requires j < |p.lrs| && replica < |p.lrs[j].results| && r < |p.lrs[j].results|
    requires p.lrs[j].results[r] == WDISK_ACK
    ensures var q := Answered(write, p, j, replica, ack);
      r < |q.lrs[j].results| && q.lrs[j].results[r] == WDISK_ACK
  {
  }

  lemma {:induction false} StepNote(w: World, s: Step, i: nat, j: nat, replica: nat)
    requires WorldOk(w) && Enabled(w, s) && NotedOnDisk(w.q, i, j, replica)
    ensures NotedOnDisk(Apply(w, s).q, i, j, replica)
  {
    if s.Answer? {
      assert PartOk(w.q.parts[s.i], w.sent[s.i]);
      DeliverIs(w.write, w.q, w.sent[s.i], s.i, s.j, s.replica, s.ack);
      AnsweredStays(w.write, w.q.parts[s.i], w.sent[s.i], s.j, s.replica, s.ack);
      if s.i == i && s.j == j {
        AnsweredNote(w.write, w.q.parts[i], j, s.replica, s.ack, replica);
      }
    }
  }

  /** Once noted, the plain disk answer of a replica is never overwritten. */
  lemma {:induction false} DiskNoteStays(g: History, h: History, i: nat, j: nat, replica: nat)
    requires Run(h).Some? && Extends(h, g)
    ensures Run(g).Some? && (NotedOnDisk(Run(g).value.q, i, j, replica) ==> NotedOnDisk(Run(h).value.q, i, j, replica))
  {
    if h != g {
      DiskNoteStays(g, h.before, i, j, replica);
      RunKeeps(h.before);
      if NotedOnDisk(Run(h.before).value.q, i, j, replica) {
        StepNote(Run(h.before).value, h.step, i, j, replica);
      }
    }
  }

  /** Whether the request is a write. */
  ghost function IsWrite(h: History): bool {
    match h
    case Begin(write, _) => write
    case Then(before, _) => IsWrite(before)
  }

  /** What a replica of a located request sent, read off the steps alone. */
  ghost function Sent(h: History, i: nat, j: nat): Acks {
    match h
    case Begin(write, q) => NONE_YET
    case Then(before, Answer(x, y, replica, ack)) =>
      if x == i && y == j then Record(IsWrite(before), Sent(before, i, j), replica, ack) else Sent(before, i, j)
    case Then(before, Settle(_)) => Sent(before, i, j)
  }

  lemma {:induction false} SentIsRecorded(h: History, i: nat, j: nat)
    requires Run(h).Some? && i < |Run(h).value.sent| && j < |Run(h).value.sent[i]|
    ensures Run(h).value.sent[i][j] == Sent(h, i, j) && Run(h).value.write == IsWrite(h)
  {
    if h.Then? {
      SentIsRecorded(h.before, i, j);
    }
  }
}
