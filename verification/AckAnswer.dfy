// One answer of a datanode, for all located requests that it covers.
module AckAnswers {
  import opened AckPolicies
  import opened AckRequests
  import opened AckRuns
  import opened AckResults
  import opened Options

  /** The located requests, each with the replica, that one answer of a datanode is for. */
  datatype PayloadTag = PayloadTag(lr: nat, dnIndex: nat)

  /** Each replica may send this to its located request, and none occurs twice. */
  ghost predicate MayAnswer(w: World, i: nat, tags: seq<PayloadTag>, ack: int) {
    && i < |w.q.parts| && i < |w.sent|
    && (forall k | 0 <= k < |tags| ::
          && tags[k].lr < |w.q.parts[i].lrs| && tags[k].lr < |w.sent[i]|
          && MaySend(w.write, w.sent[i][tags[k].lr], |w.q.parts[i].lrs[tags[k].lr].results|, tags[k].dnIndex, ack))
    && (forall k, l | 0 <= k < l < |tags| :: tags[k] != tags[l])
  }

  // ---- one answer for several located requests ----

  /** The run continued by an answer for the first `n` of some located requests. */
  ghost function Told(h: History, i: nat, tags: seq<PayloadTag>, ack: int, n: nat): History
    requires n <= |tags|
  {
    if n == 0 then h else Then(Told(h, i, tags, ack, n - 1), Answer(i, tags[n - 1].lr, tags[n - 1].dnIndex, ack))
  }

  lemma {:induction false} ToldPrefix(h: History, i: nat, tags: seq<PayloadTag>, ack: int, k: nat, n: nat)
    requires k <= n <= |tags| && Run(Told(h, i, tags, ack, n)).Some?
    ensures Run(Told(h, i, tags, ack, k)).Some?
    decreases n
  {
    if k < n {
      ToldPrefix(h, i, tags, ack, k, n - 1);
    }
  }

  ghost predicate ToldStep(h: History, i: nat, tags: seq<PayloadTag>, ack: int, k: nat, log: History) {
    k <= |tags| && log == Told(h, i, tags, ack, k) && Run(Told(h, i, tags, ack, |tags|)).Some?
  }

  /** The run so far, of one that the whole answer continues; said without unfolding it. */
  ghost predicate Telling(h: History, i: nat, tags: seq<PayloadTag>, ack: int, k: nat, log: History) {
    forall n: nat {:trigger ToldStep(h, i, tags, ack, n, log)} | n == k :: ToldStep(h, i, tags, ack, n, log)
  }

  lemma TellingIs(h: History, i: nat, tags: seq<PayloadTag>, ack: int, k: nat, log: History)
    ensures Telling(h, i, tags, ack, k, log) <==>
      k <= |tags| && log == Told(h, i, tags, ack, k) && Run(Told(h, i, tags, ack, |tags|)).Some?
  {
    assert ToldStep(h, i, tags, ack, k, log) <==>
      k <= |tags| && log == Told(h, i, tags, ack, k) && Run(Told(h, i, tags, ack, |tags|)).Some?;
  }

  // ---- what was sent afterwards ----

  /** The replicas of located request `j` that the first `n` tags are for. */
  ghost function Replicas(tags: seq<PayloadTag>, n: nat, j: nat): set<nat>
    requires n <= |tags|
  {
    set k | 0 <= k < n && tags[k].lr == j :: tags[k].dnIndex
  }

  lemma ReplicasNext(tags: seq<PayloadTag>, n: nat, j: nat)
    requires n < |tags|
    ensures Replicas(tags, n + 1, j) == Replicas(tags, n, j) + if tags[n].lr == j then {tags[n].dnIndex} else {}
  {
  }

  lemma SentTwice(write: bool, a: Acks, b: Acks, c: Acks, ack: int, rs: set<nat>, more: set<nat>)
    requires SentToo(write, a, b, ack, rs) && SentToo(write, b, c, ack, more)
    ensures SentToo(write, a, c, ack, rs + more)
  {
    assert forall x: set<nat> :: x + rs + more == x + (rs + more);
  }

  lemma NothingSent(write: bool, a: Acks, b: Acks, ack: int)
    requires a == b
    ensures SentToo(write, a, b, ack, {})
  {
    assert a.mem + {} == a.mem && a.disk + {} == a.disk && a.failed + {} == a.failed && a.lost + {} == a.lost;
  }

  /** Every part still has its located requests, and each of these its replicas. */
  ghost predicate SameFrame(w: World, v: World) {
    && v.write == w.write && SameShape(v.q, w.q) && |v.sent| == |w.sent|
    && forall x | 0 <= x < |w.sent| :: |v.sent[x]| == |w.sent[x]|
  }

  /** Exactly the first `n` tags were sent. */
  ghost predicate TagsSent(w: World, v: World, i: nat, tags: seq<PayloadTag>, ack: int, n: nat)
    requires n <= |tags| && |v.sent| == |w.sent| && forall x | 0 <= x < |w.sent| :: |v.sent[x]| == |w.sent[x]|
  {
    forall x: nat, j: nat {:trigger w.sent[x][j]} {:trigger v.sent[x][j]} | x < |w.sent| && j < |w.sent[x]| ::
      SentToo(w.write, w.sent[x][j], v.sent[x][j], ack, if x == i then Replicas(tags, n, j) else {})
  }

  lemma FrameNext(w: World, u: World, v: World, s: Step)
    requires WorldOk(u) && Enabled(u, s) && v == Apply(u, s) && SameFrame(w, u)
    ensures SameFrame(w, v)
  {
    StepShape(u, s);
    forall x | 0 <= x < |w.q.parts| ensures SameSizes(v.q.parts[x], w.q.parts[x]) {
      assert SameSizes(v.q.parts[x], u.q.parts[x]) && SameSizes(u.q.parts[x], w.q.parts[x]);
    }
  }

  lemma TagNext(w: World, u: World, v: World, i: nat, tags: seq<PayloadTag>, ack: int, n: nat)
    requires n < |tags| && TagEnabled(u, i, tags[n], ack) && SameFrame(w, u) && TagsSent(w, u, i, tags, ack, n)
    requires v == Apply(u, Answer(i, tags[n].lr, tags[n].dnIndex, ack)) && SameFrame(w, v)
    ensures TagsSent(w, v, i, tags, ack, n + 1)
  {
    forall x: nat, j: nat | x < |w.sent| && j < |w.sent[x]|
      ensures SentToo(w.write, w.sent[x][j], v.sent[x][j], ack, if x == i then Replicas(tags, n + 1, j) else {})
    {
      assert SentToo(w.write, w.sent[x][j], u.sent[x][j], ack, if x == i then Replicas(tags, n, j) else {});
      if x == i {
        ReplicasNext(tags, n, j);
        if j == tags[n].lr {
          RecordIs(u.write, u.sent[x][j], tags[n].dnIndex, ack);
          SentTwice(w.write, w.sent[x][j], u.sent[x][j], v.sent[x][j], ack, Replicas(tags, n, j), {tags[n].dnIndex});
        }
      }
    }
  }

  /** The step for one tag can be taken. */
  ghost predicate TagEnabled(u: World, i: nat, tag: PayloadTag, ack: int) {
    |u.sent| == |u.q.parts| && Enabled(u, Answer(i, tag.lr, tag.dnIndex, ack))
  }

  /** Answers of other replicas do not keep one from answering. */
  lemma StillMaySend(write: bool, a: Acks, b: Acks, n: nat, replica: nat, ack: int, rs: set<nat>)
    requires MaySend(write, a, n, replica, ack) && SentToo(write, a, b, ack, rs) && replica !in rs
    ensures MaySend(write, b, n, replica, ack)
  {
    MaySendIs(write, a, n, replica, ack);
    MaySendIs(write, b, n, replica, ack);
  }

  lemma NextAllowed(w: World, u: World, i: nat, tags: seq<PayloadTag>, ack: int, n: nat)
    requires n < |tags| && MayAnswer(w, i, tags, ack) && |u.sent| == |u.q.parts|
    requires SameFrame(w, u) && TagsSent(w, u, i, tags, ack, n)
    ensures TagEnabled(u, i, tags[n], ack)
  {
    var j, r := tags[n].lr, tags[n].dnIndex;
    assert SameSizes(u.q.parts[i], w.q.parts[i]);
    assert SentToo(w.write, w.sent[i][j], u.sent[i][j], ack, Replicas(tags, n, j));
    assert r !in Replicas(tags, n, j);
    StillMaySend(w.write, w.sent[i][j], u.sent[i][j], |w.q.parts[i].lrs[j].results|, r, ack, Replicas(tags, n, j));
  }

  lemma TagsNone(w: World, i: nat, tags: seq<PayloadTag>, ack: int)
    ensures SameFrame(w, w) && TagsSent(w, w, i, tags, ack, 0)
  {
    forall x: nat, j: nat | x < |w.sent| && j < |w.sent[x]|
      ensures SentToo(w.write, w.sent[x][j], w.sent[x][j], ack, if x == i then Replicas(tags, 0, j) else {})
    {
      assert Replicas(tags, 0, j) == {};
      NothingSent(w.write, w.sent[x][j], w.sent[x][j], ack);
    }
  }

  /**
   * The first code that commits blocks of a DMS_IO is its result, and that of the first DMS_IO that
   * goes is the result of the request; the other DMS_IOs are left alone.
   */
  ghost predicate ResultsFollow(before: Request, after: Request, i: nat, ack: int) {
    && i < |before.parts| == |after.parts|
    && (forall x | 0 <= x < |before.parts| && x != i :: after.parts[x] == before.parts[x])
    && (if before.parts[i].result != TRUE then after.parts[i].result == before.parts[i].result
        else after.parts[i].result == TRUE || after.parts[i].result == ack)
    && (if before.result != TRUE then after.result == before.result
        else after.result == TRUE || after.result == after.parts[i].result)
  }

  ghost predicate ResultsStay(w: World, v: World, i: nat, ack: int)
    requires i < |w.q.parts| == |v.q.parts|
  {
    ResultsFollow(w.q, v.q, i, ack) && v.q.parts[i].nnCommits == w.q.parts[i].nnCommits
  }

  lemma ResultsNext(w: World, u: World, v: World, s: Step)
    requires WorldOk(u) && Enabled(u, s) && v == Apply(u, s) && s.Answer?
    requires |w.q.parts| == |u.q.parts| && ResultsStay(w, u, s.i, s.ack)
    ensures |v.q.parts| == |w.q.parts| && ResultsStay(w, v, s.i, s.ack)
  {
    assert PartOk(u.q.parts[s.i], u.sent[s.i]);
    DeliverIs(u.write, u.q, u.sent[s.i], s.i, s.j, s.replica, s.ack);
    AnsweredStays(u.write, u.q.parts[s.i], u.sent[s.i], s.j, s.replica, s.ack);
    AnsweredCommits(u.write, u.q.parts[s.i], s.j, s.replica, s.ack);
  }

  lemma AnsweredCommits(write: bool, p: Part, j: nat, replica: nat, ack: int)
    requires j < |p.lrs| && replica < |p.lrs[j].results|
    ensures Answered(write, p, j, replica, ack).nnCommits == p.nnCommits
  {
  }

  lemma TagStep(w: World, u: World, v: World, i: nat, tags: seq<PayloadTag>, ack: int, n: nat)
    requires n < |tags| && MayAnswer(w, i, tags, ack) && WorldOk(u)
    requires SameFrame(w, u) && TagsSent(w, u, i, tags, ack, n) && ResultsStay(w, u, i, ack)
    ensures TagEnabled(u, i, tags[n], ack)
    ensures v == Apply(u, Answer(i, tags[n].lr, tags[n].dnIndex, ack)) ==>
      SameFrame(w, v) && TagsSent(w, v, i, tags, ack, n + 1) && ResultsStay(w, v, i, ack)
  {
    var s := Answer(i, tags[n].lr, tags[n].dnIndex, ack);
    NextAllowed(w, u, i, tags, ack, n);
    if v == Apply(u, s) {
      FrameNext(w, u, v, s);
      TagNext(w, u, v, i, tags, ack, n);
      ResultsNext(w, u, v, s);
    }
  }

  ghost predicate ReachedStep(h: History, w: World, v: World, i: nat, tags: seq<PayloadTag>, ack: int, n: nat) {
    && n <= |tags| && i < |w.q.parts| && Run(Told(h, i, tags, ack, n)) == Some(v)
    && SameFrame(w, v) && TagsSent(w, v, i, tags, ack, n) && ResultsStay(w, v, i, ack)
  }

  /** The run continued by the first `n` tags leads from one world to the other; said without unfolding it. */
  ghost predicate Reached(h: History, w: World, v: World, i: nat, tags: seq<PayloadTag>, ack: int, n: nat) {
    forall k: nat {:trigger ReachedStep(h, w, v, i, tags, ack, k)} | k == n :: ReachedStep(h, w, v, i, tags, ack, k)
  }

  lemma ReachedIs(h: History, w: World, v: World, i: nat, tags: seq<PayloadTag>, ack: int, n: nat)
    ensures Reached(h, w, v, i, tags, ack, n) <==>
      && n <= |tags| && i < |w.q.parts| && Run(Told(h, i, tags, ack, n)) == Some(v)
      && SameFrame(w, v) && TagsSent(w, v, i, tags, ack, n) && ResultsStay(w, v, i, ack)
  {
    assert ReachedStep(h, w, v, i, tags, ack, n) <==>
      && n <= |tags| && i < |w.q.parts| && Run(Told(h, i, tags, ack, n)) == Some(v)
      && SameFrame(w, v) && TagsSent(w, v, i, tags, ack, n) && ResultsStay(w, v, i, ack);
  }

  /** The run before the last of several tags, and the step for that. */
  lemma LastTag(h: History, i: nat, tags: seq<PayloadTag>, ack: int, n: nat, u: World)
    requires 0 < n <= |tags| && Run(Told(h, i, tags, ack, n - 1)) == Some(u) && TagEnabled(u, i, tags[n - 1], ack)
    ensures Run(Told(h, i, tags, ack, n)) == Some(Apply(u, Answer(i, tags[n - 1].lr, tags[n - 1].dnIndex, ack)))
  {
  }

  /** The next tag leads on. */
  lemma ToldNext(h: History, i: nat, tags: seq<PayloadTag>, ack: int, n: nat, w: World, u: World) returns (v: World)
    requires n < |tags| && MayAnswer(w, i, tags, ack) && Reached(h, w, u, i, tags, ack, n)
    ensures Reached(h, w, v, i, tags, ack, n + 1)
  {
    ReachedIs(h, w, u, i, tags, ack, n);
    RunKeeps(Told(h, i, tags, ack, n));
    var s := Answer(i, tags[n].lr, tags[n].dnIndex, ack);
    NextAllowed(w, u, i, tags, ack, n);
    v := Apply(u, s);
    TagStep(w, u, v, i, tags, ack, n);
    LastTag(h, i, tags, ack, n + 1, u);
    ReachedIs(h, w, v, i, tags, ack, n + 1);
  }

  lemma {:induction false} ToldReaches(h: History, i: nat, tags: seq<PayloadTag>, ack: int, n: nat, w: World)
    returns (v: World)
    requires n <= |tags| && Run(h) == Some(w) && MayAnswer(w, i, tags, ack)
    ensures Reached(h, w, v, i, tags, ack, n)
  {
    if n == 0 {
      TagsNone(w, i, tags, ack);
      v := w;
      ReachedIs(h, w, v, i, tags, ack, 0);
    } else {
      var u := ToldReaches(h, i, tags, ack, n - 1, w);
      v := ToldNext(h, i, tags, ack, n - 1, w, u);
    }
  }

  /** An answer that may be sent is told to all that it is for, and to nobody else. */
  lemma ToldAll(h: History, i: nat, tags: seq<PayloadTag>, ack: int, w: World) returns (v: World)
    requires Run(h) == Some(w) && MayAnswer(w, i, tags, ack)
    ensures Run(Told(h, i, tags, ack, |tags|)) == Some(v)
    ensures SameFrame(w, v) && TagsSent(w, v, i, tags, ack, |tags|) && ResultsStay(w, v, i, ack)
  {
    v := ToldReaches(h, i, tags, ack, |tags|, w);
    ReachedIs(h, w, v, i, tags, ack, |tags|);
  }

  // ---- what the answers come to ----

  /**
   * A located request by what its replicas sent: the missing answers, and whether it is committed:
   * when one replica has it on disk (or has read it), or each has it in memory or failed.
   */
  ghost predicate LocatedFollows(lr: Located, a: Acks) {
    var n := |lr.results|;
    && n > 0 && lr.wmem == n - |a.mem + a.failed| && lr.wdisk == n - |a.disk + a.failed|
    && (lr.committed <==> a.disk != {} || forall r: nat | r < n :: r in a.mem || r in a.failed)
  }

  /** No disk answer of any replica is missing. */
  ghost predicate AllOnDisk(lrs: seq<Located>, sent: seq<Acks>)
    requires |sent| == |lrs|
  {
    forall j, r: nat {:trigger r in sent[j].disk} {:trigger r in sent[j].failed} |
      0 <= j < |lrs| && r < |lrs[j].results| :: r in sent[j].disk || r in sent[j].failed
  }

  /** A DMS_IO by what was sent, when no answer is being handled. */
  ghost predicate PartFollows(p: Part, sent: seq<Acks>) {
    && |sent| == |p.lrs| > 0 && (forall j | 0 <= j < |p.lrs| :: LocatedFollows(p.lrs[j], sent[j]))
    && (p.attached <==> exists j | 0 <= j < |p.lrs| :: !p.lrs[j].committed)
    && (p.result == TRUE <==> forall j | 0 <= j < |p.lrs| :: !p.lrs[j].committed)
    && (forall b: nat {:trigger b in p.blocks} :: b in p.blocks <==>
          exists j | 0 <= j < |p.lrs| ::
            !p.lrs[j].committed && p.lrs[j].slbid <= b < p.lrs[j].slbid + p.lrs[j].nrLbids)
    && p.nnCommits == if AllOnDisk(p.lrs, sent) then 1 else 0
  }

  lemma OkFollows(lr: Located, a: Acks)
    requires LrOk(lr, a)
    ensures LocatedFollows(lr, a)
    ensures lr.wdisk == 0 <==> forall r: nat | r < |lr.results| :: r in a.disk || r in a.failed
  {
    DoneMeansZero(lr, a);
    assert forall r: nat :: r in a.mem + a.failed <==> r in a.mem || r in a.failed;
    assert forall r: nat :: r in a.disk + a.failed <==> r in a.disk || r in a.failed;
  }

  lemma CommitsFollow(p: Part, sent: seq<Acks>)
    requires PartOk(p, sent) && p.done == 0
    ensures p.nnCommits == if AllOnDisk(p.lrs, sent) then 1 else 0
  {
    NumDoneAll(p.lrs);
    forall j | 0 <= j < |p.lrs|
      ensures p.lrs[j].wdisk == 0 <==>
        forall r: nat | r < |p.lrs[j].results| :: r in sent[j].disk || r in sent[j].failed
    {
      assert LrOk(p.lrs[j], sent[j]);
      OkFollows(p.lrs[j], sent[j]);
    }
  }

  lemma BlocksFollow(p: Part, sent: seq<Acks>)
    requires PartOk(p, sent)
    ensures forall b: nat {:trigger b in p.blocks} :: b in p.blocks <==>
      exists j | 0 <= j < |p.lrs| :: !p.lrs[j].committed && p.lrs[j].slbid <= b < p.lrs[j].slbid + p.lrs[j].nrLbids
  {
    forall b: nat
      ensures b in p.blocks <==> exists j | 0 <= j < |p.lrs| ::
        !p.lrs[j].committed && p.lrs[j].slbid <= b < p.lrs[j].slbid + p.lrs[j].nrLbids
    {
      assert b in p.blocks <==> Waits(p.lrs, b);
      assert forall j | 0 <= j < |p.lrs| ::
        InRange(p.lrs[j], b) <==> p.lrs[j].slbid <= b < p.lrs[j].slbid + p.lrs[j].nrLbids;
    }
  }

  lemma LrsFollow(lrs: seq<Located>, sent: seq<Acks>)
    requires LrsOk(lrs, sent)
    ensures |sent| == |lrs| > 0 && forall j | 0 <= j < |lrs| :: LocatedFollows(lrs[j], sent[j])
  {
    forall j | 0 <= j < |lrs| ensures LocatedFollows(lrs[j], sent[j]) {
      assert LrOk(lrs[j], sent[j]);
      OkFollows(lrs[j], sent[j]);
    }
  }

  lemma PartOkFollows(p: Part, sent: seq<Acks>)
    requires PartOk(p, sent) && p.done == 0
    ensures PartFollows(p, sent)
  {
    NothingWaits(p.lrs, p.blocks);
    CommitsFollow(p, sent);
    LrsFollow(p.lrs, sent);
    BlocksFollow(p, sent);
  }
}
