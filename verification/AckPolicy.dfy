// One located request: what the acknowledgements of its replicas do to its counters, and when
// it may be committed to the user.
module AckPolicies {

  // Acknowledgement codes of the datanode protocol.
  const READ_ACK := 101
  const WMEM_ACK := 102
  const WDISK_ACK := 103
  const PWMEM_ACK := 104
  const PWDISK_ACK := 105
  const UNDEFINED := -1000
  const EXCEPTION := -1002
  const IOEXCEPTION := -1003
  const IOFAIL_BUT_LUN_OK_EXCEPTION := -1004
  const FAILED_LUN_EXCEPTION := -1005

  // What the policy tells the handler to do.
  const ACT_NONE := -1
  const WAITING := 0
  const ACT_CUSER := 1
  const ACT_LRDONE := 2

  /**
   * A located request: its block range, the last answer of each replica, how many memory and disk
   * answers are still missing, and whether its blocks were committed to the user.
   */
  datatype Located = Located(slbid: nat, nrLbids: nat, results: seq<int>, wmem: int, wdisk: int, committed: bool)

  datatype Kind = Mem | Disk | Read | Failure | Unknown

  function KindOf(ack: int): Kind {
    if ack == WMEM_ACK || ack == PWMEM_ACK then Mem
    else if ack == WDISK_ACK || ack == PWDISK_ACK then Disk
    else if ack == READ_ACK then Read
    else if ack in {UNDEFINED, EXCEPTION, IOEXCEPTION, IOFAIL_BUT_LUN_OK_EXCEPTION, FAILED_LUN_EXCEPTION} then Failure
    else Unknown
  }

  /** One memory answer less to wait for. */
  function UpdateMemAck(lr: Located): (Located, int) {
    (lr.(wmem := lr.wmem - 1), if lr.wmem - 1 == 0 then ACT_CUSER else WAITING)
  }

  /** One disk answer less to wait for. */
  function UpdateDiskAck(lr: Located, cuser: bool): (Located, int) {
    (lr.(wdisk := lr.wdisk - 1),
     if lr.wdisk - 1 == 0 then ACT_LRDONE else if cuser then ACT_CUSER else WAITING)
  }

  /** The commit policy for one answer of one replica. */
  function Policy(write: bool, lr: Located, replica: nat, ack: int): (Located, int)
    requires replica < |lr.results|
  {
    var lr := if lr.results[replica] != WDISK_ACK then lr.(results := lr.results[replica := ack]) else lr;
    match KindOf(ack)
    case Mem => UpdateMemAck(lr)
    case Disk => UpdateDiskAck(lr, true)
    case Read => UpdateDiskAck(lr, true)
    case Failure =>
      if !write then (lr, ACT_NONE)
      else
        var (lr, code) := UpdateMemAck(lr);
        UpdateDiskAck(lr, code != 0)
    case Unknown => (lr, ACT_NONE)
  }

  // ---- what the replicas sent ----

  /**
   * The replicas that acknowledged to memory, to disk (or sent what was read), that failed to
   * write, and that failed to read.
   */
  datatype Acks = Acks(mem: set<nat>, disk: set<nat>, failed: set<nat>, lost: set<nat>)

  const NONE_YET := Acks({}, {}, {}, {})

  /**
   * To a write a replica sends one memory and one disk answer, in either order, or one failure; to
   * a read one answer or one failure.
   */
  ghost predicate MaySend(write: bool, a: Acks, n: nat, replica: nat, ack: int) {
    && replica < n && replica !in a.failed && replica !in a.lost
    && match KindOf(ack)
       case Mem => write && replica !in a.mem
       case Disk => write && replica !in a.disk
       case Read => !write && replica !in a.disk
       case Failure => replica !in a.mem && replica !in a.disk
       case Unknown => false
  }

  ghost function Record(write: bool, a: Acks, replica: nat, ack: int): Acks {
    match KindOf(ack)
    case Mem => a.(mem := a.mem + {replica})
    case Disk => a.(disk := a.disk + {replica})
    case Read => a.(disk := a.disk + {replica})
    case Failure => if write then a.(failed := a.failed + {replica}) else a.(lost := a.lost + {replica})
    case Unknown => a
  }

  /** The failures that a datanode or the connection to it reports. */
  const FAILURES: set<int> := {-1000, -1002, -1003, -1004, -1005}

  /** `b` is what was sent when the replicas `rs` have sent this answer too, by its code. */
  ghost predicate SentToo(write: bool, a: Acks, b: Acks, ack: int, rs: set<nat>) {
    && b.mem == (if ack == WMEM_ACK || ack == PWMEM_ACK then a.mem + rs else a.mem)
    && b.disk == (if ack == WDISK_ACK || ack == PWDISK_ACK || ack == READ_ACK then a.disk + rs else a.disk)
    && b.failed == (if write && ack in FAILURES then a.failed + rs else a.failed)
    && b.lost == (if !write && ack in FAILURES then a.lost + rs else a.lost)
  }

  /** Which code of the protocol is which. */
  lemma RecordIs(write: bool, a: Acks, replica: nat, ack: int)
    ensures SentToo(write, a, Record(write, a, replica, ack), ack, {replica})
    ensures WMEM_ACK == 102 && PWMEM_ACK == 104 && WDISK_ACK == 103 && PWDISK_ACK == 105 && READ_ACK == 101
  {
    assert FAILURES == {UNDEFINED, EXCEPTION, IOEXCEPTION, IOFAIL_BUT_LUN_OK_EXCEPTION, FAILED_LUN_EXCEPTION};
  }

  /** The answers that a replica may send, by their codes. */
  lemma MaySendIs(write: bool, a: Acks, n: nat, replica: nat, ack: int)
    ensures MaySend(write, a, n, replica, ack) <==>
      && replica < n && replica !in a.failed && replica !in a.lost
      && if ack == WMEM_ACK || ack == PWMEM_ACK then write && replica !in a.mem
         else if ack == WDISK_ACK || ack == PWDISK_ACK then write && replica !in a.disk
         else if ack == READ_ACK then !write && replica !in a.disk
         else ack in FAILURES && replica !in a.mem && replica !in a.disk
  {
    assert FAILURES == {UNDEFINED, EXCEPTION, IOEXCEPTION, IOFAIL_BUT_LUN_OK_EXCEPTION, FAILED_LUN_EXCEPTION};
  }

  ghost predicate Below(s: set<nat>, n: nat) {
    forall x | x in s :: x < n
  }

  /** Every one of `n` replicas is in the set. */
  ghost predicate Everyone(s: set<nat>, n: nat) {
    forall x: nat | x < n :: x in s
  }

  /** The user may be told: some replica has the data on disk, or every replica answered. */
  ghost predicate UserDue(a: Acks, n: nat) {
    a.disk != {} || Everyone(a.mem + a.failed, n)
  }

  /** The located request is done: no disk answer is missing. */
  ghost predicate Done(a: Acks, n: nat) {
    Everyone(a.disk + a.failed, n)
  }

  lemma {:induction false} CardBelow(s: set<nat>, n: nat)
    requires Below(s, n)
    ensures |s| <= n && (|s| == n <==> Everyone(s, n))
  {
    if n == 0 {
      assert s == {};
    } else {
      var t := s - {n - 1};
      CardBelow(t, n - 1);
      assert Everyone(s, n) <==> Everyone(t, n - 1) && n - 1 in s;
    }
  }

  /** The counters are the numbers of missing answers. */
  ghost predicate Counts(lr: Located, a: Acks) {
    var n := |lr.results|;
    && Below(a.mem + a.failed, n) && Below(a.disk + a.failed, n)
    && lr.wmem == n - |a.mem + a.failed| && lr.wdisk == n - |a.disk + a.failed|
  }

  lemma CountOne(s: set<nat>, n: nat, x: nat)
    requires Below(s, n) && x < n && x !in s
    ensures Below(s + {x}, n) && |s + {x}| == |s| + 1 && |s| < n && !Everyone(s, n)
    ensures |s + {x}| == n <==> Everyone(s + {x}, n)
  {
    CardBelow(s, n);
    CardBelow(s + {x}, n);
  }

  /**
   * What an answer of a replica must do: the counters stay right, the located request is
   * reported done exactly when its last disk answer comes in, and a commit to the user is asked for
   * exactly when one is due.
   */
  ghost predicate PolicyOk(lr: Located, a: Acks, b: Acks, lr': Located, code: int) {
    var n := |lr.results|;
    && Counts(lr', b) && lr' == lr.(results := lr'.results, wmem := lr'.wmem, wdisk := lr'.wdisk)
    && |lr'.results| == n && ACT_NONE <= code <= ACT_LRDONE
    && (code == ACT_LRDONE <==> Done(b, n) && !Done(a, n))
    && (UserDue(a, n) || code > WAITING <==> UserDue(b, n))
  }

  lemma MemOk(lr: Located, a: Acks, replica: nat)
    requires Counts(lr, a) && replica < |lr.results| && replica !in a.failed && replica !in a.mem
    ensures var (lr', code) := UpdateMemAck(lr);
      PolicyOk(lr, a, a.(mem := a.mem + {replica}), lr', code)
  {
    CountOne(a.mem + a.failed, |lr.results|, replica);
    assert (a.mem + {replica}) + a.failed == (a.mem + a.failed) + {replica};
  }

  lemma DiskOk(lr: Located, a: Acks, replica: nat)
    requires Counts(lr, a) && replica < |lr.results| && replica !in a.failed && replica !in a.disk
    ensures var (lr', code) := UpdateDiskAck(lr, true);
      PolicyOk(lr, a, a.(disk := a.disk + {replica}), lr', code)
  {
    CountOne(a.disk + a.failed, |lr.results|, replica);
    assert (a.disk + {replica}) + a.failed == (a.disk + a.failed) + {replica};
    assert replica in a.disk + {replica};
  }

  lemma FailureOk(lr: Located, a: Acks, replica: nat)
    requires Counts(lr, a) && replica < |lr.results| && replica !in a.failed && replica !in a.mem && replica !in a.disk
    ensures var (mid, mem) := UpdateMemAck(lr);
      var (lr', code) := UpdateDiskAck(mid, mem != 0);
      PolicyOk(lr, a, a.(failed := a.failed + {replica}), lr', code)
  {
    CountOne(a.mem + a.failed, |lr.results|, replica);
    CountOne(a.disk + a.failed, |lr.results|, replica);
    assert a.mem + (a.failed + {replica}) == (a.mem + a.failed) + {replica};
    assert a.disk + (a.failed + {replica}) == (a.disk + a.failed) + {replica};
  }

  /** The policy does this for every answer that a replica may send. */
  lemma PolicyFacts(write: bool, lr: Located, a: Acks, replica: nat, ack: int, b: Acks)
    returns (lr': Located, code: int)
    requires Counts(lr, a) && MaySend(write, a, |lr.results|, replica, ack) && b == Record(write, a, replica, ack)
    ensures Policy(write, lr, replica, ack) == (lr', code) && PolicyOk(lr, a, b, lr', code)
  {
    var noted := if lr.results[replica] != WDISK_ACK then lr.(results := lr.results[replica := ack]) else lr;
    match KindOf(ack) {
      case Mem => MemOk(noted, a, replica);
      case Disk => DiskOk(noted, a, replica);
      case Read => DiskOk(noted, a, replica);
      case Failure =>
        if write {
          FailureOk(noted, a, replica);
        }
    }
    lr', code := Policy(write, lr, replica, ack).0, Policy(write, lr, replica, ack).1;
  }

  /** Answers are never taken back. */
  lemma AnswersStay(write: bool, a: Acks, n: nat, replica: nat, ack: int)
    ensures Done(a, n) ==> Done(Record(write, a, replica, ack), n)
    ensures UserDue(a, n) ==> UserDue(Record(write, a, replica, ack), n)
  {
    var b := Record(write, a, replica, ack);
    assert a.disk + a.failed <= b.disk + b.failed && a.mem + a.failed <= b.mem + b.failed;
  }

  /** A located request that is done was due for the user before or at the same moment. */
  lemma DoneIsDue(a: Acks, n: nat)
    requires Done(a, n)
    ensures UserDue(a, n)
  {
  }

  /** A located request as it is between two answers: committed exactly when that is due. */
  ghost predicate LrOk(lr: Located, a: Acks) {
    |lr.results| > 0 && Counts(lr, a) && (lr.committed <==> UserDue(a, |lr.results|))
  }

  lemma DoneMeansZero(lr: Located, a: Acks)
    requires Counts(lr, a)
    ensures lr.wdisk == 0 <==> Done(a, |lr.results|)
  {
    CardBelow(a.disk + a.failed, |lr.results|);
  }

  /**
   * A memory answer that comes after the disk answer of its replica leaves the note of the latter
   * alone exactly when that is the plain disk answer; that of a partial write is overwritten.
   */
  lemma DiskNoteKept(write: bool, lr: Located, replica: nat, disk: int, mem: int)
    requires replica < |lr.results| && lr.results[replica] != WDISK_ACK
    requires KindOf(disk) == Disk && KindOf(mem) == Mem
    ensures var after := Policy(write, lr, replica, disk).0;
      && after.results[replica] == disk && |after.results| == |lr.results|
      && (Policy(write, after, replica, mem).0.results[replica] == disk <==> disk == WDISK_ACK)
  {
  }

  /** No answer is mistaken for the C `true`. */
  lemma AnswerIsNotTrue(write: bool, a: Acks, n: nat, replica: nat, ack: int)
    requires MaySend(write, a, n, replica, ack)
    ensures ack != 1
  {
  }

  /** One answer, as the handler of a whole DMS_IO sees it. */
  lemma AnswerStep(write: bool, lr: Located, a: Acks, replica: nat, ack: int, b: Acks)
    returns (lr': Located, code: int)
    requires LrOk(lr, a) && MaySend(write, a, |lr.results|, replica, ack) && b == Record(write, a, replica, ack)
    ensures Policy(write, lr, replica, ack) == (lr', code) && Counts(lr', b) && |lr'.results| == |lr.results|
    ensures lr'.slbid == lr.slbid && lr'.nrLbids == lr.nrLbids && lr'.committed == lr.committed
    ensures ACT_NONE <= code <= ACT_LRDONE && (lr.committed || code > WAITING <==> UserDue(b, |lr.results|))
    ensures lr'.wdisk == 0 <==> lr.wdisk == 0 || code == ACT_LRDONE
    ensures code == ACT_LRDONE ==> lr.wdisk != 0
  {
    lr', code := PolicyFacts(write, lr, a, replica, ack, b);
    AnswersStay(write, a, |lr.results|, replica, ack);
    DoneMeansZero(lr, a);
    DoneMeansZero(lr', b);
  }
}
