// The handlers of the driver core on the heap: a kernel request with the list of its DMS_IOs, their
// metadata and their lists of blocks; an answer of a datanode, for all located requests it covers.
module AckDrivers {
  import opened LinkedRings
  import opened BlockLists
  import DLists
  import opened AckPolicies
  import opened AckRequests
  import opened AckRuns
  import opened AckAnswers
  import opened AckObjects
  import opened Options

  // ---- which DMS_IOs are still queued ----

  /** The numbers of the first `n` parts that did not leave the request yet. */
  ghost function Queued(parts: seq<Part>, n: nat): seq<nat>
    requires n <= |parts|
  {
    if n == 0 then [] else Queued(parts, n - 1) + if parts[n - 1].attached then [n - 1] else []
  }

  lemma {:induction false} QueuedIs(parts: seq<Part>, n: nat)
    requires n <= |parts|
    ensures Ascending(Queued(parts, n))
    ensures forall k: nat :: k in Queued(parts, n) <==> k < n && parts[k].attached
  {
    if n > 0 {
      QueuedIs(parts, n - 1);
      var q := Queued(parts, n - 1);
      assert forall x | 0 <= x < |q| :: q[x] in q;
    }
  }

  lemma {:induction false} QueuedSame(parts: seq<Part>, i: nat, p: Part, n: nat)
    requires i < |parts| && n <= |parts| && (i < n ==> p.attached == parts[i].attached)
    ensures Queued(parts[i := p], n) == Queued(parts, n)
  {
    if n > 0 {
      QueuedSame(parts, i, p, n - 1);
    }
  }

  lemma {:induction false} QueuedPrefix(parts: seq<Part>, k: nat, n: nat)
    requires n <= k <= |parts|
    ensures Queued(parts[..k], n) == Queued(parts, n)
  {
    if n > 0 {
      QueuedPrefix(parts, k, n - 1);
    }
  }

  lemma DropBefore(q: seq<nat>, tail: seq<nat>, j: nat)
    requires j < |q|
    ensures (q + tail)[..j] + (q + tail)[j + 1..] == q[..j] + q[j + 1..] + tail
  {
  }

  /** A part that leaves is taken out of the list. */
  lemma {:induction false} QueuedWithout(parts: seq<Part>, i: nat, p: Part, n: nat, j: nat)
    requires i < n <= |parts| && parts[i].attached && !p.attached
    requires j < |Queued(parts, n)| && Queued(parts, n)[j] == i
    ensures Queued(parts[i := p], n) == Queued(parts, n)[..j] + Queued(parts, n)[j + 1..]
  {
    var q, tail := Queued(parts, n - 1), if parts[n - 1].attached then [n - 1] else [];
    QueuedIs(parts, n - 1);
    assert Queued(parts, n) == q + tail;
    assert j < |q| ==> (q + tail)[j] == q[j] && q[j] in q;
    if i == n - 1 {
      QueuedSame(parts, i, p, n - 1);
    } else {
      QueuedWithout(parts, i, p, n - 1, j);
      DropBefore(q, tail, j);
    }
  }

  // ---- located requests reported done ----

  /** The answer now handled, for part `i`, has reported `done` located requests done. */
  ghost predicate DoneIs(parts: seq<Part>, i: nat, done: nat) {
    i < |parts| && parts[i].done == done && forall k | 0 <= k < |parts| && k != i :: parts[k].done == 0
  }

  lemma DeliverDone(write: bool, q: Request, i: nat, j: nat, replica: nat, ack: int, done: nat)
    requires DoneIs(q.parts, i, done) && j < |q.parts[i].lrs| && replica < |q.parts[i].lrs[j].results|
    ensures DoneIs(Deliver(write, q, i, j, replica, ack).parts, i,
                   done + if Counted(write, q.parts[i], j, replica, ack).1 == ACT_LRDONE then 1 else 0)
  {
  }

  lemma ListWithout(head: Link, items: seq<Link>, j: nat, e: seq<Link>)
    requires j < |items| && e == items[..j] + items[j + 1..]
    ensures |Data([head] + items)| == |items| && Data([head] + items)[j] == items[j].data
    ensures Data([head] + e) == Data([head] + items)[..j] + Data([head] + items)[j + 1..]
  {
  }

  lemma TailData(head: Link, items: seq<Link>, x: Link)
    ensures Data([head] + (items + [x])) == Data([head] + items) + [x.data]
  {
  }

  /** A request with one more part before any answer. */
  lemma OneMorePart(write: bool, q: Request, p: Part)
    requires q.result == TRUE && q.ended == [] && FreshPart(p) && forall i | 0 <= i < |q.parts| :: FreshPart(q.parts[i])
    ensures var r := q.(parts := q.parts + [p]);
      && (forall i | 0 <= i < |r.parts| :: FreshPart(r.parts[i]))
      && Run(Begin(write, r)) == Some(World(write, r, Silence(r)))
  {
  }

  lemma Found(head: Link, items: seq<Link>, did: nat) returns (j: nat)
    requires did in Data([head] + items)
    ensures j < |items| && items[j].data == did
  {
    j :| j < |Data([head] + items)| && Data([head] + items)[j] == did;
  }

  /** Numbers in the list differ, so the first node found is the only one. */
  lemma FirstFound(head: Link, items: seq<Link>, j: nat, at: nat)
    requires Ascending(Data([head] + items)) && j < |items|
    requires at <= |items| && forall k | 0 <= k < at :: items[k].data != items[j].data
    requires at < |items| ==> items[at].data == items[j].data
    ensures at == j
  {
    var d := Data([head] + items);
    assert d[j] == items[j].data && (at < |items| ==> d[at] == items[at].data);
  }

  lemma NoneQueued(parts: seq<Part>)
    ensures Queued(parts, |parts|) == [] <==> !AnyAttached(parts)
  {
    QueuedIs(parts, |parts|);
    assert Queued(parts, |parts|) != [] ==> Queued(parts, |parts|)[0] in Queued(parts, |parts|);
  }

  // ---- the steps of an answer ----

  /** What a step that continues a run finds. */
  lemma {:induction false} NextEnabled(h: History, s: Step, w: World)
    requires Run(h) == Some(w) && Run(Then(h, s)).Some?
    ensures |w.sent| == |w.q.parts| && Enabled(w, s) && Run(Then(h, s)) == Some(Apply(w, s)) && WorldOk(w)
  {
    RunKeeps(h);
  }

  lemma AnswerNext(write: bool, h: History, i: nat, j: nat, replica: nat, ack: int, w: World, done: nat)
    returns (next: World)
    requires w.write == write && Run(h) == Some(w) && Run(Then(h, Answer(i, j, replica, ack))).Some?
    requires DoneIs(w.q.parts, i, done)
    ensures Run(Then(h, Answer(i, j, replica, ack))) == Some(next) && next.write == write
    ensures j < |w.q.parts[i].lrs| && replica < |w.q.parts[i].lrs[j].results|
    ensures next.q == Deliver(write, w.q, i, j, replica, ack)
    ensures DoneIs(next.q.parts, i,
                   done + if Counted(write, w.q.parts[i], j, replica, ack).1 == ACT_LRDONE then 1 else 0)
    ensures !w.q.parts[i].lrs[j].committed ==> w.q.parts[i].attached
  {
    NextEnabled(h, Answer(i, j, replica, ack), w);
    Attached(w, i, j);
    DeliverDone(write, w.q, i, j, replica, ack, done);
    next := Apply(w, Answer(i, j, replica, ack));
  }

  lemma SettleNext(h: History, i: nat, w: World, done: nat) returns (next: World)
    requires Run(h) == Some(w) && DoneIs(w.q.parts, i, done)
    ensures Run(Then(h, Settle(i))) == Some(next) && next.write == w.write && |next.q.parts| == |w.q.parts|
    ensures next.q == w.q.(parts := w.q.parts[i := Account(w.q.parts[i])]) && DoneIs(next.q.parts, i, 0)
  {
    RunKeeps(h);
    next := Apply(w, Settle(i));
  }

  class KernelIo {
    /** Whether this is a write or overwrite; a read otherwise. */
    const write: bool
    /** The DMS_IOs that wait for blocks, by number. */
    const dios: DLists.DList
    /** The metadata of every DMS_IO. */
    var metas: seq<Metadata>
    var result: int
    /** The results the kernel request was ended with. */
    var ended: seq<int>

    /** The request as a value, what the replicas sent, and the steps so far. */
    ghost var q: Request
    ghost var sent: seq<seq<Acks>>
    ghost var log: History
    ghost var home: Homes
    /** The objects of the request besides this one. */
    ghost var Repr: set<object>

    ghost predicate Within()
      reads `metas, `home, `Repr, Repr
    {
      && this !in Repr && dios in Repr && (forall x | x in home :: x in Repr)
      && forall i | 0 <= i < |metas| ::
           && metas[i] in Repr && (metas[i].pdio != null ==> metas[i].pdio in Repr)
           && forall j | 0 <= j < |metas[i].lrs| :: metas[i].lrs[j] in Repr
    }

    /** The objects of part `i`. */
    ghost predicate Here(i: nat, p: Part)
      requires Within() && i < |metas|
      reads `metas, `home, `Repr, Repr
    {
      && metas[i].no == i && (metas[i].pdio != null ==> Owned(home, metas[i].pdio.ring, i))
      && metas[i].Matches(p, home)
    }

    ghost predicate PartsMatch(parts: seq<Part>)
      reads `metas, `home, `Repr, Repr
    {
      Within() && |metas| == |parts| && forall i: nat {:trigger Here(i, parts[i])} | i < |metas| :: Here(i, parts[i])
    }

    ghost predicate ListOwned()
      reads `home, dios
    {
      && dios.head in home && home[dios.head] == DIO_LIST
      && (forall x | x in dios.it.items :: x in home && home[x] == DIO_LIST)
    }

    /** The list holds the numbers of the parts that did not leave. */
    ghost predicate ListMatches(parts: seq<Part>)
      reads `home, dios, dios.head, dios.it.items
    {
      && ListOwned() && dios.Valid() && Data([dios.head] + dios.it.items) == Queued(parts, |parts|)
    }

    /** The objects are what the value says. */
    ghost predicate Shows(r: Request)
      reads `metas, `home, `Repr, `result, `ended, Repr, dios, dios.head, dios.it.items
    {
      PartsMatch(r.parts) && ListMatches(r.parts) && result == r.result && ended == r.ended
    }

    /** No answer came in yet. */
    ghost predicate Building()
      reads this, Repr, dios, dios.head, dios.it.items
    {
      && Shows(q) && log == Begin(write, q) && sent == Silence(q) && q.result == TRUE && q.ended == []
      && forall i | 0 <= i < |q.parts| :: FreshPart(q.parts[i])
    }

    ghost predicate Valid()
      reads this, Repr, dios, dios.head, dios.it.items
    {
      Shows(q) && Run(log) == Some(World(write, q, sent))
    }

    /**
     * The objects of a DMS_IO by what was sent: it is gone, and the pointer to it cleared, when all
     * its located requests are committed; until then its list has the blocks of the others.
     */
    ghost predicate ObjectsFollow(x: nat)
      requires Within() && x < |metas| == |sent|
      reads `metas, `home, `Repr, `sent, Repr
    {
      var m, a := metas[x], sent[x];
      && |a| == |m.lrs| && (forall j | 0 <= j < |m.lrs| :: LocatedFollows(m.lrs[j].Value(), a[j]))
      && (m.pdio == null <==> forall j | 0 <= j < |m.lrs| :: m.lrs[j].committed)
      && (m.pdio != null ==>
            && (m.pdio.result == TRUE <==> forall j | 0 <= j < |m.lrs| :: !m.lrs[j].committed)
            && m.pdio.ring != [] && forall b: nat {:trigger b in Data(m.pdio.ring)} ::
                 b in Data(m.pdio.ring) <==> WaitsFor(m, b))
      && m.nnCommits == if AllOnDisk(Values(m.lrs), a) then 1 else 0
    }

    /** A located request that is not committed has the block. */
    ghost predicate WaitsFor(m: Metadata, b: nat)
      reads m.lrs
    {
      exists j | 0 <= j < |m.lrs| ::
        !m.lrs[j].committed && m.lrs[j].slbid <= b < m.lrs[j].slbid + m.lrs[j].nrLbids
    }

    lemma WaitsIs(x: nat, p: Part, b: nat)
      requires Within() && x < |metas| && Here(x, p)
      ensures WaitsFor(metas[x], b) <==> exists j | 0 <= j < |p.lrs| ::
        !p.lrs[j].committed && p.lrs[j].slbid <= b < p.lrs[j].slbid + p.lrs[j].nrLbids
    {
      assert forall j | 0 <= j < |p.lrs| :: metas[x].lrs[j].Value() == p.lrs[j];
    }

    /** And those of the request: the list of the DMS_IOs not gone, and the end with the last of them. */
    ghost predicate Follows()
      reads `metas, `home, `Repr, `sent, `result, `ended, Repr, dios, dios.head, dios.it.items
    {
      && Within() && |metas| == |sent| && (forall x: nat | x < |metas| :: ObjectsFollow(x))
      && (forall d: nat {:trigger d in Data([dios.head] + dios.it.items)} ::
            d in Data([dios.head] + dios.it.items) <==> d < |metas| && metas[d].pdio != null)
      && ended == (if exists x | 0 <= x < |metas| :: metas[x].pdio != null then [] else [result])
      && (result == TRUE <==> forall x | 0 <= x < |metas| :: metas[x].pdio != null)
    }

    lemma PartAt(x: nat)
      requires Valid() && x < |metas| && DoneIs(q.parts, x, 0)
      ensures |metas| == |sent| == |q.parts| && Here(x, q.parts[x]) && PartFollows(q.parts[x], sent[x])
    {
      RunKeeps(log);
      assert PartOk(q.parts[x], sent[x]);
      PartOkFollows(q.parts[x], sent[x]);
    }

    lemma ObjectsFollowAt(x: nat, p: Part)
      requires Within() && x < |metas| == |sent| && Here(x, p) && PartFollows(p, sent[x])
      ensures ObjectsFollow(x) && (metas[x].pdio != null <==> p.attached)
    {
      assert Values(metas[x].lrs) == p.lrs;
      assert forall j | 0 <= j < |p.lrs| :: metas[x].lrs[j].Value() == p.lrs[j];
      forall b: nat ensures b in p.blocks <==> WaitsFor(metas[x], b) {
        WaitsIs(x, p, b);
      }
    }

    lemma EachFollows(i: nat)
      requires Valid() && DoneIs(q.parts, i, 0)
      ensures |metas| == |sent| == |q.parts|
      ensures forall x: nat | x < |metas| :: ObjectsFollow(x) && (metas[x].pdio != null <==> q.parts[x].attached)
    {
      PartAt(i);
      forall x: nat | x < |metas| ensures ObjectsFollow(x) && (metas[x].pdio != null <==> q.parts[x].attached) {
        PartAt(x);
        ObjectsFollowAt(x, q.parts[x]);
      }
    }

    lemma EndFollows()
      requires Valid()
      ensures ended == (if AnyAttached(q.parts) then [] else [result]) && (result == TRUE <==> AllAttached(q.parts))
      ensures forall d: nat {:trigger d in Data([dios.head] + dios.it.items)} ::
        d in Data([dios.head] + dios.it.items) <==> d < |q.parts| && q.parts[d].attached
    {
      RunKeeps(log);
      QueuedIs(q.parts, |q.parts|);
    }

    /** Between two answers everything follows from what was sent. */
    lemma AllFollow(i: nat)
      requires Valid() && DoneIs(q.parts, i, 0)
      ensures Follows()
    {
      EndFollows();
      EachFollows(i);
    }

    constructor (write: bool)
      ensures Building() && fresh(Repr) && q.parts == [] && this.write == write
    {
      dios := new DLists.DList();
      this.write, metas, result, ended := write, [], TRUE, [];
      q := Request([], TRUE, []);
      sent, log := [], Begin(write, Request([], TRUE, []));
      new;
      home := map[dios.head := DIO_LIST];
      Repr := {dios, dios.head};
      assert Data([dios.head] + dios.it.items) == [];
    }

    /** The objects of a new part join those of the request. */
    ghost predicate Joins(m: Metadata, dio: DmsIo, p: Part)
      reads `metas, m, m.lrs, dio, dio.ring
    {
      && m.no == |metas| && m.LrsMatch(p) && m.waiting == |p.lrs| && m.nnCommits == 0 && m.pdio == dio
      && dio.did == m.no && dio.result == TRUE
      && Ring(dio.ring) && dio.ring[0] == dio.list && Data(dio.ring) == p.blocks
    }

    /** Makes a DMS_IO with its list of blocks and its metadata. */
    method MakePart(p: Part) returns (m: Metadata, dio: DmsIo)
      requires FreshPart(p)
      ensures fresh(m) && fresh(dio) && Joins(m, dio, p)
      ensures forall j | 0 <= j < |m.lrs| :: fresh(m.lrs[j])
      ensures forall x | 0 <= x < |dio.ring| :: fresh(dio.ring[x])
    {
      var lrs := NewRequests(|metas|, p.lrs);
      var head;
      ghost var ring;
      head, ring := NewBlocks(p.blocks);
      dio := new DmsIo(|metas|, head, ring);
      m := new Metadata(|metas|, lrs, dio);
    }

    /** The links of a new list of blocks get their home. */
    ghost function Housed(r: seq<Link>, no: int): Homes
      reads `home
    {
      map l | l in home.Keys + (set y | y in r) :: if l in home then home[l] else no
    }

    /** The objects of the request become more. */
    ghost method Grow(r: seq<Link>, no: int, others: set<object>, parts: seq<Part>)
      requires PartsMatch(parts) && this !in others && forall x | x in r :: x !in home
      modifies `home, `Repr
      ensures PartsMatch(parts) && Owned(home, r, no) && Repr == old(Repr) + others + (set x | x in r)
      ensures forall x | x in old(home) :: x in home && home[x] == old(home)[x]
    {
      ghost var was := home;
      home := Housed(r, no);
      Repr := Repr + others + (set x | x in r);
      forall k: nat {:trigger Here(k, parts[k])} | k < |metas| ensures Here(k, parts[k]) {
        assert old(Here(k, parts[k]));
        metas[k].MatchesGrown(parts[k], was, home);
      }
    }

    method Append(m: Metadata, ghost dio: DmsIo, ghost p: Part, ghost parts: seq<Part>)
      requires PartsMatch(parts) && Joins(m, dio, p) && p.attached && p.result == TRUE && p.waiting == |p.lrs|
      requires p.nnCommits == 0 && Owned(home, dio.ring, |metas|)
      requires m in Repr && dio in Repr && forall j | 0 <= j < |m.lrs| :: m.lrs[j] in Repr
      modifies `metas
      ensures PartsMatch(parts + [p])
    {
      ghost var parts' := parts + [p];
      metas := metas + [m];
      forall k: nat {:trigger Here(k, parts'[k])} | k < |metas| ensures Here(k, parts'[k]) {
        assert k < |parts| ==> old(Here(k, parts[k]));
      }
    }

    /** The objects of a new part join those of the request. */
    method JoinPart(m: Metadata, ghost dio: DmsIo, ghost p: Part, ghost parts: seq<Part>)
      requires PartsMatch(parts) && Joins(m, dio, p) && FreshPart(p)
      requires forall x | x in dio.ring :: x !in home
      modifies `metas, `home, `Repr
      ensures PartsMatch(parts + [p])
      ensures forall x | x in old(home) :: x in home && home[x] == old(home)[x]
      ensures Repr == old(Repr) + {m, dio} + (set l | l in m.lrs) + (set x | x in dio.ring)
    {
      Grow(dio.ring, |metas|, {m, dio} + (set l | l in m.lrs), parts);
      Append(m, dio, p, parts);
    }

    method Enlist(no: nat, ghost parts: seq<Part>) returns (ghost x: Link)
      requires PartsMatch(parts) && ListOwned() && dios.Valid()
      modifies dios`it, dios`log, dios`known, dios.it.items, dios.head
      ensures PartsMatch(parts) && dios.Valid()
      ensures fresh(x) && x.data == no && dios.it.items == old(dios.it.items) + [x]
    {
      AsideAll(parts);
      x := dios.InsertTail(no);
      forall k: nat {:trigger Here(k, parts[k])} | k < |metas| ensures Here(k, parts[k]) {
        assert old(Here(k, parts[k])) && old(Aside(k));
      }
    }

    /** The new node gets its home. */
    ghost method HouseNode(x: Link, items: seq<Link>, parts: seq<Part>)
      requires PartsMatch(parts) && x !in home && dios.head in home && home[dios.head] == DIO_LIST
      requires dios.it.items == items + [x] && forall y | y in items :: y in home && home[y] == DIO_LIST
      modifies `home, `Repr
      ensures PartsMatch(parts) && ListOwned() && Repr == old(Repr) + {x}
    {
      Grow([x], DIO_LIST, {}, parts);
      assert home[[x][0]] == DIO_LIST;
    }

    /** The DMS_IO of the last part joins the list. */
    method ListPart(no: nat, ghost parts: seq<Part>)
      requires PartsMatch(parts) && no == |parts| - 1 && parts[no].attached && ListMatches(parts[..no])
      modifies `home, `Repr, dios`it, dios`log, dios`known, dios.it.items, dios.head
      ensures PartsMatch(parts) && ListMatches(parts) && fresh(Repr - old(Repr))
    {
      ghost var x := Enlist(no, parts);
      TailData(dios.head, old(dios.it.items), x);
      QueuedPrefix(parts, no, no);
      HouseNode(x, old(dios.it.items), parts);
    }

    /** The objects of one more part. */
    method NewPart(p: Part, ghost parts: seq<Part>)
      requires PartsMatch(parts) && ListMatches(parts) && FreshPart(p)
      modifies `metas, `home, `Repr
      ensures PartsMatch(parts + [p]) && ListMatches(parts)
      ensures old(Repr) <= Repr && fresh(Repr - old(Repr))
    {
      var m, dio := MakePart(p);
      JoinPart(m, dio, p, parts);
    }

    method AddPart(p: Part, ghost parts: seq<Part>)
      requires PartsMatch(parts) && ListMatches(parts) && FreshPart(p)
      modifies `metas, `home, `Repr, Repr
      ensures PartsMatch(parts + [p]) && ListMatches(parts + [p]) && fresh(Repr - old(Repr))
    {
      NewPart(p, parts);
      assert (parts + [p])[..|parts|] == parts;
      ListPart(|metas| - 1, parts + [p]);
    }

    ghost method Restart(r: Request)
      requires Shows(r) && Run(Begin(write, r)) == Some(World(write, r, Silence(r))) && FreshRequest(r)
      modifies `q, `sent, `log
      ensures Building() && Valid() && q == r
    {
      q, sent, log := r, Silence(r), Begin(write, r);
    }

    /** Adds a DMS_IO to a request that waits for no answer yet. */
    method AddDio(p: Part)
      requires Building() && FreshPart(p)
      modifies `metas, `q, `sent, `log, `home, `Repr, Repr
      ensures Building() && Valid() && q == old(q).(parts := old(q).parts + [p])
      ensures fresh(Repr - old(Repr))
    {
      OneMorePart(write, q, p);
      AddPart(p, q.parts);
      Restart(q.(parts := q.parts + [p]));
    }

    /** The objects of two parts are different. */
    ghost predicate Apart(i: nat, k: nat)
      requires Within() && i < |metas| && k < |metas|
      reads `metas, `home, `Repr, Repr
    {
      && metas[i] != metas[k] && (forall j | 0 <= j < |metas[i].lrs| :: metas[i].lrs[j] !in metas[k].lrs)
      && (metas[i].pdio != null && metas[k].pdio != null ==>
            && metas[i].pdio != metas[k].pdio
            && forall x | 0 <= x < |metas[i].pdio.ring| :: metas[i].pdio.ring[x] !in metas[k].pdio.ring)
    }

    lemma SeparateAll(i: nat, parts: seq<Part>)
      requires PartsMatch(parts) && i < |metas|
      ensures forall k | 0 <= k < |metas| && k != i :: Apart(i, k)
    {
      forall k | 0 <= k < |metas| && k != i ensures Apart(i, k) {
        assert Here(i, parts[i]) && Here(k, parts[k]);
      }
    }

    /** The links of part `k` are not in the list of the DMS_IOs. */
    ghost predicate Aside(k: nat)
      requires Within() && k < |metas|
      reads `metas, `home, `Repr, Repr, dios
    {
      metas[k].pdio != null ==>
        forall x | 0 <= x < |metas[k].pdio.ring| ::
          metas[k].pdio.ring[x] != dios.head && metas[k].pdio.ring[x] !in dios.it.items
    }

    lemma AsideAll(parts: seq<Part>)
      requires PartsMatch(parts) && ListOwned()
      ensures forall k | 0 <= k < |metas| :: Aside(k)
    {
      forall k | 0 <= k < |metas| ensures Aside(k) {
        assert Here(k, parts[k]);
      }
    }

    /** Counts an answer. */
    method CountAnswer(i: nat, j: nat, replica: nat, ack: int, ghost parts: seq<Part>) returns (retcode: int)
      requires PartsMatch(parts) && i < |parts| && j < |parts[i].lrs| && replica < |parts[i].lrs[j].results|
      requires j < |metas[i].lrs|
      modifies metas[i].lrs[j]
      ensures PartsMatch(parts[i := Counted(write, parts[i], j, replica, ack).0])
      ensures retcode == Counted(write, parts[i], j, replica, ack).1
    {
      ghost var parts' := parts[i := Counted(write, parts[i], j, replica, ack).0];
      assert Here(i, parts[i]);
      SeparateAll(i, parts);
      retcode := metas[i].CountAnswer(write, j, replica, ack, parts[i], home);
      forall k: nat {:trigger Here(k, parts'[k])} | k < |metas| ensures Here(k, parts'[k]) {
        assert old(Here(k, parts[k])) && (k != i ==> old(Apart(i, k)));
      }
    }

    /** Commits the blocks of a located request to its DMS_IO. */
    method CommitBlocks(i: nat, j: nat, dio: DmsIo, ack: int, ghost parts: seq<Part>) returns (empty: bool)
      requires PartsMatch(parts) && i < |parts| && j < |parts[i].lrs| && !parts[i].lrs[j].committed
      requires j < |metas[i].lrs| && dio == metas[i].pdio
      modifies metas[i].lrs[j], dio`result, dio`ring, dio.ring
      ensures PartsMatch(parts[i := CommitPart(parts[i], j, ack)])
      ensures empty <==> CommitPart(parts[i], j, ack).blocks == []
    {
      ghost var parts' := parts[i := CommitPart(parts[i], j, ack)];
      assert Here(i, parts[i]);
      SeparateAll(i, parts);
      empty := metas[i].CommitBlocks(j, dio, ack, parts[i], home);
      forall k: nat {:trigger Here(k, parts'[k])} | k < |metas| ensures Here(k, parts'[k]) {
        assert old(Here(k, parts[k])) && (k != i ==> old(Apart(i, k)));
      }
    }

    /** The same, beside the list of the DMS_IOs. */
    method CommitLbs(i: nat, j: nat, dio: DmsIo, ack: int, ghost parts: seq<Part>) returns (empty: bool)
      requires PartsMatch(parts) && ListMatches(parts)
      requires i < |parts| && j < |parts[i].lrs| && !parts[i].lrs[j].committed
      requires j < |metas[i].lrs| && dio == metas[i].pdio
      modifies metas[i].lrs[j], dio`result, dio`ring, dio.ring
      ensures PartsMatch(parts[i := CommitPart(parts[i], j, ack)])
      ensures ListMatches(parts[i := CommitPart(parts[i], j, ack)])
      ensures empty <==> CommitPart(parts[i], j, ack).blocks == []
    {
      QueuedSame(parts, i, CommitPart(parts[i], j, ack), |parts|);
      AsideAll(parts);
      assert Aside(i);
      empty := CommitBlocks(i, j, dio, ack, parts);
      assert unchanged(dios) && unchanged(dios.head) && unchanged(dios.it.items);
    }

    /** The DMS_IO has left the request: its metadata forgets it. */
    method ClearPdio(i: nat, ghost parts: seq<Part>)
      requires PartsMatch(parts) && i < |parts| && ListMatches(parts[i := parts[i].(attached := false)])
      modifies metas[i]
      ensures PartsMatch(parts[i := parts[i].(attached := false)])
      ensures ListMatches(parts[i := parts[i].(attached := false)])
    {
      ghost var parts' := parts[i := parts[i].(attached := false)];
      assert Here(i, parts[i]);
      SeparateAll(i, parts);
      metas[i].pdio := null;
      forall k: nat {:trigger Here(k, parts'[k])} | k < |metas| ensures Here(k, parts'[k]) {
        assert old(Here(k, parts[k])) && (k != i ==> old(Apart(i, k)));
      }
    }

    /** Takes a DMS_IO out of the list. */
    method RemoveDio(i: nat, did: nat, ghost parts: seq<Part>) returns (empty: bool)
      requires ListMatches(parts) && i < |parts| && parts[i].attached && did == i
      modifies dios`nextNode, dios`it, dios`log, dios`known, dios.it.items, dios.head
      ensures ListMatches(parts[i := parts[i].(attached := false)])
      ensures empty <==> !AnyAttached(parts[i := parts[i].(attached := false)])
    {
      ghost var parts', items := parts[i := parts[i].(attached := false)], dios.it.items;
      dios.RingDistinct();
      QueuedIs(parts, |parts|);
      ghost var j := Found(dios.head, items, did);
      var found;
      ghost var at;
      found, empty, at := dios.RemoveByData(did);
      FirstFound(dios.head, items, j, at);
      DLists.DropAt(items, j);
      ListWithout(dios.head, items, j, dios.it.items);
      QueuedWithout(parts, i, parts'[i], |parts|, j);
      NoneQueued(parts');
    }

    method LeaveList(i: nat, did: nat, ghost parts: seq<Part>) returns (empty: bool)
      requires PartsMatch(parts) && ListMatches(parts) && i < |parts| && parts[i].attached && did == i
      modifies dios`nextNode, dios`it, dios`log, dios`known, dios.it.items, dios.head
      ensures PartsMatch(parts) && ListMatches(parts[i := parts[i].(attached := false)])
      ensures empty <==> !AnyAttached(parts[i := parts[i].(attached := false)])
    {
      AsideAll(parts);
      empty := RemoveDio(i, did, parts);
      forall k: nat {:trigger Here(k, parts[k])} | k < |metas| ensures Here(k, parts[k]) {
        assert old(Here(k, parts[k])) && old(Aside(k));
      }
    }

    /** A DMS_IO is complete: it leaves the list of the request, and the last one ends the request. */
    method CommitDioToIoRequest(i: nat, dio: DmsIo, ghost parts: seq<Part>)
      requires PartsMatch(parts) && ListMatches(parts) && i < |parts| && parts[i].attached && dio == metas[i].pdio
      modifies `result, `ended, dios`nextNode, dios`it, dios`log, dios`known, dios.it.items, dios.head
      ensures PartsMatch(parts) && ListMatches(parts[i := parts[i].(attached := false)])
      ensures var q := CompleteDio(Request(parts, old(result), old(ended)), i); result == q.result && ended == q.ended
    {
      assert Here(i, parts[i]);
      if result == TRUE {
        result := dio.result;
      }
      var empty := LeaveList(i, dio.did, parts);
      if empty {
        ended := ended + [result];
      }
    }

    /**
     * Commits the blocks of a located request, unless they were before. Otherwise the pointer to
     * the DMS_IO must not have been cleared yet.
     */
    method CommitLbsToDmsIo(i: nat, j: nat, ack: int, ghost r: Request)
      requires Shows(r) && i < |r.parts| && j < |r.parts[i].lrs|
      requires !r.parts[i].lrs[j].committed ==> r.parts[i].attached
      modifies `result, `ended, Repr
      ensures Shows(CommitLBs(r, i, j, ack))
    {
      ghost var parts := r.parts;
      assert Here(i, parts[i]);
      if !metas[i].lrs[j].committed {
        var dio := metas[i].pdio;
        var empty := CommitLbs(i, j, dio, ack, parts);
        parts := parts[i := CommitPart(parts[i], j, ack)];
        if empty {
          CommitDioToIoRequest(i, dio, parts);
          ClearPdio(i, parts);
        }
      }
    }

    /** One located request of an answer: counts it, and commits to the user if that is due. */
    method AnswerOne(i: nat, j: nat, replica: nat, ack: int, ghost r: Request) returns (retcode: int)
      requires Shows(r) && i < |r.parts| && j < |r.parts[i].lrs| && replica < |r.parts[i].lrs[j].results|
      requires !r.parts[i].lrs[j].committed ==> r.parts[i].attached
      modifies `result, `ended, Repr
      ensures Shows(Deliver(write, r, i, j, replica, ack))
      ensures retcode == Counted(write, r.parts[i], j, replica, ack).1
    {
      assert Here(i, r.parts[i]);
      retcode := CountAnswer(i, j, replica, ack, r.parts);
      ghost var p := Counted(write, r.parts[i], j, replica, ack).0;
      QueuedSame(r.parts, i, p, |r.parts|);
      if retcode == ACT_LRDONE || retcode == ACT_CUSER {
        CommitLbsToDmsIo(i, j, ack, r.(parts := r.parts[i := p]));
      }
    }

    /** The objects show what the next step of the run gives. */
    ghost method Advance(s: AckRuns.Step, w: World)
      requires Shows(w.q) && Run(Then(log, s)) == Some(w) && w.write == write
      modifies `q, `sent, `log
      ensures Valid() && q == w.q && log == Then(old(log), s)
    {
      q, sent, log := w.q, w.sent, Then(log, s);
    }

    /** The same, as a step of the run; counts the located requests that are done. */
    method HandlePayload(i: nat, j: nat, replica: nat, ack: int, done: nat) returns (doneLrs: nat)
      requires Valid() && Run(Then(log, Answer(i, j, replica, ack))).Some? && DoneIs(q.parts, i, done)
      modifies `result, `ended, `q, `sent, `log, Repr
      ensures Valid() && log == Then(old(log), Answer(i, j, replica, ack)) && DoneIs(q.parts, i, doneLrs)
    {
      ghost var w := AnswerNext(write, log, i, j, replica, ack, World(write, q, sent), done);
      var retcode := AnswerOne(i, j, replica, ack, q);
      doneLrs := if retcode == ACT_LRDONE then done + 1 else done;
      Advance(Answer(i, j, replica, ack), w);
    }

    /** The next of the located requests that an answer covers. */
    method HandleNext(ghost h: History, i: nat, tags: seq<PayloadTag>, ack: int, k: nat, done: nat)
      returns (doneLrs: nat)
      requires Valid() && k < |tags| && Telling(h, i, tags, ack, k, log) && DoneIs(q.parts, i, done)
      modifies `result, `ended, `q, `sent, `log, Repr
      ensures Valid() && Telling(h, i, tags, ack, k + 1, log) && DoneIs(q.parts, i, doneLrs)
    {
      TellingIs(h, i, tags, ack, k, log);
      ToldPrefix(h, i, tags, ack, k + 1, |tags|);
      doneLrs := HandlePayload(i, tags[k].lr, tags[k].dnIndex, ack, done);
      TellingIs(h, i, tags, ack, k + 1, log);
    }

    /** All located requests that an answer covers. */
    method HandlePayloads(ghost h: History, i: nat, tags: seq<PayloadTag>, ack: int) returns (doneLrs: nat)
      requires Valid() && Telling(h, i, tags, ack, 0, log) && DoneIs(q.parts, i, 0)
      modifies `result, `ended, `q, `sent, `log, Repr
      ensures Valid() && Telling(h, i, tags, ack, |tags|, log) && DoneIs(q.parts, i, doneLrs)
    {
      var k := 0;
      doneLrs := 0;
      while k < |tags|
        invariant k <= |tags| && Valid() && Telling(h, i, tags, ack, k, log) && DoneIs(q.parts, i, doneLrs)
      {
        doneLrs := HandleNext(h, i, tags, ack, k, doneLrs);
        k := k + 1;
      }
    }

    /**
     * An answer: the run goes on by one step for each located request that it covers, in order, and
     * each of them has the answer of its replica, with no other change to what was sent. Tells how
     * many of them are done now.
     */
    method HandleTag(i: nat, tags: seq<PayloadTag>, ack: int) returns (doneLrs: nat)
      requires Valid() && MayAnswer(World(write, q, sent), i, tags, ack) && DoneIs(q.parts, i, 0)
      modifies `result, `ended, `q, `sent, `log, Repr
      ensures Valid() && log == Told(old(log), i, tags, ack, |tags|) && DoneIs(q.parts, i, doneLrs)
      ensures |sent| == |old(sent)| && forall x | 0 <= x < |sent| :: |sent[x]| == |old(sent)[x]|
      ensures forall x: nat, j: nat {:trigger sent[x][j]} | x < |sent| && j < |sent[x]| ::
        SentToo(write, old(sent)[x][j], sent[x][j], ack,
                if x == i then set k | 0 <= k < |tags| && tags[k].lr == j :: tags[k].dnIndex else {})
      ensures i < |old(q).parts| == |q.parts| && ResultsStay(old(World(write, q, sent)), World(write, q, sent), i, ack)
    {
      ghost var h, w := log, World(write, q, sent);
      ghost var v := ToldAll(h, i, tags, ack, w);
      TellingIs(h, i, tags, ack, 0, h);
      doneLrs := HandlePayloads(h, i, tags, ack);
      TellingIs(h, i, tags, ack, |tags|, log);
      forall x: nat, j: nat | x < |sent| && j < |sent[x]|
        ensures SentToo(write, w.sent[x][j], sent[x][j], ack,
                        if x == i then set k | 0 <= k < |tags| && tags[k].lr == j :: tags[k].dnIndex else {})
      {
        assert SentToo(write, w.sent[x][j], sent[x][j], ack, if x == i then Replicas(tags, |tags|, j) else {});
      }
    }

    /** The accounting of an answer: the last located request of a DMS_IO triggers the namenode commit. */
    method SettleAnswer(i: nat, doneLrs: nat, ghost parts: seq<Part>) returns (retcode: int)
      requires PartsMatch(parts) && i < |parts| && doneLrs == parts[i].done
      modifies metas[i]
      ensures PartsMatch(parts[i := Account(parts[i])])
      ensures retcode == ACT_CNAMENODE <==> Account(parts[i]).nnCommits == parts[i].nnCommits + 1
    {
      ghost var parts' := parts[i := Account(parts[i])];
      assert Here(i, parts[i]);
      SeparateAll(i, parts);
      retcode := ACT_NONE;
      if doneLrs > 0 {
        retcode := metas[i].UpdateWaiting(doneLrs);
      }
      if retcode == ACT_CNAMENODE {
        metas[i].nnCommits := metas[i].nnCommits + 1;
      }
      forall k: nat {:trigger Here(k, parts'[k])} | k < |metas| ensures Here(k, parts'[k]) {
        assert old(Here(k, parts[k])) && (k != i ==> old(Apart(i, k)));
      }
    }

    method SettleShown(i: nat, doneLrs: nat, ghost r: Request) returns (retcode: int)
      requires Shows(r) && i < |r.parts| && doneLrs == r.parts[i].done
      modifies Repr
      ensures Shows(r.(parts := r.parts[i := Account(r.parts[i])]))
      ensures retcode == ACT_CNAMENODE <==> Account(r.parts[i]).nnCommits == r.parts[i].nnCommits + 1
    {
      QueuedSame(r.parts, i, Account(r.parts[i]), |r.parts|);
      retcode := SettleAnswer(i, doneLrs, r.parts);
    }

    /** The same, as a step of the run. */
    method SettleStep(i: nat, doneLrs: nat) returns (retcode: int)
      requires Valid() && DoneIs(q.parts, i, doneLrs)
      modifies `q, `sent, `log, Repr
      ensures Valid() && log == Then(old(log), Settle(i)) && DoneIs(q.parts, i, 0)
      ensures sent == old(sent) && q == old(q.(parts := q.parts[i := Account(q.parts[i])]))
      ensures retcode == ACT_CNAMENODE <==> q.parts[i].nnCommits == old(q).parts[i].nnCommits + 1
    {
      ghost var w := SettleNext(log, i, World(write, q, sent), doneLrs);
      retcode := SettleShown(i, doneLrs, q);
      Advance(Settle(i), w);
    }

    /**
     * Handles one answer of a datanode: commits to the user, then, if everything is done, to the
     * namenode; the latter exactly when it says so. Every located request that the answer covers has
     * it, no other has, and the objects follow from what was sent.
     */
    method VolumeIoCommitter(i: nat, tags: seq<PayloadTag>, ack: int) returns (retcode: int)
      requires Valid() && MayAnswer(World(write, q, sent), i, tags, ack) && DoneIs(q.parts, i, 0)
      modifies `result, `ended, `q, `sent, `log, Repr
      ensures Valid() && log == Then(Told(old(log), i, tags, ack, |tags|), Settle(i))
      ensures |sent| == |old(sent)| && forall x | 0 <= x < |sent| :: |sent[x]| == |old(sent)[x]|
      ensures forall x: nat, j: nat {:trigger sent[x][j]} | x < |sent| && j < |sent[x]| ::
        SentToo(write, old(sent)[x][j], sent[x][j], ack,
                if x == i then set k | 0 <= k < |tags| && tags[k].lr == j :: tags[k].dnIndex else {})
      ensures |q.parts| == |old(q).parts| && DoneIs(q.parts, i, 0)
      ensures retcode == ACT_CNAMENODE <==> q.parts[i].nnCommits == old(q).parts[i].nnCommits + 1
      ensures Follows() && ResultsFollow(old(q), q, i, ack)
    {
      var doneLrs := HandleTag(i, tags, ack);
      retcode := SettleStep(i, doneLrs);
      AllFollow(i);
    }
  }

  /** A commit never follows a cleared pointer. */
  lemma Attached(w: World, i: nat, j: nat)
    requires WorldOk(w) && i < |w.q.parts| && j < |w.q.parts[i].lrs|
    ensures !w.q.parts[i].lrs[j].committed ==> w.q.parts[i].attached
  {
    assert PartOk(w.q.parts[i], w.sent[i]);
    NothingWaits(w.q.parts[i].lrs, w.q.parts[i].blocks);
  }
}
