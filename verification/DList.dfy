// The list of user data with a stored iterator, which insertions and removals adjust.
module DLists {
  import opened LinkedRings
  import opened Options

  // ---- the list as a value ----

  /** The nodes of the list and how many of them the iterator has passed; at the end it has passed all. */
  datatype Iter = Iter(items: seq<Link>, at: nat)

  datatype Step = Next | InsertHead(x: Link) | InsertTail(x: Link) | Remove(x: Link)

  /** The list without the first occurrence of a node. */
  ghost function Drop(s: seq<Link>, x: Link): seq<Link> {
    if s == [] then [] else if s[0] == x then s[1..] else [s[0]] + Drop(s[1..], x)
  }

  /** New nodes are new, removed ones are in the list, and the iterator stops at the end. */
  ghost predicate Enabled(it: Iter, known: set<Link>, s: Step) {
    match s
    case Next => it.at < |it.items|
    case InsertHead(x) => x !in known
    case InsertTail(x) => x !in known
    case Remove(x) => x in it.items
  }

  ghost function Apply(it: Iter, s: Step): Iter {
    match s
    case Next => Iter(it.items, it.at + 1)
    case InsertHead(x) => Iter([x] + it.items, it.at + 1)
    case InsertTail(x) => Iter(it.items + [x], if it.at == |it.items| then it.at + 1 else it.at)
    case Remove(x) =>
      Iter(Drop(it.items, x),
           if 0 < it.at <= |it.items| && x in it.items[..it.at] then it.at - 1 else it.at)
  }

  // ---- whole iterations ----

  /** What happened since the iterator was reset. */
  datatype History = Reset(items: seq<Link>) | Then(before: History, step: Step)

  /** Every node that was in the list since the reset. */
  ghost function Known(h: History): set<Link> {
    match h
    case Reset(items) => set x | x in items
    case Then(before, s) => Known(before) + if s.InsertHead? || s.InsertTail? then {s.x} else {}
  }

  ghost function Run(h: History): Option<Iter> {
    match h
    case Reset(items) => if Distinct(items) then Some(Iter(items, 0)) else None
    case Then(before, s) =>
      match Run(before)
      case None => None
      case Some(it) => if Enabled(it, Known(before), s) then Some(Apply(it, s)) else None
  }

  /** The nodes the iterator returned. */
  ghost function Yielded(h: History): seq<Link> {
    match h
    case Reset(items) => []
    case Then(before, Next) =>
      (match Run(before)
       case None => []
       case Some(it) => Yielded(before) + if it.at < |it.items| then [it.items[it.at]] else [])
    case Then(before, _) => Yielded(before)
  }

  /**
   * The nodes it should return, read off the steps: the list at the reset, without what is removed
   * before its turn, and with what is added at the tail while there is still something to come.
   */
  ghost function Planned(h: History): seq<Link> {
    match h
    case Reset(items) => items
    case Then(before, InsertTail(x)) => Planned(before) + if Yielded(before) == Planned(before) then [] else [x]
    case Then(before, Remove(x)) => if x in Yielded(before) then Planned(before) else Drop(Planned(before), x)
    case Then(before, _) => Planned(before)
  }

  /** What connects the plan with the list. */
  ghost predicate OnPlan(h: History, it: Iter) {
    && it.at <= |it.items| && Distinct(it.items)
    && Planned(h) == Yielded(h) + it.items[it.at..]
    && Distinct(Planned(h))
    && (forall x | x in it.items :: x in Known(h))
    && (forall x | x in Planned(h) :: x in Known(h))
  }

  lemma {:induction false} DropFacts(s: seq<Link>, x: Link)
    requires Distinct(s)
    ensures Distinct(Drop(s, x)) && forall y | y in Drop(s, x) :: y in s
    ensures x !in s ==> Drop(s, x) == s
    ensures x in s ==> |Drop(s, x)| == |s| - 1
  {
    if s != [] && s[0] != x {
      DistinctTail(s);
      DropFacts(s[1..], x);
      assert s == [s[0]] + s[1..];
      DistinctCons(s[0], Drop(s[1..], x));
    }
  }

  lemma DistinctTail(s: seq<Link>)
    requires Distinct(s) && s != []
    ensures Distinct(s[1..]) && s[0] !in s[1..]
  {
  }

  lemma DistinctCons(x: Link, s: seq<Link>)
    requires Distinct(s) && x !in s
    ensures Distinct([x] + s)
  {
  }

  lemma DistinctParts(y: seq<Link>, u: seq<Link>)
    requires Distinct(y + u)
    ensures Distinct(y) && Distinct(u) && forall x | x in y :: x !in u
  {
    assert forall k | 0 <= k < |y| :: y[k] == (y + u)[k];
    assert forall k | 0 <= k < |u| :: u[k] == (y + u)[|y| + k];
  }

  lemma {:induction false} DropFromParts(y: seq<Link>, u: seq<Link>, x: Link)
    ensures x in y ==> Drop(y + u, x) == Drop(y, x) + u
    ensures x !in y ==> Drop(y + u, x) == y + Drop(u, x)
  {
    if y == [] {
      assert y + u == u && y + Drop(u, x) == Drop(u, x);
    } else {
      DropFromParts(y[1..], u, x);
      assert (y + u)[1..] == y[1..] + u;
    }
  }

  lemma {:induction false} DropAt(s: seq<Link>, j: nat)
    requires Distinct(s) && j < |s|
    ensures Drop(s, s[j]) == s[..j] + s[j + 1..]
  {
    if j > 0 {
      DistinctTail(s);
      DropAt(s[1..], j - 1);
      assert s[..j] == [s[0]] + s[1..][..j - 1];
    }
  }

  lemma RemoveUpcoming(items: seq<Link>, at: nat, x: Link)
    requires Distinct(items) && at <= |items| && x in items
    ensures var u, d := items[at..], Drop(items, x);
      if x in items[..at] then x !in u && at <= |d| + 1 && at > 0 && d[at - 1..] == u
      else x in u && at <= |d| && d[at..] == Drop(u, x)
  {
    var p, u := items[..at], items[at..];
    assert items == p + u;
    DistinctParts(p, u);
    DropFromParts(p, u, x);
    DropFacts(p, x);
    DropFacts(u, x);
  }

  lemma RemovePlan(y: seq<Link>, u: seq<Link>, x: Link)
    requires Distinct(y + u)
    ensures Distinct(Drop(y + u, x)) && forall z | z in Drop(y + u, x) :: z in y + u
    ensures x in u ==> x !in y && Drop(y + u, x) == y + Drop(u, x)
    ensures x !in u && x !in y ==> Drop(y + u, x) == y + u
  {
    DistinctParts(y, u);
    DropFacts(y + u, x);
    DropFromParts(y, u, x);
  }

  lemma RemoveKeeps(h: History, it: Iter, x: Link)
    requires OnPlan(h, it) && x in it.items
    ensures OnPlan(Then(h, Remove(x)), Apply(it, Remove(x)))
  {
    RemoveUpcoming(it.items, it.at, x);
    DropFacts(it.items, x);
    RemovePlan(Yielded(h), it.items[it.at..], x);
  }

  lemma HeadKeeps(h: History, it: Iter, x: Link)
    requires OnPlan(h, it) && x !in Known(h)
    ensures OnPlan(Then(h, InsertHead(x)), Apply(it, InsertHead(x)))
  {
  }

  lemma TailKeeps(h: History, it: Iter, x: Link)
    requires OnPlan(h, it) && x !in Known(h)
    ensures OnPlan(Then(h, InsertTail(x)), Apply(it, InsertTail(x)))
  {
  }

  lemma PassOne(y: seq<Link>, items: seq<Link>, at: nat)
    requires at < |items|
    ensures y + items[at..] == (y + [items[at]]) + items[at + 1..]
  {
  }

  lemma NextKeeps(h: History, it: Iter)
    requires OnPlan(h, it) && Run(h) == Some(it) && it.at < |it.items|
    ensures OnPlan(Then(h, Next), Apply(it, Next))
  {
    PassOne(Yielded(h), it.items, it.at);
  }

  /**
   * At any time, what was returned followed by what is still to come is exactly the plan. So when
   * the iterator reaches the end it has returned every planned node exactly once, in list order.
   */
  lemma {:induction false} IterationFollowsPlan(h: History)
    requires Run(h).Some?
    ensures OnPlan(h, Run(h).value)
    ensures Run(h).value.at == |Run(h).value.items| <==> Yielded(h) == Planned(h)
  {
    if h.Then? {
      var b, s := h.before, h.step;
      IterationFollowsPlan(b);
      var it := Run(b).value;
      match s
      case Next => NextKeeps(b, it);
      case Remove(x) => RemoveKeeps(b, it, x);
      case InsertHead(x) => HeadKeeps(b, it, x);
      case InsertTail(x) => TailKeeps(b, it, x);
    } else {
      assert [] + h.items[0..] == h.items;
    }
    var it := Run(h).value;
    assert |Planned(h)| == |Yielded(h)| + |it.items[it.at..]|;
    if it.at == |it.items| {
      assert Yielded(h) + [] == Yielded(h);
    }
  }

  /** A removal by data that finds nothing: an iterator at the end is put back on the first node. */
  ghost function Missed(it: Iter): Iter {
    if it.at == |it.items| then Iter(it.items, 0) else it
  }

  /** It disturbs the iteration exactly when that is over and the list is not empty. */
  lemma MissOnPlan(h: History)
    requires Run(h).Some?
    ensures var it := Run(h).value;
      OnPlan(h, Missed(it)) <==> it.at < |it.items| || it.items == []
  {
    IterationFollowsPlan(h);
    var it := Run(h).value;
    if it.at == |it.items| {
      assert it.items[0..] == it.items && it.items[it.at..] == [];
      assert |Yielded(h) + it.items| == |Yielded(h)| + |it.items|;
    }
  }

  /** A list of one node, read to the end: after the miss the node is returned again. */
  lemma MissRepeats(x: Link)
    ensures var h := Then(Reset([x]), Next);
      && Run(h).Some? && Yielded(h) == [x]
      && Missed(Run(h).value).items[Missed(Run(h).value).at..] == [x]
  {
  }

  lemma InPrefix(items: seq<Link>, at: nat, j: nat)
    requires Distinct(items) && at <= |items| && j < |items|
    ensures items[j] in items[..at] <==> j < at
  {
  }

  /** Where the nodes are after one is taken out, and where the iterator stands. */
  lemma RemoveAt(it: Iter, j: nat) returns (e: Iter)
    requires Distinct(it.items) && it.at <= |it.items| && j < |it.items|
    ensures e == Apply(it, Remove(it.items[j]))
    ensures e.items == it.items[..j] + it.items[j + 1..] && e.at == if j < it.at then it.at - 1 else it.at
  {
    e := Apply(it, Remove(it.items[j]));
    DropAt(it.items, j);
    InPrefix(it.items, it.at, j);
  }

  // ---- the list on the heap ----

  /** The node the stored pointer points to: the next one to return, or the head. */
  ghost function NodeAt(head: Link, it: Iter): Link {
    if it.at < |it.items| then it.items[it.at] else head
  }

  lemma RingWithout(head: Link, items: seq<Link>, j: nat)
    requires j < |items|
    ensures LinkedRings.Remove([head] + items, j + 1) == [head] + (items[..j] + items[j + 1..])
    ensures After([head] + items, j + 1) == if j + 1 < |items| then items[j + 1] else head
  {
  }

  lemma StandsOn(head: Link, it: Iter, j: nat, e: Iter)
    requires Distinct(it.items) && head !in it.items && it.at <= |it.items| && j < |it.items|
    requires e.items == it.items[..j] + it.items[j + 1..] && e.at == if j < it.at then it.at - 1 else it.at
    ensures e.at <= |e.items| && forall k | 0 <= k < |e.items| :: e.items[k] in it.items
    ensures NodeAt(head, e) == if j != it.at then NodeAt(head, it)
                               else if j + 1 < |it.items| then it.items[j + 1] else head
    ensures NodeAt(head, e) != it.items[j]
  {
  }

  lemma AfterRemove(head: Link, it: Iter, j: nat) returns (e: Iter)
    requires Distinct(it.items) && head !in it.items && it.at <= |it.items| && j < |it.items|
    ensures e == Apply(it, Remove(it.items[j])) && e.at <= |e.items|
    ensures e.items == it.items[..j] + it.items[j + 1..] && e.at == if j < it.at then it.at - 1 else it.at
    ensures LinkedRings.Remove([head] + it.items, j + 1) == [head] + e.items
    ensures NodeAt(head, e) == if j == it.at then After([head] + it.items, j + 1) else NodeAt(head, it)
    ensures NodeAt(head, e) != it.items[j] && forall k | 0 <= k < |e.items| :: e.items[k] in it.items
  {
    e := RemoveAt(it, j);
    RingWithout(head, it.items, j);
    StandsOn(head, it, j, e);
  }

  lemma HeadInserted(head: Link, it: Iter, x: Link)
    requires it.at <= |it.items|
    ensures var e := Apply(it, InsertHead(x));
      e.at <= |e.items| && Insert([head] + it.items, 0, x) == [head] + e.items && NodeAt(head, e) == NodeAt(head, it)
  {
  }

  lemma TailInserted(head: Link, it: Iter, x: Link)
    requires it.at <= |it.items|
    ensures var e := Apply(it, InsertTail(x));
      && e.at <= |e.items| && Insert([head] + it.items, |it.items|, x) == [head] + e.items
      && NodeAt(head, e) == NodeAt(head, it)
  {
  }

  class DList {
    const head: Link
    var nextNode: Link

    /** The list and its iterator as a value, and how they came about since the last reset. */
    ghost var it: Iter
    ghost var log: History
    ghost var known: set<Link>

    /** The nodes form a ring, and the stored pointer is the first node not yet passed. */
    ghost predicate Mirrors()
      reads `nextNode, `it, it.items, head
    {
      && Ring([head] + it.items) && it.at <= |it.items|
      && nextNode == NodeAt(head, it)
    }

    ghost predicate Valid()
      reads `nextNode, `it, `log, `known, it.items, head
    {
      Mirrors() && Run(log) == Some(it) && known == Known(log)
    }

    constructor ()
      ensures Valid() && it == Iter([], 0) && log == Reset([]) && fresh(head)
    {
      var h := new Link.Head();
      head, nextNode := h, h;
      it, log, known := Iter([], 0), Reset([]), {};
      new;
      assert [head] + it.items == [head];
    }

    lemma RingDistinct()
      requires Mirrors()
      ensures Distinct(it.items) && head !in it.items
    {
      DistinctTail([head] + it.items);
      assert ([head] + it.items)[1..] == it.items;
    }

    /** Puts the iterator on the first node. */
    method ResetIterator()
      requires Valid()
      modifies `nextNode, `it, `log, `known
      ensures Valid() && it == Iter(old(it).items, 0) && log == Reset(it.items)
    {
      RingDistinct();
      assert Joined([head] + it.items, 0);
      nextNode := head.next;
      it := Iter(it.items, 0);
      log, known := Reset(it.items), set x | x in it.items;
    }

    /** The data of the next node, unless the iterator is at the end. */
    method GetNext() returns (data: Option<nat>)
      requires Valid()
      modifies `nextNode, `it, `log, `known
      ensures Valid()
      ensures data == if old(it.at == |it.items|) then None else Some(old(it.items[it.at]).data)
      ensures it == if data.None? then old(it) else old(Apply(it, Next))
      ensures it.items == old(it.items) && it.at == old(it.at) + if data.None? then 0 else 1
      ensures log == if data.None? then old(log) else Then(old(log), Next)
    {
      RingDistinct();
      var cur := nextNode;
      data := None;
      if cur != head {
        assert Joined([head] + it.items, it.at + 1);
        data := Some(cur.data);
        nextNode := cur.next;
        it, log := Apply(it, Next), Then(log, Next);
      }
    }

    /** The pointers of an insertion behind position `i` of the ring. */
    method LinkIn(n: Link, pos: Link, ghost i: nat, ghost e: Iter)
      requires Mirrors() && i <= |it.items| && pos == ([head] + it.items)[i] && n !in [head] + it.items
      requires e.at <= |e.items| && Insert([head] + it.items, i, n) == [head] + e.items
      requires NodeAt(head, e) == NodeAt(head, it)
      modifies `it, n, it.items, head
      ensures Mirrors() && it == e
    {
      ListAdd(n, pos, [head] + it.items, i);
      it := e;
    }

    /** Adds a node in front. */
    method InsertHead(data: nat) returns (ghost x: Link)
      requires Valid()
      modifies `it, `log, `known, it.items, head
      ensures Valid() && fresh(x) && x.data == data
      ensures it.items == [x] + old(it.items) && it.at == old(it.at) + 1
      ensures it == Apply(old(it), Step.InsertHead(x)) && log == Then(old(log), Step.InsertHead(x))
    {
      var n := new Link(data);
      x := n;
      HeadInserted(head, it, n);
      LinkIn(n, head, 0, Apply(it, Step.InsertHead(n)));
      log, known := Then(log, Step.InsertHead(n)), known + {n};
    }

    /** Adds a node at the end. */
    method InsertTail(data: nat) returns (ghost x: Link)
      requires Valid()
      modifies `it, `log, `known, it.items, head
      ensures Valid() && fresh(x) && x.data == data
      ensures it.items == old(it.items) + [x]
      ensures it.at == if old(it.at == |it.items|) then |it.items| else old(it.at)
      ensures it == Apply(old(it), Step.InsertTail(x)) && log == Then(old(log), Step.InsertTail(x))
    {
      var n := new Link(data);
      x := n;
      TailInserted(head, it, n);
      assert Joined([head] + it.items, |it.items|);
      LinkIn(n, head.prev, |it.items|, Apply(it, Step.InsertTail(n)));
      log, known := Then(log, Step.InsertTail(n)), known + {n};
    }

    /** Walks to the first node whose data passes the check; stops at the head if there is none. */
    method Search(check: nat -> bool) returns (cur: Link, next: Link, ghost j: nat)
      requires Mirrors()
      ensures j <= |it.items| && (forall k | 0 <= k < j :: !check(it.items[k].data))
      ensures j < |it.items| ==> cur == it.items[j] && check(cur.data)
      ensures j == |it.items| ==> cur == head
      ensures next == if j < |it.items| then After([head] + it.items, j + 1) else After([head] + it.items, 0)
    {
      ghost var r := [head] + it.items;
      RingDistinct();
      assert Joined(r, 0) && (|r| > 1 ==> Joined(r, 1));
      cur := head.next;
      next := cur.next;
      j := 0;
      while cur != head
        invariant j <= |it.items| && (forall k | 0 <= k < j :: !check(it.items[k].data))
        invariant cur == (if j == |it.items| then head else it.items[j]) && next == cur.next
        decreases |it.items| - j
      {
        assert Joined(r, 0) && Joined(r, j + 1) && (j + 2 < |r| ==> Joined(r, j + 2));
        if check(cur.data) {
          return;
        }
        cur, next, j := next, next.next, j + 1;
      }
    }

    /** The pointers of a removal. */
    method Unlink(cur: Link, next: Link, ghost j: nat, ghost e: Iter)
      requires Mirrors() && j < |it.items| && cur == it.items[j]
      requires e.at <= |e.items| && LinkedRings.Remove([head] + it.items, j + 1) == [head] + e.items
      requires NodeAt(head, e) == (if j == it.at then next else NodeAt(head, it)) && NodeAt(head, e) != cur
      requires nextNode == cur <==> j == it.at
      modifies `nextNode, `it, it.items, head
      ensures Mirrors() && it == e && nextNode != cur
    {
      if nextNode == cur {
        nextNode := next;
      }
      ListDel(cur, [head] + it.items, j + 1);
      it := e;
    }

    /** Takes a node out; an iterator that stands on it moves on to the next node. */
    method RemoveNode(cur: Link, next: Link, ghost j: nat)
      requires Valid() && j < |it.items| && cur == it.items[j] && next == After([head] + it.items, j + 1)
      modifies `nextNode, `it, `log, `known, it.items, head
      ensures Valid() && nextNode != cur
      ensures it.items == old(it.items[..j] + it.items[j + 1..])
      ensures it.at == old(it.at) - if j < old(it.at) then 1 else 0
      ensures it == old(Apply(it, Remove(it.items[j]))) && log == Then(old(log), Remove(cur))
      ensures forall k | 0 <= k < |it.items| :: it.items[k] in old(it.items)
    {
      RingDistinct();
      ghost var e := AfterRemove(head, it, j);
      Unlink(cur, next, j, e);
      log := Then(log, Step.Remove(cur));
    }

    /** Whether the list is empty now. */
    method IsEmpty() returns (empty: bool)
      requires Mirrors()
      ensures empty == (it.items == [])
    {
      assert Joined([head] + it.items, 0);
      empty := head.next == head;
    }

    /** An iterator that stands where the walk ended goes on to the next node of the walk. */
    method FollowWalk(cur: Link, next: Link)
      requires Valid() && (nextNode == cur ==> cur == head && next == After([head] + it.items, 0))
      modifies `nextNode, `it, `log, `known
      ensures Valid()
      ensures it == if old(nextNode) == cur then Iter(old(it).items, 0) else old(it)
      ensures log == if old(nextNode) == cur then Reset(old(it).items) else old(log)
    {
      RingDistinct();
      if nextNode == cur {
        nextNode := next;
        it, log, known := Iter(it.items, 0), Reset(it.items), set x | x in it.items;
      }
    }

    /**
     * Removes the first node with the given data. If there is none, an iterator at the end is
     * put back on the first node.
     */
    method RemoveByData(data: nat) returns (found: Option<nat>, empty: bool, ghost j: nat)
      requires Valid()
      modifies `nextNode, `it, `log, `known, it.items, head
      ensures Valid() && empty == (it.items == []) && forall k | 0 <= k < |it.items| :: it.items[k] in old(it.items)
      ensures j <= |old(it.items)| && (forall k | 0 <= k < j :: old(it.items[k]).data != data)
      ensures j < |old(it.items)| ==>
        && found == Some(data) && old(it.items)[j].data == data
        && it.items == old(it.items)[..j] + old(it.items)[j + 1..]
        && it.at == old(it.at) - (if j < old(it.at) then 1 else 0)
        && it == Apply(old(it), Remove(old(it.items)[j])) && log == Then(old(log), Remove(old(it.items)[j]))
      ensures j == |old(it.items)| ==>
        && found == None && it == Missed(old(it)) && it.items == old(it.items)
        && it.at == (if old(it.at) == j then 0 else old(it.at))
        && log == (if old(it.at) == j then Reset(old(it.items)) else old(log))
    {
      var cur, next;
      cur, next, j := Search(d => d == data);
      found := None;
      RingDistinct();
      if cur != head {
        found := Some(cur.data);
        RemoveNode(cur, next, j);
      }
      empty := IsEmpty();
      FollowWalk(cur, next);
    }

    /** Removes the first node whose data passes the check. */
    method RemoveByCheck(check: nat -> bool) returns (found: Option<nat>, empty: bool, ghost j: nat)
      requires Valid()
      modifies `nextNode, `it, `log, `known, it.items, head
      ensures Valid() && empty == (it.items == []) && forall k | 0 <= k < |it.items| :: it.items[k] in old(it.items)
      ensures j <= |old(it.items)| && (forall k | 0 <= k < j :: !check(old(it.items[k]).data))
      ensures j < |old(it.items)| ==>
        && found == Some(old(it.items)[j].data) && check(old(it.items)[j].data)
        && it.items == old(it.items)[..j] + old(it.items)[j + 1..]
        && it.at == old(it.at) - (if j < old(it.at) then 1 else 0)
        && it == Apply(old(it), Remove(old(it.items)[j])) && log == Then(old(log), Remove(old(it.items)[j]))
      ensures j == |old(it.items)| ==> found == None && it == old(it) && log == old(log)
    {
      var cur, next;
      cur, next, j := Search(check);
      found := None;
      RingDistinct();
      if cur != head {
        found := Some(cur.data);
        RemoveNode(cur, next, j);
      }
      empty := IsEmpty();
    }

    /** Removes the first node. */
    method RemoveHead() returns (found: Option<nat>, empty: bool)
      requires Valid()
      modifies `nextNode, `it, `log, `known, it.items, head
      ensures Valid() && empty == (it.items == []) && forall k | 0 <= k < |it.items| :: it.items[k] in old(it.items)
      ensures old(it.items) == [] ==> found == None && it == old(it) && log == old(log)
      ensures old(it.items) != [] ==>
        && found == Some(old(it.items)[0].data) && it.items == old(it.items)[1..]
        && it.at == old(it.at) - (if old(it.at) > 0 then 1 else 0)
        && it == Apply(old(it), Remove(old(it.items)[0])) && log == Then(old(log), Remove(old(it.items)[0]))
    {
      ghost var r := [head] + it.items;
      found := None;
      RingDistinct();
      assert Joined(r, 0);
      var cur := head.next;
      if cur != head {
        assert Joined(r, 1);
        found := Some(cur.data);
        RemoveNode(cur, cur.next, 0);
      }
      empty := IsEmpty();
    }
  }
}
