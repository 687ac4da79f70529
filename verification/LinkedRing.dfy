// Circular doubly linked lists: the links are embedded in the elements, and the list head is
// itself a link of the ring.
module LinkedRings {

  /** A link; `data` is what the element it is embedded in carries (unused in a head). */
  class Link {
    var prev: Link?
    var next: Link?
    const data: nat

    /** An element that is not in any list yet. */
    constructor (data: nat)
      ensures this.data == data && prev == null && next == null
    {
      this.data, prev, next := data, null, null;
    }

    /** The head of an empty list. */
    constructor Head()
      ensures Ring([this])
    {
      data := 0;
      new;
      prev, next := this, this;
    }
  }

  ghost predicate Distinct(r: seq<Link>) {
    forall i, j | 0 <= i < j < |r| :: r[i] != r[j]
  }

  /** The link behind position `i` of a ring. */
  ghost function After(r: seq<Link>, i: nat): Link
    requires i < |r|
  {
    if i == |r| - 1 then r[0] else r[i + 1]
  }

  /** Position `i` and the one behind it point at each other. */
  ghost predicate Joined(r: seq<Link>, i: nat)
    reads r
  {
    i < |r| && r[i].next == After(r, i) && After(r, i).prev == r[i]
  }

  /** The links `r` form a ring, in this order; `r[0]` is the head. */
  ghost predicate Ring(r: seq<Link>)
    reads r
  {
    r != [] && Distinct(r) && forall i: nat {:trigger Joined(r, i)} | i < |r| :: Joined(r, i)
  }

  /** What the elements of a ring carry, from the first after the head on. */
  ghost function Data(r: seq<Link>): seq<nat>
    requires r != []
  {
    seq(|r| - 1, i requires 0 <= i < |r| - 1 => r[i + 1].data)
  }

  ghost function Insert(r: seq<Link>, i: nat, x: Link): seq<Link>
    requires i < |r|
  {
    r[..i + 1] + [x] + r[i + 1..]
  }

  ghost function Remove(r: seq<Link>, i: nat): seq<Link>
    requires i < |r|
  {
    r[..i] + r[i + 1..]
  }

  lemma InsertFacts(r: seq<Link>, i: nat, x: Link)
    requires Distinct(r) && i < |r| && x !in r
    ensures var s := Insert(r, i, x);
      && |s| == |r| + 1 && Distinct(s) && s[i + 1] == x
      && (forall k | 0 <= k <= i :: s[k] == r[k])
      && (forall k | i < k < |r| :: s[k + 1] == r[k])
  {
  }

  lemma RemoveFacts(r: seq<Link>, i: nat)
    requires Distinct(r) && i < |r|
    ensures var s := Remove(r, i);
      && |s| == |r| - 1 && Distinct(s) && r[i] !in s
      && (forall k | 0 <= k < i :: s[k] == r[k])
      && (forall k | i < k < |r| :: s[k - 1] == r[k])
  {
  }

  /** `list_add(x, pos)`: puts a link behind another. */
  method ListAdd(x: Link, pos: Link, ghost r: seq<Link>, ghost i: nat)
    requires Ring(r) && i < |r| && r[i] == pos && x !in r
    modifies x, r
    ensures Ring(Insert(r, i, x))
  {
    assert Joined(r, i);
    var next := pos.next;
    next.prev := x;
    x.next := next;
    x.prev := pos;
    pos.next := x;
    InsertFacts(r, i, x);
    ghost var s := Insert(r, i, x);
    forall k: nat | k < |s| ensures Joined(s, k) {
      assert old(Joined(r, if k <= i then k else k - 1));
    }
  }

  /** `list_del(x)`: takes a link out; its own pointers are poisoned. */
  method ListDel(x: Link, ghost r: seq<Link>, ghost i: nat)
    requires Ring(r) && 0 < i < |r| && r[i] == x
    modifies r
    ensures Ring(Remove(r, i))
  {
    assert Joined(r, i) && Joined(r, i - 1);
    var prev, next := x.prev, x.next;
    next.prev := prev;
    prev.next := next;
    x.next, x.prev := null, null;
    RemoveFacts(r, i);
    ghost var s := Remove(r, i);
    forall k: nat | k < |s| ensures Joined(s, k) {
      assert old(Joined(r, k)) && old(Joined(r, k + 1));
    }
  }
}
