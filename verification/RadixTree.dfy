// The mutable radix tree: nodes in the heap, an allocator with a pool of
// free nodes, and the insert, lookup and delete operations.
module RadixTrees {
  import opened Words
  import opened RadixKeys
  import opened RadixShape
  import opened RadixNeeds
  import opened TreeLeaves

  const ENOMEM := 12

  /** A step of the path that deletion records on its way down. */
  datatype PathEntry = PathEntry(node: Node?, offset: nat)

  /** Entry `j` of a deletion path is the node of level `height - j + 1` and the digit taken there. */
  ghost predicate OnPath(t: Shape, index: Key, j: int, e: PathEntry) {
    var l := t.height - j + 1;
    && 1 <= j <= t.height < MAX_PATH && Pos(l, Prefix(index, l)) in t.cells
    && e.node == t.cells[Pos(l, Prefix(index, l))].node
    && e.offset == Prefix(index, l - 1) % MAP_SIZE
  }

  /** The first `n` entries after the null sentinel are on the path. */
  ghost predicate PathHolds(t: Shape, index: Key, n: nat, ps: seq<PathEntry>) {
    && |ps| == MAX_PATH && n < MAX_PATH && ps[0].node == null
    && forall j {:trigger OnPath(t, index, j, ps[j])} | 1 <= j <= n :: OnPath(t, index, j, ps[j])
  }

  /** Clearing a slot leaves the path. */
  lemma PathCleared(t: Shape, index: Key, l: nat, ps: seq<PathEntry>)
    requires CellsOk(t) && IsSlot(t, l, Prefix(index, l)) && l < t.height
    requires PathHolds(t, index, t.height - l, ps)
    ensures PathHolds(Cleared(t, index, l), index, t.height - l, ps)
  {
    forall j | 1 <= j <= t.height - l ensures OnPath(Cleared(t, index, l), index, j, ps[j]) {
      assert OnPath(t, index, j, ps[j]);
    }
  }

  /** Freeing one node leaves the path above it. */
  lemma PathDropped(t: Shape, index: Key, l: nat, ps: seq<PathEntry>)
    requires 1 <= l <= t.height && PathHolds(t, index, t.height - l + 1, ps)
    ensures PathHolds(Drop(t, Pos(l, Prefix(index, l))), index, t.height - l, ps)
  {
    forall j | 1 <= j <= t.height - l ensures OnPath(Drop(t, Pos(l, Prefix(index, l))), index, j, ps[j]) {
      assert OnPath(t, index, j, ps[j]);
    }
  }

  ghost predicate Opens(x: int) {
    x == 0
  }

  /** What linking a new node on the way to a key does. */
  lemma LinkFacts(t: Shape, m: Index, k: Key, h: nat, n: Node)
    requires Linked(t, m) && 1 <= h <= t.height
    requires Pos(h, Prefix(k, h)) !in t.cells && IsSlot(t, h, Prefix(k, h))
    ensures var q := Pos(h, Prefix(k, h));
      && LinkedBut(AddBlank(t, q, n), m, h, Prefix(k, h))
      && var u := Link(t, q, n);
      && u.height == t.height && u.root != Null && u.cells.Keys == t.cells.Keys + {q}
      && |u.cells.Keys| == |t.cells.Keys| + 1 && IsSlot(u, h, Prefix(k, h)) && u.cells[q].node == n
      && (forall r | r in t.cells :: u.cells[r].node == t.cells[r].node)
      && (Filling(t, k, h) ==> Filling(u, k, h - 1))
  {
    var q := Pos(h, Prefix(k, h));
    LinkLinked(t, m, q, n);
    RootAbove(Link(t, q, n), m, q);
    if Filling(t, k, h) {
      LinkFilling(t, m, k, h, n);
    }
  }

  /** What a new root does. */
  lemma GrowFacts(t: Shape, m: Index, n: Node)
    requires Linked(t, m) && t.root != Null && t.height < MAX_HEIGHT
    ensures var u := Grow(t, n);
      && Linked(u, m) && Pos(u.height, 0) !in t.cells && u.cells.Keys == t.cells.Keys + {Pos(u.height, 0)}
      && |u.cells.Keys| == |t.cells.Keys| + 1 && (NoneEmpty(t) ==> NoneEmpty(u))
  {
    GrowLinked(t, m, n);
  }

  /** What taking the root away does. */
  lemma CollapseFacts(t: Shape, m: Index)
    requires Linked(t, m) && Collapsible(t)
    ensures var top, u := Pos(t.height, 0), Collapse(t);
      && Linked(u, m) && u.height == t.height - 1 && u.cells == t.cells - {top} && u.root != Null
      && |u.cells.Keys| == |t.cells.Keys| - 1
      && top in t.cells && t.root == Child(t.cells[top].node) && |t.cells[top].slots| == MAP_SIZE
      && t.cells[top].slots[0] == u.root && t.cells[top].slots[0 := Null] == Blank()
  {
    CollapseLinked(t, m);
    assert CellOk(t, Pos(t.height, 0));
    CollapsedIsBlank(t.cells[Pos(t.height, 0)].slots);
    assert Collapse(t).cells.Keys == t.cells.Keys - {Pos(t.height, 0)};
  }

  class RadixTree {
    var height: nat
    var rnode: Slot
    /** Free nodes of the node cache, and the driver's count of allocated ones. */
    var pool: set<Node>
    var nodeCount: int
    /** How many more nodes the kernel has memory for, until an allocation fails. */
    var memory: nat

    /** The stored map, and the linked nodes by position. */
    ghost var m: Index
    ghost var cells: map<Pos, Cell>
    ghost var Repr: set<Node>

    ghost function Tree(): Shape
      reads `height, `rnode, `cells
    {
      Shape(height, rnode, cells)
    }

    /** The ghost cells mirror the heap; pooled nodes are blank and not linked. */
    ghost predicate Coherent()
      reads `cells, `pool, `Repr, Repr
    {
      && FREE !in cells
      && (forall q {:trigger cells[q]} | q in cells ::
            && cells[q].node in Repr
            && cells[q].node.at == q
            && cells[q].node.count == cells[q].count
            && cells[q].node.slots == cells[q].slots)
      && pool <= Repr
      && (forall n | n in pool :: n.at == FREE && n.count == 0 && n.slots == Blank())
    }

    ghost predicate Valid()
      reads this, Repr
    {
      Coherent() && Linked(Tree(), m)
    }

    /** `Valid`, kept closed for methods that only pass it on. */
    ghost predicate Sealed()
      reads this, Repr
    {
      forall x {:trigger Opens(x)} :: Opens(x) ==> Valid()
    }

    lemma Open()
      ensures Sealed() <==> Valid()
    {
      assert Opens(0);
    }

    /** The scan relies on a root node whenever the height is not 0. */
    ghost predicate Rooted()
      reads `height, `rnode
    {
      height > 0 ==> rnode != Null
    }

    /** A tree that stores anything has a root, also after a failed insertion; an empty tidy one has none. */
    lemma StoredMeansRoot()
      requires Sealed()
      ensures m != map[] ==> rnode != Null && Rooted()
      ensures m == map[] && Tidy(Tree()) ==> rnode == Null && height == 0
    {
      Open();
      if rnode == Null {
        NullRootEmpty(Tree(), m);
      }
      if m == map[] && Tidy(Tree()) {
        HeightIsLeast(Tree(), m);
      }
    }

    constructor (memory: nat)
      ensures Valid() && Tidy(Tree()) && fresh(Repr) && this.memory == memory
      ensures m == map[] && nodeCount == 0 && |cells.Keys| == 0 && height == 0 && rnode == Null
    {
      height, rnode, pool, nodeCount, this.memory := 0, Null, {}, 0, memory;
      m, cells, Repr := map[], map[], {};
    }

    /** Between two calls the allocator may get more memory, or lose some. */
    method MemoryChanges(memory: nat)
      requires Valid()
      modifies `memory
      ensures Valid() && this.memory == memory
    {
      this.memory := memory;
    }

    /** Takes a blank node, or fails without memory; the count goes up either way. */
    method Alloc() returns (n: Node?)
      requires Coherent()
      modifies `pool, `nodeCount, `memory, `Repr
      ensures Coherent()
      ensures nodeCount == old(nodeCount) + 1
      ensures Repr >= old(Repr) && fresh(Repr - old(Repr))
      ensures (n == null <==> old(memory) == 0) && memory == old(memory) - if n == null then 0 else 1
      ensures n == null ==> Repr == old(Repr) && pool == old(pool)
      ensures n != null ==>
        && n in Repr && n !in pool
        && n.at == FREE && n.count == 0 && n.slots == Blank()
    {
      nodeCount := nodeCount + 1;
      n := null;
      if memory > 0 {
        memory := memory - 1;
        if pool != {} {
          n :| n in pool;
          pool := pool - {n};
        } else {
          n := new Node();
          Repr := Repr + {n};
        }
      }
    }

    /** Returns a blank node to the pool. */
    method Free(n: Node)
      requires n in Repr && n.count == 0 && n.slots == Blank()
      requires Coherent() && (forall q | q in cells :: cells[q].node != n)
      modifies `pool, `nodeCount, n`at
      ensures Coherent() && pool == old(pool) + {n}
      ensures nodeCount == old(nodeCount) - 1
    {
      nodeCount := nodeCount - 1;
      n.at := FREE;
      pool := pool + {n};
    }

    /** Overwrites one slot of a linked node and keeps its occupancy count. */
    method StoreInNode(node: Node, offset: nat, s: Slot, ghost q: Pos)
      requires Coherent() && q in cells && node == cells[q].node
      requires offset < |node.slots| && cells[q].count == |Occupied(cells[q].slots)|
      requires s == Null ==> node.slots[offset] != Null
      modifies `cells, node`count, node`slots
      ensures Coherent() && cells == old(cells[q := WriteCell(cells[q], offset, s)])
    {
      WriteCellCount(cells[q], offset, s);
      ghost var w := WriteCell(cells[q], offset, s);
      if s == Null {
        node.count := node.count - 1;
      } else if node.slots[offset] == Null {
        node.count := node.count + 1;
      }
      node.slots := node.slots[offset := s];
      cells := cells[q := w];
    }

    /** Stores `s` in the slot of position `(l, p)`, through the parent node or the root pointer. */
    method Store(node: Node?, offset: nat, s: Slot, ghost l: nat, ghost p: nat)
      requires Coherent() && CellsOk(Tree()) && IsSlot(Tree(), l, p)
      requires node == null <==> l == height
      requires node != null ==> node == cells[Pos(l + 1, p / MAP_SIZE)].node && offset == p % MAP_SIZE
      requires node != null && s == Null ==>
        offset < |node.slots| && node.slots[offset] != Null
      modifies `rnode, `cells, (if node == null then {} else {node})`count, (if node == null then {} else {node})`slots
      ensures Coherent() && Tree() == old(Write(Tree(), l, p, s))
    {
      if node != null {
        ghost var q := Pos(l + 1, p / MAP_SIZE);
        assert CellOk(Tree(), q);
        StoreInNode(node, offset, s, q);
      } else {
        rnode := s;
      }
    }

    /** Puts a new root above the present one. */
    method AddRoot(node: Node)
      requires Coherent() && Pos(height + 1, 0) !in cells
      requires node in Repr && node !in pool && node.at == FREE
      requires node.count == 0 && node.slots == Blank()
      modifies `height, `rnode, `cells, node
      ensures Coherent() && Tree() == old(Grow(Tree(), node))
    {
      ghost var t := Grow(Tree(), node);
      node.at := Pos(height + 1, 0);
      node.slots := node.slots[0 := rnode];
      node.count := 1;
      rnode := Child(node);
      height := height + 1;
      cells := t.cells;
    }

    /** A blank node, or failure without memory; the tree does not notice. */
    method NewNode() returns (n: Node?)
      requires Sealed()
      modifies `pool, `nodeCount, `memory, `Repr
      ensures Sealed() && nodeCount == old(nodeCount) + 1
      ensures Repr >= old(Repr) && fresh(Repr - old(Repr))
      ensures (n == null <==> old(memory) == 0) && memory == old(memory) - if n == null then 0 else 1
      ensures n != null ==> n in Repr && n !in pool && n.at == FREE && n.count == 0 && n.slots == Blank()
    {
      Open();
      n := Alloc();
      Open();
    }

    /** The new node becomes the root. */
    method PutRoot(node: Node)
      requires Sealed() && rnode != Null && height < MAX_HEIGHT
      requires node in Repr && node !in pool && node.at == FREE
      requires node.count == 0 && node.slots == Blank()
      modifies `height, `rnode, `cells, node
      ensures Sealed() && rnode != Null && height == old(height) + 1
      ensures cells.Keys == old(cells.Keys) + {Pos(height, 0)} && |cells.Keys| == old(|cells.Keys|) + 1
      ensures old(NoneEmpty(Tree())) ==> NoneEmpty(Tree())
    {
      Open();
      GrowFacts(Tree(), m, node);
      AddRoot(node);
      Open();
    }

    /** One round of the growing loop: allocates a node and makes it the root. */
    method GrowOnce() returns (error: int)
      requires Sealed() && rnode != Null && height < MAX_HEIGHT
      modifies this, Repr
      ensures Sealed() && m == old(m) && fresh(Repr - old(Repr)) && old(Repr) <= Repr && rnode != Null
      ensures error == if old(memory) == 0 then -ENOMEM else 0
      ensures error == 0 ==>
        && memory == old(memory) - 1 && nodeCount == old(nodeCount) + 1 && |cells.Keys| == old(|cells.Keys|) + 1
        && height == old(height) + 1 && cells.Keys == old(cells.Keys) + {Pos(height, 0)}
        && (old(NoneEmpty(Tree())) ==> NoneEmpty(Tree()))
      ensures error != 0 ==> memory == 0 && nodeCount == old(nodeCount) + 1 && cells == old(cells)
    {
      var node := NewNode();
      if node == null {
        return -ENOMEM;
      }
      PutRoot(node);
      return 0;
    }

    /** The growing loop, for a key that fits the wanted height and none below. */
    method GrowTo(target: nat, ghost index: Key) returns (error: int)
      requires Sealed() && rnode != Null && height < target <= MAX_HEIGHT
      requires Prefix(index, target) == 0 && Prefix(index, target - 1) != 0
      modifies this, Repr
      ensures Sealed() && m == old(m) && fresh(Repr - old(Repr)) && old(Repr) <= Repr && rnode != Null
      ensures error == if old(memory) < target - old(height) then -ENOMEM else 0
      ensures error == 0 ==>
        && height == target && (old(NoneEmpty(Tree())) ==> NoneEmpty(Tree()))
        && memory == old(memory) - (target - old(height)) && Missing(cells, index, target) == target - 1
      ensures error != 0 ==> memory == 0
      ensures nodeCount - |cells.Keys| == old(nodeCount - |cells.Keys|) + if error == 0 then 0 else 1
    {
      OwnWay(index, target);
      while height < target
        invariant Sealed() && m == old(m) && rnode != Null
        invariant fresh(Repr - old(Repr)) && old(Repr) <= Repr
        invariant old(height) <= height <= target && memory + height == old(memory + height)
        invariant forall k {:trigger Prefix(index, k)} | 1 <= k < target ::
                    Prefix(index, k) != 0 && Pos(k, Prefix(index, k)) !in cells
        invariant height > old(height) ==> Pos(height, 0) in cells
        invariant old(NoneEmpty(Tree())) ==> NoneEmpty(Tree())
        invariant nodeCount - |cells.Keys| == old(nodeCount - |cells.Keys|)
      {
        error := GrowOnce();
        if error != 0 {
          return;
        }
      }
      AllMissing(cells, index, target - 1);
      return 0;
    }

    /** None of the nodes on the way to a key that does not fit is there. */
    lemma OwnWay(index: Key, target: nat)
      requires Sealed() && height < target && Prefix(index, target - 1) != 0
      ensures forall k {:trigger Prefix(index, k)} | 1 <= k < target ::
                Prefix(index, k) != 0 && Pos(k, Prefix(index, k)) !in cells
    {
      Open();
      NoWay(Tree(), m, index, target - 1);
      forall k {:trigger Prefix(index, k)} | 1 <= k < target ensures Prefix(index, k) != 0 {
        if Prefix(index, k) == 0 {
          PrefixZeroAbove(index, k, target - 1);
        }
      }
    }

    /** The least height above the present one that `index` fits. */
    method HeightFor(index: Key) returns (target: nat)
      requires index > MaxIndex(height)
      ensures height < target <= MAX_HEIGHT && target == HeightNeeded(index, height)
      ensures Prefix(index, target) == 0 && Prefix(index, target - 1) != 0
    {
      FitsIffNoPrefix(index, height);
      TallestHoldsAll(index);
      target := height + 1;
      while index > MaxIndex(target)
        invariant height < target <= MAX_HEIGHT
        invariant Prefix(index, target - 1) != 0
        decreases MAX_HEIGHT - target
      {
        FitsIffNoPrefix(index, target);
        target := target + 1;
      }
      FitsIffNoPrefix(index, target);
      HeightIs(index, height, target);
    }

    /** An empty tree just takes the height. */
    method Raise(target: nat, ghost index: Key)
      requires Sealed() && rnode == Null && height < target <= MAX_HEIGHT
      modifies `height
      ensures Sealed() && height == target && Missing(cells, index, target) == target
    {
      Open();
      RaiseEmpty(Tree(), m, target);
      NullRootEmpty(Tree(), m);
      AllMissing(cells, index, target);
      height := target;
      Open();
    }

    /** Raises the tree until `index` fits. */
    method Extend(index: Key) returns (error: int)
      requires Sealed() && index > MaxIndex(height)
      modifies this, Repr
      ensures Sealed() && m == old(m) && fresh(Repr - old(Repr)) && old(Repr) <= Repr
      ensures (rnode == Null <==> old(rnode) == Null) && (rnode == Null ==> error == 0 && memory == old(memory))
      ensures error == 0 || error == -ENOMEM
      ensures error == 0 ==>
        && Prefix(index, height) == 0 && height > 0 && Prefix(index, height - 1) != 0
        && (old(NoneEmpty(Tree())) ==> NoneEmpty(Tree()))
        && memory - Missing(cells, index, height) == old(memory - NodesNeeded(Tree(), index))
      ensures error != 0 ==> memory == 0 && old(memory < NodesNeeded(Tree(), index))
      ensures nodeCount - |cells.Keys| == old(nodeCount - |cells.Keys|) + if error == 0 then 0 else 1
    {
      var target := HeightFor(index);
      if rnode == Null {
        Raise(target, index);
        return 0;
      }
      error := GrowTo(target, index);
    }

    /** Links a blank node at an empty position. */
    method LinkNode(node: Node?, offset: nat, child: Node, ghost q: Pos)
      requires Coherent() && Linked(Tree(), m)
      requires q !in cells && q.level > 0 && IsSlot(Tree(), q.level, q.prefix)
      requires node == null <==> q.level == height
      requires node != null ==>
        node == cells[Pos(q.level + 1, q.prefix / MAP_SIZE)].node && offset == q.prefix % MAP_SIZE
      requires child in Repr && child !in pool && child.at == FREE
      requires child.count == 0 && child.slots == Blank()
      modifies `rnode, `cells, child`at, (if node == null then {} else {node})
      ensures Coherent() && LinkedBut(AddBlank(old(Tree()), q, child), m, q.level, q.prefix)
      ensures Tree() == Link(old(Tree()), q, child) && Linked(Tree(), m)
    {
      LinkLinked(Tree(), m, q, child);
      child.at := q;
      cells := AddBlank(Tree(), q, child).cells;
      Store(node, offset, Child(child), q.level, q.prefix);
    }

    /** Where a descent towards `index` stands when `h` levels remain. */
    ghost predicate At(index: Key, h: nat, node: Node?, offset: nat, slot: Slot)
      reads this
    {
      && h <= height && IsSlot(Tree(), h, Prefix(index, h))
      && slot == Expect(cells, m, h, Prefix(index, h))
      && (node == null <==> h == height)
      && (node != null ==>
            && node in Repr && node == cells[Pos(h + 1, Prefix(index, h + 1))].node
            && offset == Prefix(index, h) % MAP_SIZE)
    }

    /** Goes a level down from the node `node` of a descent. */
    method Down(index: Key, ghost h: nat, shift: nat, node: Node) returns (offset: nat, slot: Slot)
      requires Sealed() && 1 <= h <= height && shift == (h - 1) * MAP_SHIFT
      requires Child(node) == Expect(cells, m, h, Prefix(index, h))
      ensures At(index, h - 1, node, offset, slot)
      ensures offset < |node.slots| && slot == node.slots[offset]
    {
      Open();
      StepDown(Tree(), m, index, h);
      ShrIsPrefix(index, h - 1);
      offset := Shr(index, shift) % MAP_SIZE;
      slot := node.slots[offset];
    }

    /** Links a new node in front of a descent. */
    method AttachChild(index: Key, ghost h: nat, node: Node?, offset: nat, child: Node)
      requires Sealed() && At(index, h, node, offset, Null) && h > 0
      requires child in Repr && child !in pool && child.at == FREE
      requires child.count == 0 && child.slots == Blank()
      modifies `rnode, `cells, child`at, (if node == null then {} else {node})
      ensures Sealed() && At(index, h, node, offset, Child(child)) && rnode != Null
      ensures cells.Keys == old(cells.Keys) + {Pos(h, Prefix(index, h))} && |cells.Keys| == old(|cells.Keys|) + 1
      ensures old(Filling(Tree(), index, h)) ==> Filling(Tree(), index, h - 1)
    {
      Open();
      LinkFacts(Tree(), m, index, h, child);
      LinkNode(node, offset, child, Pos(h, Prefix(index, h)));
      Open();
    }

    /** Allocates the missing node in front of a descent and links it. */
    method AddChild(index: Key, ghost h: nat, node: Node?, offset: nat) returns (child: Node?)
      requires Sealed() && At(index, h, node, offset, Null) && h > 0
      modifies this, Repr
      ensures Sealed() && m == old(m) && height == old(height) && fresh(Repr - old(Repr)) && old(Repr) <= Repr
      ensures nodeCount == old(nodeCount) + 1 && (child == null <==> old(memory) == 0)
      ensures child == null ==>
        && memory == 0 && cells == old(cells) && rnode == old(rnode) && old(Missing(cells, index, h)) > 0
      ensures child != null ==>
        && |cells.Keys| == old(|cells.Keys|) + 1 && rnode != Null
        && memory - Missing(cells, index, h - 1) == old(memory - Missing(cells, index, h))
        && At(index, h, node, offset, Child(child))
        && (old(Filling(Tree(), index, h)) ==> Filling(Tree(), index, h - 1))
    {
      child := NewNode();
      if child != null {
        ghost var before := cells;
        AttachChild(index, h, node, offset, child);
        NodeAdded(before, cells, index, h);
      }
    }

    /** One round of insertion's loop: adds the node if it is missing and goes a level down. */
    method Descend(index: Key, ghost h: nat, shift: nat, above: Node?, above_offset: nat, here: Slot)
      returns (node: Node?, offset: nat, slot: Slot)
      requires Sealed() && At(index, h, above, above_offset, here) && h > 0 && shift == (h - 1) * MAP_SHIFT
      modifies this, Repr
      ensures Sealed() && m == old(m) && height == old(height) && fresh(Repr - old(Repr)) && old(Repr) <= Repr
      ensures (rnode == Null <==> old(rnode) == Null && node == null) && (node == null ==> here == Null)
      ensures here == Null ==> (node == null <==> old(memory) == 0)
      ensures node == null ==>
        && memory == 0 && old(memory < Missing(cells, index, h))
        && nodeCount - |cells.Keys| == old(nodeCount - |cells.Keys|) + 1
      ensures node != null ==>
        && memory - Missing(cells, index, h - 1) == old(memory - Missing(cells, index, h))
        && nodeCount - |cells.Keys| == old(nodeCount - |cells.Keys|)
        && At(index, h - 1, node, offset, slot)
        && (old(Filling(Tree(), index, h)) ==> Filling(Tree(), index, h - 1))
    {
      node, offset, slot := null, 0, Null;
      if here == Null {
        node := AddChild(index, h, above, above_offset);
        if node == null {
          return;
        }
      } else {
        Passing(index, h, above, above_offset, here);
        node := here.node;
      }
      offset, slot := Down(index, h, shift, node);
    }

    /** Going past a node that is there. */
    lemma Passing(index: Key, h: nat, above: Node?, offset: nat, here: Slot)
      requires Sealed() && At(index, h, above, offset, here) && h > 0 && here != Null
      ensures here.Child? && here == Expect(cells, m, h, Prefix(index, h)) && rnode != Null
      ensures Missing(cells, index, h) == Missing(cells, index, h - 1)
      ensures Filling(Tree(), index, h) ==> Filling(Tree(), index, h - 1)
    {
      Open();
      RootAbove(Tree(), m, Pos(h, Prefix(index, h)));
      if Filling(Tree(), index, h) {
        PassFilling(Tree(), m, index, h);
      }
    }

    /** Puts the item into the slot of its key, at the end of the descent. */
    method StoreItem(index: Key, item: TreeLeaf, node: Node?, offset: nat, slot: Slot)
      requires Sealed() && At(index, 0, node, offset, slot)
      modifies `rnode, `cells, `m, (if node == null then {} else {node})
      ensures Sealed() && m == old(m)[index := item] && cells.Keys == old(cells.Keys)
      ensures slot == if index in old(m) then Item(old(m)[index]) else Null
      ensures height > 0 ==> rnode == old(rnode)
      ensures old(Filling(Tree(), index, 0)) ==> Tidy(Tree())
    {
      Open();
      StoreItemOk(Tree(), m, index, item);
      Store(node, offset, Item(item), 0, index);
      m := m[index := item];
      Open();
    }

    /** The descent of insertion, adding the nodes that are missing. */
    method MakePath(index: Key) returns (error: int, node: Node?, offset: nat, slot: Slot)
      requires Sealed() && Prefix(index, height) == 0
      modifies this, Repr
      ensures Sealed() && m == old(m) && height == old(height) && fresh(Repr - old(Repr)) && old(Repr) <= Repr
      ensures error == if old(memory < Missing(cells, index, height)) then -ENOMEM else 0
      ensures error == 0 ==> memory == old(memory - Missing(cells, index, height))
      ensures error != 0 ==> memory == 0
      ensures Rooted() <==> old(Rooted()) || old(memory) > 0
      ensures error == 0 ==>
        && At(index, 0, node, offset, slot)
        && (old(Filling(Tree(), index, height)) ==> Filling(Tree(), index, 0))
      ensures nodeCount - |cells.Keys| == old(nodeCount - |cells.Keys|) + if error == 0 then 0 else 1
    {
      error, node, offset, slot := 0, null, 0, rnode;
      StartsAtRoot(index);
      var h: nat, shift := height, (height - 1) * MAP_SHIFT;
      while h > 0
        invariant Sealed() && m == old(m) && height == old(height) && fresh(Repr - old(Repr)) && old(Repr) <= Repr
        invariant At(index, h, node, offset, slot) && shift == (h - 1) * MAP_SHIFT
        invariant h <= height && memory - Missing(cells, index, h) == old(memory - Missing(cells, index, height))
        invariant rnode == Null <==> old(rnode) == Null && h == height
        invariant h == height ==> slot == rnode && memory == old(memory)
        invariant h < height && old(rnode) == Null ==> old(memory) > 0
        invariant old(Filling(Tree(), index, height)) ==> Filling(Tree(), index, h)
        invariant nodeCount - |cells.Keys| == old(nodeCount - |cells.Keys|)
      {
        node, offset, slot := Descend(index, h, shift, node, offset, slot);
        if node == null {
          return -ENOMEM, null, 0, Null;
        }
        shift, h := shift - MAP_SHIFT, h - 1;
      }
    }

    lemma StartsAtRoot(index: Key)
      requires Sealed() && Prefix(index, height) == 0
      ensures At(index, height, null, 0, rnode)
    {
      Open();
    }

    /** Insertion into a tree that is high enough. */
    method Place(index: Key, item: TreeLeaf) returns (error: int, replaced: TreeLeaf?)
      requires Sealed() && Prefix(index, height) == 0
      modifies this, Repr
      ensures Sealed() && height == old(height) && fresh(Repr - old(Repr)) && old(Repr) <= Repr
      ensures error == if old(memory < Missing(cells, index, height)) then -ENOMEM else 0
      ensures error == 0 ==> memory == old(memory - Missing(cells, index, height))
      ensures error != 0 ==> memory == 0 && m == old(m) && replaced == null
      ensures Rooted() <==> old(Rooted()) || old(memory) > 0
      ensures error == 0 ==>
        && m == old(m)[index := item]
        && replaced == (if index in old(m) then old(m)[index] else null)
        && (old(Filling(Tree(), index, height)) ==> Tidy(Tree()))
      ensures nodeCount - |cells.Keys| == old(nodeCount - |cells.Keys|) + if error == 0 then 0 else 1
    {
      var node, offset, slot;
      error, node, offset, slot := MakePath(index);
      replaced := null;
      if error == 0 {
        StoreItem(index, item, node, offset, slot);
        if slot != Null {
          replaced := slot.leaf;
        }
      }
    }

    /** Makes the tree high enough for a key. */
    method MakeFit(index: Key) returns (error: int)
      requires Sealed()
      modifies this, Repr
      ensures Sealed() && m == old(m) && fresh(Repr - old(Repr)) && old(Repr) <= Repr
      ensures error == 0 || error == -ENOMEM
      ensures (rnode == Null <==> old(rnode) == Null) && (rnode == Null ==> error == 0 && memory == old(memory))
      ensures rnode == Null ==> (height == 0 <==> old(height) == 0 && index == 0)
      ensures error == 0 ==>
        && Prefix(index, height) == 0
        && memory - Missing(cells, index, height) == old(memory - NodesNeeded(Tree(), index))
        && (old(Tidy(Tree())) ==> Filling(Tree(), index, height))
      ensures error != 0 ==> memory == 0 && old(memory < NodesNeeded(Tree(), index))
      ensures nodeCount - |cells.Keys| == old(nodeCount - |cells.Keys|) + if error == 0 then 0 else 1
    {
      FitsIffNoPrefix(index, height);
      error := 0;
      if index > MaxIndex(height) {
        error := Extend(index);
      }
    }

    /**
     * Insertion. It fails exactly when the memory does not suffice for the nodes that it needs, and
     * then the stored map is what it was; otherwise it changes one key and reports the item that was
     * there. A failure leaves the count of nodes one too high; and when it is the first node of an
     * empty tree that cannot be had, it leaves a height without a root.
     */
    method Insert(index: Key, item: TreeLeaf) returns (error: int, replaced: TreeLeaf?)
      requires Valid()
      modifies this, Repr
      ensures Valid() && fresh(Repr - old(Repr)) && old(Repr) <= Repr
      ensures error == if old(memory < NodesNeeded(Tree(), index)) then -ENOMEM else 0
      ensures memory == if error == 0 then old(memory - NodesNeeded(Tree(), index)) else 0
      ensures error != 0 ==> m == old(m) && replaced == null
      ensures error == 0 ==>
        && m == old(m)[index := item]
        && replaced == (if index in old(m) then old(m)[index] else null)
        && (old(Tidy(Tree())) ==> Tidy(Tree()))
      ensures Rooted() <==> old(rnode) != Null || old(memory) > 0 || (old(height) == 0 && index == 0)
      ensures nodeCount - |cells.Keys| == old(nodeCount - |cells.Keys|) + if error == 0 then 0 else 1
    {
      Open();
      error := MakeFit(index);
      replaced := null;
      if error == 0 {
        error, replaced := Place(index, item);
      }
      Open();
    }

    /** Lookup finds exactly what the map holds. */
    method Lookup(index: Key) returns (item: TreeLeaf?)
      requires Valid()
      ensures item == if index in m then m[index] else null
    {
      FitsIffNoPrefix(index, height);
      if index in m {
        KeyFits(Tree(), m, index);
      }
      if index > MaxIndex(height) {
        return null;
      }
      var slot, h: nat, shift := rnode, height, (height - 1) * MAP_SHIFT;
      var node: Node?, offset: nat := null, 0;
      while h > 0
        invariant shift == (h - 1) * MAP_SHIFT && At(index, h, node, offset, slot)
      {
        if slot == Null {
          NullMeansAbsent(Tree(), m, index, h);
          return null;
        }
        node := slot.node;
        offset, slot := Down(index, h, shift, node);
        shift, h := shift - MAP_SHIFT, h - 1;
      }
      item := if slot == Null then null else slot.leaf;
    }

    /** The child in slot 0 becomes the root, and the old root goes to the pool. */
    method PopRoot(ghost u: Shape)
      requires Coherent() && height > 0 && Pos(height, 0) in cells && rnode == Child(cells[Pos(height, 0)].node)
      requires |cells[Pos(height, 0)].slots| == MAP_SIZE && cells[Pos(height, 0)].slots[0 := Null] == Blank()
      requires u == Shape(height - 1, cells[Pos(height, 0)].slots[0], cells - {Pos(height, 0)})
      modifies `height, `rnode, `cells, `pool, `nodeCount, rnode.node
      ensures Coherent() && Tree() == u && pool == old(pool) + {old(rnode).node}
      ensures nodeCount == old(nodeCount) - 1
    {
      var node := rnode.node;
      rnode := node.slots[0];
      height := height - 1;
      cells := u.cells;
      node.slots := node.slots[0 := Null];
      node.count := 0;
      Free(node);
    }

    /** One round of the shrinking loop: the root's only child becomes the root. */
    method DropRoot()
      requires Valid() && Collapsible(Tree())
      modifies `height, `rnode, `cells, `pool, `nodeCount, rnode.node
      ensures Valid()
      ensures Tree() == old(Collapse(Tree())) && rnode != Null
      ensures pool == old(pool) + {old(rnode).node}
      ensures nodeCount - |cells.Keys| == old(nodeCount - |cells.Keys|)
    {
      CollapseFacts(Tree(), m);
      PopRoot(Collapse(Tree()));
    }

    /** Lowers the tree to the least height that holds its keys. */
    method Shrink()
      requires Valid() && Rooted()
      modifies `height, `rnode, `cells, `pool, `nodeCount, Repr
      ensures Valid() && Rooted()
      ensures old(NoneEmpty(Tree())) ==> Tidy(Tree())
      ensures nodeCount - |cells.Keys| == old(nodeCount - |cells.Keys|)
    {
      assert height > 0 ==> CellOk(Tree(), Pos(height, 0));
      while height > 0 && rnode.node.count == 1 && rnode.node.slots[0] != Null
        invariant Valid()
        invariant height > 0 ==> rnode != Null && CellOk(Tree(), Pos(height, 0))
        invariant old(NoneEmpty(Tree())) ==> NoneEmpty(Tree())
        invariant nodeCount - |cells.Keys| == old(nodeCount - |cells.Keys|)
        decreases height
      {
        DropRoot();
        assert height > 0 ==> CellOk(Tree(), Pos(height, 0));
      }
      if NoneEmpty(Tree()) {
        UncollapsibleMinimal(Tree(), m);
      }
    }

    /** The descent of deletion; `path` holds the nodes passed, above a null sentinel. */
    method FindPath(index: Key) returns (path: array<PathEntry>, pathp: nat, slot: Slot)
      requires Sealed() && Prefix(index, height) == 0
      ensures path.Length == MAX_PATH && fresh(path)
      ensures slot == Null ==> index !in m
      ensures slot != Null ==>
        && index in m && slot == Item(m[index])
        && pathp == height && PathHolds(Tree(), index, height, path[..])
    {
      Open();
      path := new PathEntry[MAX_PATH](_ => PathEntry(null, 0));
      pathp, slot := 0, rnode;
      var h: nat, shift := height, (height - 1) * MAP_SHIFT;
      while h > 0
        invariant h + pathp == height && shift == (h - 1) * MAP_SHIFT
        invariant IsSlot(Tree(), h, Prefix(index, h))
        invariant slot == Expect(cells, m, h, Prefix(index, h))
        invariant PathHolds(Tree(), index, pathp, path[..])
      {
        if slot == Null {
          NullMeansAbsent(Tree(), m, index, h);
          return;
        }
        StepDown(Tree(), m, index, h);
        ShrIsPrefix(index, h - 1);
        pathp := pathp + 1;
        var offset := Shr(index, shift) % MAP_SIZE;
        path[pathp] := PathEntry(slot.node, offset);
        slot := slot.node.slots[offset];
        shift, h := shift - MAP_SHIFT, h - 1;
      }
    }

    /** What a deletion on its way up keeps, kept closed for methods that only pass it on. */
    ghost predicate Freeing(index: Key, l: nat)
      reads this, Repr
    {
      forall x {:trigger Opens(x)} :: Opens(x) ==> Coherent() && Stale(Tree(), m, index, l)
    }

    lemma OpenFreeing(index: Key, l: nat)
      ensures Freeing(index, l) <==> Coherent() && Stale(Tree(), m, index, l)
    {
      assert Opens(0);
    }

    /** Clears the stale slot of a deletion. */
    method ClearEntry(index: Key, ghost l: nat, node: Node, offset: nat, ghost ps: seq<PathEntry>)
      requires Freeing(index, l) && l < height && PathHolds(Tree(), index, height - l, ps)
      requires Pos(l + 1, Prefix(index, l + 1)) in cells && node == cells[Pos(l + 1, Prefix(index, l + 1))].node
      requires offset == Prefix(index, l) % MAP_SIZE
      modifies `cells, node`count, node`slots
      ensures Sealed() && cells.Keys == old(cells.Keys) && PathHolds(Tree(), index, height - l, ps)
      ensures node == cells[Pos(l + 1, Prefix(index, l + 1))].node
      ensures old(NoneEmpty(Tree())) ==> NoneEmptyBut(Tree(), {Pos(l + 1, Prefix(index, l + 1))})
      ensures old(NoneEmpty(Tree()) && Minimal(Tree())) && l + 1 < height ==> Minimal(Tree())
    {
      OpenFreeing(index, l);
      ClearOk(Tree(), m, index, l);
      PathCleared(Tree(), index, l, ps);
      assert CellOk(Tree(), Pos(l + 1, Prefix(index, l + 1)));
      StoreInNode(node, offset, Null, Pos(l + 1, Prefix(index, l + 1)));
      Open();
    }

    /** Unlinks and frees a blank node. */
    method Unlink(node: Node, ghost p: Pos)
      requires Coherent() && p in cells && node == cells[p].node && node.count == 0 && node.slots == Blank()
      modifies `cells, `pool, `nodeCount, node`at
      ensures Coherent() && pool == old(pool) + {node} && Tree() == Drop(old(Tree()), p)
      ensures nodeCount - |cells.Keys| == old(nodeCount - |cells.Keys|)
    {
      cells := cells - {p};
      Free(node);
    }

    /** Unlinks and frees a node that has lost its last entry. */
    method FreeEmpty(index: Key, ghost l: nat, node: Node, ghost ps: seq<PathEntry>)
      requires Sealed() && 1 <= l <= height && PathHolds(Tree(), index, height - l + 1, ps)
      requires Pos(l, Prefix(index, l)) in cells && node == cells[Pos(l, Prefix(index, l))].node && node.count == 0
      modifies `cells, `pool, `nodeCount, node`at
      ensures Freeing(index, l) && pool == old(pool) + {node} && PathHolds(Tree(), index, height - l, ps)
      ensures nodeCount - |cells.Keys| == old(nodeCount - |cells.Keys|)
      ensures old(NoneEmptyBut(Tree(), {Pos(l, Prefix(index, l))})) ==> NoneEmpty(Tree())
      ensures old(Minimal(Tree())) && l < height ==> Minimal(Tree())
    {
      Open();
      DropTidy(Tree(), m, index, l);
      PathDropped(Tree(), index, l, ps);
      Unlink(node, Pos(l, Prefix(index, l)));
      OpenFreeing(index, l);
    }

    /** The freeing loop stops below a node that keeps an entry; a root shrinks. */
    method StopFreeing(index: Key, ghost l: nat, node: Node)
      requires Sealed() && Pos(l, Prefix(index, l)) in cells && node == cells[Pos(l, Prefix(index, l))].node
      requires node.count != 0
      modifies `height, `rnode, `cells, `pool, `nodeCount, Repr
      ensures Sealed() && Rooted()
      ensures old(NoneEmptyBut(Tree(), {Pos(l, Prefix(index, l))}) && (l < height ==> Minimal(Tree()))) ==> Tidy(Tree())
      ensures nodeCount - |cells.Keys| == old(nodeCount - |cells.Keys|)
    {
      Open();
      assert CellOk(Tree(), Pos(l, Prefix(index, l)));
      RootAbove(Tree(), m, Pos(l, Prefix(index, l)));
      if rnode == Child(node) {
        Shrink();
      }
      Open();
    }

    /** The entry of the path that the freeing loop has come to. */
    lemma EntryAt(index: Key, l: nat, pathp: nat, ps: seq<PathEntry>)
      requires l + pathp == height && PathHolds(Tree(), index, pathp, ps)
      ensures ps[pathp].node == null <==> pathp == 0
      ensures pathp > 0 ==>
        && Pos(l + 1, Prefix(index, l + 1)) in cells
        && ps[pathp] == PathEntry(cells[Pos(l + 1, Prefix(index, l + 1))].node, Prefix(index, l) % MAP_SIZE)
    {
      assert pathp > 0 ==> OnPath(Tree(), index, pathp, ps[pathp]);
    }

    /** One round of the freeing loop; `more` when the node was freed and the loop goes on above it. */
    method FreeRound(index: Key, ghost l: nat, node: Node, offset: nat, ghost ps: seq<PathEntry>) returns (more: bool)
      requires Freeing(index, l) && l < height && PathHolds(Tree(), index, height - l, ps)
      requires ps[height - l] == PathEntry(node, offset)
      modifies `height, `rnode, `cells, `pool, `nodeCount, Repr
      ensures nodeCount - |cells.Keys| == old(nodeCount - |cells.Keys|)
      ensures !more ==> Sealed() && Rooted() && (old(Tidy(Tree())) ==> Tidy(Tree()))
      ensures more ==>
        && Freeing(index, l + 1) && height == old(height) && PathHolds(Tree(), index, height - l - 1, ps)
        && (old(Tidy(Tree())) ==> NoneEmpty(Tree()) && (l + 1 < height ==> Minimal(Tree())))
    {
      EntryAt(index, l, height - l, ps);
      assert node in Repr by {
        OpenFreeing(index, l);
      }
      ClearEntry(index, l, node, offset, ps);
      more := node.count == 0;
      if more {
        FreeEmpty(index, l + 1, node, ps);
      } else {
        StopFreeing(index, l + 1, node);
      }
    }

    ghost predicate RisingStep(index: Key, l: nat, pathp: nat, ps: seq<PathEntry>, tidy: bool, spare: int)
      reads this, Repr
    {
      && l + pathp == height && Freeing(index, l) && PathHolds(Tree(), index, pathp, ps)
      && nodeCount - |cells.Keys| == spare && (tidy ==> NoneEmpty(Tree()) && (l < height ==> Minimal(Tree())))
    }

    /** Where the freeing loop stands; said without unfolding it. */
    ghost predicate Rising(index: Key, pathp: nat, ps: seq<PathEntry>, tidy: bool, spare: int)
      reads this, Repr
    {
      forall l: nat {:trigger RisingStep(index, l, pathp, ps, tidy, spare)} | l + pathp == height ::
        RisingStep(index, l, pathp, ps, tidy, spare)
    }

    lemma RisingIs(index: Key, l: nat, pathp: nat, ps: seq<PathEntry>, tidy: bool, spare: int)
      requires l + pathp == height
      ensures Rising(index, pathp, ps, tidy, spare) <==>
        && Freeing(index, l) && PathHolds(Tree(), index, pathp, ps)
        && nodeCount - |cells.Keys| == spare && (tidy ==> NoneEmpty(Tree()) && (l < height ==> Minimal(Tree())))
    {
      assert Rising(index, pathp, ps, tidy, spare) <==> RisingStep(index, l, pathp, ps, tidy, spare);
    }

    /** The entry that the loop has come to. */
    lemma RisingEntry(index: Key, pathp: nat, ps: seq<PathEntry>, tidy: bool, spare: int)
      requires pathp <= height && Rising(index, pathp, ps, tidy, spare)
      ensures pathp < |ps| && (ps[pathp].node == null <==> pathp == 0)
    {
      RisingIs(index, height - pathp, pathp, ps, tidy, spare);
      EntryAt(index, height - pathp, pathp, ps);
    }

    /** A round of the loop. */
    method FreeNext(index: Key, node: Node, offset: nat, ghost pathp: nat, ghost ps: seq<PathEntry>, ghost tidy: bool,
                    ghost spare: int)
      returns (more: bool)
      requires 0 < pathp <= height && Rising(index, pathp, ps, tidy, spare)
      requires pathp < |ps| && ps[pathp] == PathEntry(node, offset)
      modifies `height, `rnode, `cells, `pool, `nodeCount, Repr
      ensures if more then pathp <= height && Rising(index, pathp - 1, ps, tidy, spare)
              else Sealed() && Rooted() && (tidy ==> Tidy(Tree())) && nodeCount - |cells.Keys| == spare
    {
      ghost var l := height - pathp;
      RisingIs(index, l, pathp, ps, tidy, spare);
      more := FreeRound(index, l, node, offset, ps);
      if more {
        RisingIs(index, l + 1, pathp - 1, ps, tidy, spare);
      }
    }

    /** The freeing loop: clears slots upwards along the path until a node keeps an entry. */
    method FreeUp(path: array<PathEntry>, index: Key, ghost tidy: bool, ghost spare: int) returns (all: bool)
      requires path.Length == MAX_PATH && Rising(index, height, path[..], tidy, spare)
      modifies `height, `rnode, `cells, `pool, `nodeCount, Repr
      ensures if all then Freeing(index, height) && nodeCount - |cells.Keys| == spare
              else Sealed() && Rooted() && (tidy ==> Tidy(Tree())) && nodeCount - |cells.Keys| == spare
    {
      var pathp := height;
      ghost var ps := path[..];
      RisingEntry(index, pathp, ps, tidy, spare);
      while path[pathp].node != null
        invariant 0 <= pathp <= height && pathp < |ps| && path[..] == ps && (path[pathp].node == null <==> pathp == 0)
        invariant Rising(index, pathp, ps, tidy, spare)
        decreases pathp
      {
        var more := FreeNext(index, path[pathp].node, path[pathp].offset, pathp, ps, tidy, spare);
        if !more {
          return false;
        }
        pathp := pathp - 1;
        RisingEntry(index, pathp, ps, tidy, spare);
      }
      RisingIs(index, height, 0, ps, tidy, spare);
      return true;
    }

    /** The map loses the key; the tree is to follow. */
    method Forget(ghost index: Key)
      requires Sealed() && index in m && Prefix(index, height) == 0
      modifies `m
      ensures Freeing(index, 0) && m == old(m) - {index}
    {
      Open();
      ItemStale(Tree(), m, index);
      m := m - {index};
      OpenFreeing(index, 0);
    }

    /** Takes the key out of the map and frees what it no longer needs. */
    method FreePath(path: array<PathEntry>, index: Key)
      requires Sealed() && index in m && Prefix(index, height) == 0
      requires path.Length == MAX_PATH && PathHolds(Tree(), index, height, path[..])
      modifies `height, `rnode, `cells, `pool, `nodeCount, `m, Repr
      ensures Sealed() && Rooted() && m == old(m) - {index}
      ensures old(Tidy(Tree())) ==> Tidy(Tree())
      ensures nodeCount - |cells.Keys| == old(nodeCount - |cells.Keys|)
    {
      Forget(index);
      ghost var tidy, spare := Tidy(Tree()), nodeCount - |cells.Keys|;
      RisingIs(index, 0, height, path[..], tidy, spare);
      var all := FreeUp(path, index, tidy, spare);
      if all {
        Empty(index);
      }
    }

    /** The last node is gone: the tree is empty. */
    method Empty(ghost index: Key)
      requires Freeing(index, height)
      modifies `height, `rnode
      ensures Sealed() && Rooted() && Tidy(Tree())
    {
      OpenFreeing(index, height);
      NothingLeft(Tree(), m);
      height := 0;
      rnode := Null;
      Open();
    }

    /** Takes the only key out of a tree without nodes. */
    method DeleteFlat(ghost index: Key) returns (item: TreeLeaf?)
      requires Valid() && height == 0 && rnode != Null && index == 0
      modifies `height, `rnode, `m
      ensures Valid() && Rooted() && Tidy(Tree()) && cells == old(cells)
      ensures index in old(m) && item == old(m)[index] && m == old(m) - {index}
    {
      Open();
      item := rnode.leaf;
      assert index in m && rnode == Item(m[index]);
      Forget(index);
      Empty(index);
      Open();
    }

    /** A key that does not fit is not stored. */
    lemma TooLarge(index: Key)
      requires Valid()
      ensures index > MaxIndex(height) <==> Prefix(index, height) != 0
      ensures Prefix(index, height) != 0 ==> index !in m
    {
      FitsIffNoPrefix(index, height);
      if index in m {
        KeyFits(Tree(), m, index);
      }
    }

    /**
     * Deletion removes one key, returns its item or null, and leaves every freed node blank
     * in the pool.
     */
    method Delete(index: Key) returns (item: TreeLeaf?)
      requires Valid()
      modifies this, Repr
      ensures Valid() && Repr == old(Repr) && memory == old(memory) && (old(Rooted()) ==> Rooted())
      ensures item == if index in old(m) then old(m)[index] else null
      ensures m == old(m) - {index}
      ensures old(Tidy(Tree())) ==> Tidy(Tree())
      ensures nodeCount - |cells.Keys| == old(nodeCount - |cells.Keys|)
    {
      TooLarge(index);
      if index > MaxIndex(height) {
        item := null;
      } else if height == 0 && rnode != Null {
        item := DeleteFlat(index);
      } else {
        Open();
        item := Remove(index);
        Open();
      }
    }

    /** Deletion of a key that fits the tree. */
    method Remove(index: Key) returns (item: TreeLeaf?)
      requires Sealed() && Prefix(index, height) == 0
      modifies this, Repr
      ensures Sealed() && Repr == old(Repr) && memory == old(memory) && (old(Rooted()) ==> Rooted())
      ensures item == if index in old(m) then old(m)[index] else null
      ensures m == old(m) - {index}
      ensures old(Tidy(Tree())) ==> Tidy(Tree())
      ensures nodeCount - |cells.Keys| == old(nodeCount - |cells.Keys|)
    {
      var path, pathp, slot := FindPath(index);
      if slot == Null {
        return null;
      }
      item := slot.leaf;
      FreePath(path, index);
    }
  }

  /**
   * A preload of as many nodes as a path is long does not keep an insertion from failing: with key 0
   * stored, the last key needs more.
   */
  method PreloadNotEnough(item: TreeLeaf) returns (first: int, second: int)
    ensures first == 0 && second == -ENOMEM
  {
    var tree := new RadixTree(MAX_PATH);
    var replaced;
    first, replaced := tree.Insert(0, item);
    MostReached(item);
    NeededIsGrowth(tree.Tree(), map[0 := item], ULONG_LIMIT - 1);
    NeededIsGrowth(Shape(0, Item(item), map[]), map[0 := item], ULONG_LIMIT - 1);
    second, replaced := tree.Insert(ULONG_LIMIT - 1, item);
  }
}
