// The radix tree as a value: which node sits where, and what makes the
// linked nodes an index of a key-to-item map.
module RadixShape {
  import opened RadixKeys
  import opened TreeLeaves

  /** A place in the tree: the node at `level` that covers the keys with this prefix. */
  datatype Pos = Pos(level: nat, prefix: nat)

  /** What a `void *` slot holds. */
  datatype Slot = Null | Child(node: Node) | Item(leaf: TreeLeaf)

  /** A tree node; its slot buffer is part of the node itself. */
  class Node {
    var count: nat
    var slots: seq<Slot>
    /** Where the node is linked; level 0 while it is not. */
    ghost var at: Pos

    constructor ()
      ensures count == 0 && slots == Blank() && at == FREE
    {
      count, slots, at := 0, Blank(), FREE;
    }
  }

  const FREE := Pos(0, 0)

  function Blank(): (s: seq<Slot>)
    ensures |s| == MAP_SIZE && forall i | 0 <= i < MAP_SIZE :: s[i] == Null
  {
    seq(MAP_SIZE, _ => Null)
  }

  datatype Cell = Cell(node: Node, count: nat, slots: seq<Slot>)
  datatype Shape = Shape(height: nat, root: Slot, cells: map<Pos, Cell>)
  type Index = map<Key, TreeLeaf>

  ghost function Occupied(s: seq<Slot>): set<int> {
    set i | 0 <= i < |s| && s[i] != Null
  }

  /** The slot content that the position demands: a node, an item (at level 0), or nothing. */
  ghost function Expect(cells: map<Pos, Cell>, m: Index, l: nat, p: nat): Slot {
    if l == 0 then
      (if p in m then Item(m[p]) else Null)
    else if Pos(l, p) in cells then Child(cells[Pos(l, p)].node) else Null
  }

  ghost predicate CellOk(t: Shape, q: Pos) {
    && q in t.cells
    && 1 <= q.level <= t.height
    && |t.cells[q].slots| == MAP_SIZE
    && t.cells[q].count == |Occupied(t.cells[q].slots)|
    && (q.level == t.height ==> q.prefix == 0)
  }

  ghost predicate HasParent(t: Shape, q: Pos) {
    q.level < t.height ==> Pos(q.level + 1, q.prefix / MAP_SIZE) in t.cells
  }

  ghost predicate Agrees(t: Shape, m: Index, q: Pos, i: int) {
    && q in t.cells && q.level > 0 && 0 <= i < |t.cells[q].slots|
    && t.cells[q].slots[i] == Expect(t.cells, m, q.level - 1, q.prefix * MAP_SIZE + i)
  }

  ghost predicate KeyOk(t: Shape, k: Key) {
    if t.height == 0 then k == 0 else Pos(1, k / MAP_SIZE) in t.cells
  }

  ghost predicate CellsOk(t: Shape) {
    forall q {:trigger CellOk(t, q)} | q in t.cells :: CellOk(t, q)
  }

  ghost predicate ParentsOk(t: Shape) {
    forall q {:trigger HasParent(t, q)} | q in t.cells :: HasParent(t, q)
  }

  ghost predicate SlotsOk(t: Shape, m: Index) {
    forall q, i {:trigger Agrees(t, m, q, i)} | q in t.cells && 0 <= i < MAP_SIZE :: Agrees(t, m, q, i)
  }

  ghost predicate KeysOk(t: Shape, m: Index) {
    forall k {:trigger KeyOk(t, k)} | k in m :: KeyOk(t, k)
  }

  /** The nodes are a tree of the given height whose items are exactly the map `m`. */
  ghost predicate Linked(t: Shape, m: Index) {
    && t.height <= MAX_HEIGHT
    && CellsOk(t) && ParentsOk(t) && SlotsOk(t, m) && KeysOk(t, m)
    && t.root == Expect(t.cells, m, t.height, 0)
  }

  /** No linked node is empty. */
  ghost predicate NoneEmpty(t: Shape) {
    forall q {:trigger t.cells[q]} | q in t.cells :: t.cells[q].count > 0
  }

  /** The root has an entry beyond slot 0, so no lower height would do. */
  ghost predicate Minimal(t: Shape) {
    t.height > 0 ==>
      && Pos(t.height, 0) in t.cells
      && exists i {:trigger t.cells[Pos(t.height, 0)].slots[i]} ::
        1 <= i < |t.cells[Pos(t.height, 0)].slots| && t.cells[Pos(t.height, 0)].slots[i] != Null
  }

  /** The shape every successful operation keeps. */
  ghost predicate Tidy(t: Shape) {
    NoneEmpty(t) && Minimal(t)
  }

  lemma OccupiedUpdate(s: seq<Slot>, i: nat, x: Slot)
    requires i < |s|
    ensures x != Null ==> Occupied(s[i := x]) == Occupied(s) + {i}
    ensures x == Null ==> Occupied(s[i := x]) == Occupied(s) - {i}
    ensures |Occupied(s[i := x])| == |Occupied(s)|
      + (if x != Null then 1 else 0) - (if s[i] != Null then 1 else 0)
  {
  }

  lemma OccupiedZero(s: seq<Slot>)
    ensures |Occupied(s)| == 0 <==> forall i | 0 <= i < |s| :: s[i] == Null
  {
    if i :| 0 <= i < |s| && s[i] != Null {
      assert i in Occupied(s);
    } else {
      assert Occupied(s) == {};
    }
  }

  /** A stored key has a node at every level of the tree, and no digit above the root. */
  lemma {:induction false} KeyPath(t: Shape, m: Index, k: Key, l: nat)
    requires Linked(t, m) && k in m && 1 <= l <= t.height
    ensures Pos(l, Prefix(k, l)) in t.cells
  {
    if l == 1 {
      assert KeyOk(t, k);
    } else {
      KeyPath(t, m, k, l - 1);
      assert HasParent(t, Pos(l - 1, Prefix(k, l - 1)));
    }
  }

  lemma KeyFits(t: Shape, m: Index, k: Key)
    requires Linked(t, m) && k in m
    ensures Prefix(k, t.height) == 0
  {
    if t.height == 0 {
      assert KeyOk(t, k);
    } else {
      KeyPath(t, m, k, t.height);
      assert CellOk(t, Pos(t.height, Prefix(k, t.height)));
    }
  }

  /** A position without a node has no key below it. */
  lemma NullMeansAbsent(t: Shape, m: Index, k: Key, l: nat)
    requires Linked(t, m) && l <= t.height
    requires Expect(t.cells, m, l, Prefix(k, l)) == Null
    ensures k !in m
  {
    if k in m && l > 0 {
      KeyPath(t, m, k, l);
    }
  }

  /** Every node has all its ancestors. */
  lemma {:induction false} RootAbove(t: Shape, m: Index, q: Pos)
    requires Linked(t, m) && q in t.cells
    ensures Pos(t.height, 0) in t.cells
    decreases t.height - q.level
  {
    assert CellOk(t, q);
    if q.level < t.height {
      assert HasParent(t, q);
      RootAbove(t, m, Pos(q.level + 1, q.prefix / MAP_SIZE));
    }
  }

  /** A tree without a root node has no node and no key. */
  lemma NullRootEmpty(t: Shape, m: Index)
    requires Linked(t, m) && t.root == Null
    ensures t.cells == map[] && m == map[]
  {
    forall q | q in t.cells ensures false {
      assert CellOk(t, q);
      RootAbove(t, m, q);
    }
    forall k | k in m ensures false {
      KeyFits(t, m, k);
      NullMeansAbsent(t, m, k, t.height);
    }
  }

  // ---- growing at the top ----

  ghost function Grow(t: Shape, n: Node): Shape {
    Shape(t.height + 1, Child(n),
          t.cells[Pos(t.height + 1, 0) := Cell(n, 1, Blank()[0 := t.root])])
  }

  lemma GrowCells(t: Shape, m: Index, n: Node)
    requires Linked(t, m) && t.root != Null
    ensures Pos(t.height + 1, 0) !in t.cells
    ensures CellsOk(Grow(t, n)) && ParentsOk(Grow(t, n)) && KeysOk(Grow(t, n), m)
  {
    var top := Pos(t.height + 1, 0);
    var u := Grow(t, n);
    OccupiedZero(Blank());
    OccupiedUpdate(Blank(), 0, t.root);
    assert top in t.cells ==> CellOk(t, top);
    forall q | q in u.cells ensures CellOk(u, q) && HasParent(u, q) {
      if q != top {
        assert CellOk(t, q) && HasParent(t, q);
      }
    }
    forall k | k in m ensures KeyOk(u, k) {
      assert KeyOk(t, k);
    }
  }

  lemma GrowTop(t: Shape, m: Index, n: Node, i: int)
    requires Linked(t, m) && t.root != Null && 0 <= i < MAP_SIZE
    ensures Blank()[0 := t.root][i] == Expect(Grow(t, n).cells, m, t.height, i)
  {
    if i > 0 {
      assert Pos(t.height, i) in t.cells ==> CellOk(t, Pos(t.height, i));
      if t.height == 0 && i in m {
        assert KeyOk(t, i);
      }
    }
  }

  lemma GrowLinked(t: Shape, m: Index, n: Node)
    requires Linked(t, m) && t.root != Null && t.height < MAX_HEIGHT
    ensures Linked(Grow(t, n), m)
    ensures Pos(t.height + 1, 0) !in t.cells
  {
    var u := Grow(t, n);
    GrowCells(t, m, n);
    forall q, i | q in u.cells && 0 <= i < MAP_SIZE ensures Agrees(u, m, q, i) {
      if q == Pos(t.height + 1, 0) {
        GrowTop(t, m, n, i);
      } else {
        assert CellOk(t, q) && Agrees(t, m, q, i);
      }
    }
  }

  /** An empty tree may be given any height. */
  lemma RaiseEmpty(t: Shape, m: Index, h: nat)
    requires Linked(t, m) && t.root == Null && h <= MAX_HEIGHT
    ensures Linked(t.(height := h), m)
  {
    NullRootEmpty(t, m);
  }

  // ---- writing one slot ----

  /** Entry `i` of node `r` is the slot of exactly one position. */
  lemma SlotPosition(r: Pos, i: nat, l: nat, p: nat)
    requires r.level > 0 && i < MAP_SIZE
    ensures (r.level - 1 == l && r.prefix * MAP_SIZE + i == p)
      <==> (r == Pos(l + 1, p / MAP_SIZE) && i == p % MAP_SIZE)
  {
  }

  /** The slot of position `(l, p)`: the root pointer, or entry `p % 64` of the parent node. */
  ghost predicate IsSlot(t: Shape, l: nat, p: nat) {
    if l == t.height then p == 0 else l < t.height && Pos(l + 1, p / MAP_SIZE) in t.cells
  }

  /** Storing `s` there, with the occupancy count kept. */
  ghost function Write(t: Shape, l: nat, p: nat, s: Slot): Shape
    requires CellsOk(t) && IsSlot(t, l, p)
  {
    if l == t.height then t.(root := s)
    else
      var q := Pos(l + 1, p / MAP_SIZE);
      var c := t.cells[q];
      assert CellOk(t, q);
      t.(cells := t.cells[q := WriteCell(c, p % MAP_SIZE, s)])
  }

  ghost function WriteCell(c: Cell, i: nat, s: Slot): Cell
    requires i < |c.slots| && c.count == |Occupied(c.slots)|
  {
    var slots := c.slots[i := s];
    Cell(c.node, |Occupied(slots)|, slots)
  }

  lemma WriteCellCount(c: Cell, i: nat, s: Slot)
    requires i < |c.slots| && c.count == |Occupied(c.slots)|
    requires s == Null ==> c.slots[i] != Null
    ensures s == Null ==> c.count > 0
    ensures WriteCell(c, i, s) == Cell(c.node,
              if s == Null then c.count - 1 else if c.slots[i] == Null then c.count + 1 else c.count,
              c.slots[i := s])
  {
    OccupiedUpdate(c.slots, i, s);
    assert s == Null ==> i in Occupied(c.slots);
  }

  /** Linked, but for whatever the slot of `(l, p)` holds. */
  ghost predicate LinkedBut(t: Shape, m: Index, l: nat, p: nat) {
    && t.height <= MAX_HEIGHT
    && CellsOk(t) && ParentsOk(t) && KeysOk(t, m) && IsSlot(t, l, p)
    && (forall q, i {:trigger Agrees(t, m, q, i)} | q in t.cells && 0 <= i < MAP_SIZE
          && !(q == Pos(l + 1, p / MAP_SIZE) && i == p % MAP_SIZE) :: Agrees(t, m, q, i))
    && (l != t.height ==> t.root == Expect(t.cells, m, t.height, 0))
  }

  lemma WriteExpect(t: Shape, m: Index, l: nat, p: nat, s: Slot, a: nat, b: nat)
    requires CellsOk(t) && IsSlot(t, l, p)
    ensures Expect(Write(t, l, p, s).cells, m, a, b) == Expect(t.cells, m, a, b)
  {
  }

  lemma WriteKeeps(t: Shape, m: Index, l: nat, p: nat, s: Slot)
    requires CellsOk(t) && ParentsOk(t) && KeysOk(t, m) && IsSlot(t, l, p)
    ensures var u := Write(t, l, p, s);
      CellsOk(u) && ParentsOk(u) && KeysOk(u, m) && u.cells.Keys == t.cells.Keys
  {
    var u := Write(t, l, p, s);
    assert u.cells.Keys == t.cells.Keys;
    forall q | q in u.cells ensures CellOk(u, q) && HasParent(u, q) {
      assert CellOk(t, q) && HasParent(t, q);
    }
    forall k | k in m ensures KeyOk(u, k) {
      assert KeyOk(t, k);
    }
  }

  /** Storing what the position demands repairs the one slot. */
  lemma WriteRepairs(t: Shape, m: Index, l: nat, p: nat)
    requires LinkedBut(t, m, l, p)
    ensures Linked(Write(t, l, p, Expect(t.cells, m, l, p)), m)
  {
    var s := Expect(t.cells, m, l, p);
    var u := Write(t, l, p, s);
    WriteKeeps(t, m, l, p, s);
    WriteExpect(t, m, l, p, s, t.height, 0);
    forall q, i | q in u.cells && 0 <= i < MAP_SIZE ensures Agrees(u, m, q, i) {
      assert CellOk(t, q);
      WriteExpect(t, m, l, p, s, q.level - 1, q.prefix * MAP_SIZE + i);
      SlotPosition(q, i, l, p);
      if !(q == Pos(l + 1, p / MAP_SIZE) && i == p % MAP_SIZE) {
        assert Agrees(t, m, q, i);
      }
    }
  }

  // ---- linking a blank node ----

  ghost function AddBlank(t: Shape, q: Pos, n: Node): Shape {
    t.(cells := t.cells[q := Cell(n, 0, Blank())])
  }

  lemma NothingBelow(t: Shape, m: Index, q: Pos, i: nat)
    requires Linked(t, m) && q !in t.cells && 1 <= q.level <= t.height && i < MAP_SIZE
    ensures Expect(t.cells, m, q.level - 1, q.prefix * MAP_SIZE + i) == Null
  {
    var p := q.prefix * MAP_SIZE + i;
    if q.level == 1 {
      assert p in m ==> KeyOk(t, p);
    } else {
      assert Pos(q.level - 1, p) in t.cells ==> HasParent(t, Pos(q.level - 1, p));
    }
  }

  lemma AddBlankAgrees(t: Shape, m: Index, q: Pos, n: Node, r: Pos, i: nat)
    requires Linked(t, m) && q !in t.cells && IsSlot(t, q.level, q.prefix) && q.level > 0
    requires r in AddBlank(t, q, n).cells && i < MAP_SIZE && r.level > 0
    requires !(r == Pos(q.level + 1, q.prefix / MAP_SIZE) && i == q.prefix % MAP_SIZE)
    ensures Agrees(AddBlank(t, q, n), m, r, i)
  {
    if r == q {
      NothingBelow(t, m, q, i);
      assert Pos(q.level - 1, q.prefix * MAP_SIZE + i) != q;
    } else {
      assert CellOk(t, r) && Agrees(t, m, r, i);
      SlotPosition(r, i, q.level, q.prefix);
    }
  }

  lemma AddBlankCells(t: Shape, m: Index, q: Pos, n: Node)
    requires Linked(t, m) && q !in t.cells && IsSlot(t, q.level, q.prefix) && q.level > 0
    ensures var u := AddBlank(t, q, n); CellsOk(u) && ParentsOk(u) && KeysOk(u, m)
  {
    var u := AddBlank(t, q, n);
    OccupiedZero(Blank());
    forall r | r in u.cells ensures CellOk(u, r) && HasParent(u, r) {
      if r != q { assert CellOk(t, r) && HasParent(t, r); }
    }
    forall k | k in m ensures KeyOk(u, k) {
      assert KeyOk(t, k);
    }
  }

  lemma AddBlankOk(t: Shape, m: Index, q: Pos, n: Node)
    requires Linked(t, m) && q !in t.cells && IsSlot(t, q.level, q.prefix) && q.level > 0
    ensures LinkedBut(AddBlank(t, q, n), m, q.level, q.prefix)
  {
    var u := AddBlank(t, q, n);
    AddBlankCells(t, m, q, n);
    forall r, i | r in u.cells && 0 <= i < MAP_SIZE
      && !(r == Pos(q.level + 1, q.prefix / MAP_SIZE) && i == q.prefix % MAP_SIZE)
      ensures Agrees(u, m, r, i)
    {
      assert CellOk(u, r);
      AddBlankAgrees(t, m, q, n, r, i);
    }
  }

  /** Allocating a node for an empty position and storing it in the position's slot. */
  ghost function Link(t: Shape, q: Pos, n: Node): Shape
    requires CellsOk(AddBlank(t, q, n)) && IsSlot(AddBlank(t, q, n), q.level, q.prefix)
  {
    Write(AddBlank(t, q, n), q.level, q.prefix, Child(n))
  }

  lemma LinkLinked(t: Shape, m: Index, q: Pos, n: Node)
    requires Linked(t, m) && q !in t.cells && IsSlot(t, q.level, q.prefix) && q.level > 0
    ensures LinkedBut(AddBlank(t, q, n), m, q.level, q.prefix)
    ensures Linked(Link(t, q, n), m)
  {
    AddBlankOk(t, m, q, n);
    WriteRepairs(AddBlank(t, q, n), m, q.level, q.prefix);
  }

  // ---- storing and removing an item ----

  /** Changing the item of one key leaves only that key's slot to be written. */
  lemma ItemChange(t: Shape, m: Index, k: Key, m': Index)
    requires Linked(t, m) && IsSlot(t, 0, k)
    requires m'.Keys <= m.Keys + {k}
    requires forall j | j != k && j in m :: j in m' && m'[j] == m[j]
    ensures LinkedBut(t, m', 0, k)
  {
    forall j | j in m' ensures KeyOk(t, j) {
      if j != k { assert KeyOk(t, j); }
    }
    forall q, i | q in t.cells && 0 <= i < MAP_SIZE
      && !(q == Pos(1, k / MAP_SIZE) && i == k % MAP_SIZE)
      ensures Agrees(t, m', q, i)
    {
      assert CellOk(t, q) && Agrees(t, m, q, i);
      SlotPosition(q, i, 0, k);
    }
    if t.height != 0 {
      assert t.root == Expect(t.cells, m', t.height, 0);
    }
  }

  // ---- freeing an emptied node ----

  ghost function Drop(t: Shape, q: Pos): Shape {
    t.(cells := t.cells - {q})
  }

  lemma EmptyHasNoChild(t: Shape, m: Index, q: Pos, l: nat, p: nat)
    requires Linked(t, m) && q in t.cells && t.cells[q].count == 0
    requires q == Pos(l + 1, p / MAP_SIZE)
    ensures Expect(t.cells, m, l, p) == Null
  {
    assert CellOk(t, q);
    OccupiedZero(t.cells[q].slots);
    assert Agrees(t, m, q, p % MAP_SIZE);
    assert q.prefix * MAP_SIZE + p % MAP_SIZE == p;
  }

  lemma DropStructure(t: Shape, m: Index, q: Pos)
    requires Linked(t, m) && q in t.cells && t.cells[q].count == 0
    ensures CellsOk(Drop(t, q)) && ParentsOk(Drop(t, q)) && KeysOk(Drop(t, q), m)
  {
    var u := Drop(t, q);
    assert CellOk(t, q);
    forall r | r in u.cells ensures CellOk(u, r) && HasParent(u, r) {
      assert CellOk(t, r) && HasParent(t, r);
      if Pos(r.level + 1, r.prefix / MAP_SIZE) == q {
        EmptyHasNoChild(t, m, q, r.level, r.prefix);
      }
    }
    forall k | k in m ensures KeyOk(u, k) {
      assert KeyOk(t, k);
      if Pos(1, k / MAP_SIZE) == q {
        EmptyHasNoChild(t, m, q, 0, k);
      }
    }
  }

  lemma DropOk(t: Shape, m: Index, q: Pos)
    requires Linked(t, m) && q in t.cells && t.cells[q].count == 0
    ensures LinkedBut(Drop(t, q), m, q.level, q.prefix)
  {
    var u := Drop(t, q);
    assert CellOk(t, q) && HasParent(t, q);
    DropStructure(t, m, q);
    forall r, i | r in u.cells && 0 <= i < MAP_SIZE
      && !(r == Pos(q.level + 1, q.prefix / MAP_SIZE) && i == q.prefix % MAP_SIZE)
      ensures Agrees(u, m, r, i)
    {
      assert CellOk(t, r) && Agrees(t, m, r, i);
      SlotPosition(r, i, q.level, q.prefix);
    }
  }

  // ---- collapsing at the top ----

  ghost function Collapse(t: Shape): Shape
    requires CellsOk(t) && Collapsible(t)
  {
    assert CellOk(t, Pos(t.height, 0));
    Shape(t.height - 1, t.cells[Pos(t.height, 0)].slots[0], t.cells - {Pos(t.height, 0)})
  }

  ghost predicate Collapsible(t: Shape)
    requires CellsOk(t)
  {
    var top := Pos(t.height, 0);
    && t.height > 0 && top in t.cells
    && (assert CellOk(t, top); t.cells[top].count == 1 && t.cells[top].slots[0] != Null)
  }

  lemma OnlySlotZero(s: seq<Slot>, i: nat)
    requires i < |s| && |Occupied(s)| == 1 && s[0] != Null && i > 0
    ensures s[i] == Null
  {
    assert 0 in Occupied(s);
    assert |Occupied(s) - {0}| == 0;
    assert i !in Occupied(s) - {0};
  }

  lemma CollapseTop(t: Shape, m: Index, i: nat)
    requires Linked(t, m) && Collapsible(t) && 0 < i < MAP_SIZE
    ensures Expect(t.cells, m, t.height - 1, i) == Null
  {
    var top := Pos(t.height, 0);
    assert CellOk(t, top) && Agrees(t, m, top, i);
    OnlySlotZero(t.cells[top].slots, i);
  }

  lemma CollapseStructure(t: Shape, m: Index)
    requires Linked(t, m) && Collapsible(t)
    ensures Pos(t.height, 0) in t.cells && CellOk(t, Pos(t.height, 0))
    ensures CellsOk(Collapse(t)) && ParentsOk(Collapse(t)) && KeysOk(Collapse(t), m)
  {
    var top := Pos(t.height, 0);
    assert CellOk(t, top);
    var u := Collapse(t);
    forall q | q in u.cells ensures CellOk(u, q) && HasParent(u, q) {
      assert CellOk(t, q) && HasParent(t, q);
      if q.level == u.height {
        assert HasParent(t, q) && CellOk(t, Pos(t.height, q.prefix / MAP_SIZE));
        if 0 < q.prefix { CollapseTop(t, m, q.prefix); }
      }
    }
    forall k | k in m ensures KeyOk(u, k) {
      assert KeyOk(t, k);
      assert CellOk(t, Pos(1, k / MAP_SIZE));
      if u.height == 0 && 0 < k { CollapseTop(t, m, k); }
    }
  }

  lemma CollapseLinked(t: Shape, m: Index)
    requires Linked(t, m) && Collapsible(t)
    ensures Pos(t.height, 0) in t.cells && CellOk(t, Pos(t.height, 0))
    ensures Linked(Collapse(t), m) && Collapse(t).root != Null
  {
    var top := Pos(t.height, 0);
    CollapseStructure(t, m);
    var u := Collapse(t);
    assert Agrees(t, m, top, 0);
    forall q, i | q in u.cells && 0 <= i < MAP_SIZE ensures Agrees(u, m, q, i) {
      assert CellOk(t, q) && Agrees(t, m, q, i);
    }
  }

  lemma OccupiedWithinZero(s: seq<Slot>)
    requires |s| > 0
    ensures (forall i | 1 <= i < |s| :: s[i] == Null) ==> |Occupied(s)| == if s[0] != Null then 1 else 0
  {
    if forall i | 1 <= i < |s| :: s[i] == Null {
      assert Occupied(s) == if s[0] != Null then {0} else {};
    }
  }

  /** When nothing can be collapsed any more, the height is minimal. */
  lemma UncollapsibleMinimal(t: Shape, m: Index)
    requires Linked(t, m) && NoneEmpty(t) && !Collapsible(t)
    requires t.height > 0 ==> t.root != Null
    ensures Minimal(t)
  {
    var top := Pos(t.height, 0);
    if t.height > 0 {
      assert CellOk(t, top);
      OccupiedWithinZero(t.cells[top].slots);
    }
  }

  // ---- tidiness of the writes ----

  /** Every node has an entry, except possibly those at `ex`. */
  ghost predicate NoneEmptyBut(t: Shape, ex: set<Pos>) {
    forall r {:trigger t.cells[r]} | r in t.cells && r !in ex :: t.cells[r].count > 0
  }

  /** Storing something keeps what was there, and fills the node it is stored in. */
  lemma WriteTidy(t: Shape, l: nat, p: nat, s: Slot, ex: set<Pos>)
    requires CellsOk(t) && IsSlot(t, l, p) && s != Null && NoneEmptyBut(t, ex)
    ensures Minimal(t) ==> Minimal(Write(t, l, p, s))
    ensures NoneEmptyBut(Write(t, l, p, s), ex - {Pos(l + 1, p / MAP_SIZE)})
  {
    var u, q := Write(t, l, p, s), Pos(l + 1, p / MAP_SIZE);
    assert q in t.cells ==> CellOk(t, q);
    if l < t.height {
      assert p % MAP_SIZE in Occupied(u.cells[q].slots);
      if Minimal(t) {
        var top := Pos(t.height, 0);
        var i :| 1 <= i < |t.cells[top].slots| && t.cells[top].slots[i] != Null;
        assert u.cells[top].slots[i] != Null;
      }
    }
  }

  /** A tree that holds a key with a non-zero top digit is no higher than it must be. */
  lemma TopDigitMinimal(t: Shape, m: Index, k: Key)
    requires Linked(t, m) && k in m
    requires t.height > 0 && Prefix(k, t.height - 1) != 0
    ensures Minimal(t)
  {
    var top, d := Pos(t.height, 0), Prefix(k, t.height - 1);
    KeyFits(t, m, k);
    KeyPath(t, m, k, t.height);
    assert CellOk(t, top) && Agrees(t, m, top, d);
    if t.height > 1 { KeyPath(t, m, k, t.height - 1); }
    assert t.cells[top].slots[d] != Null;
  }

  // ---- descending towards a key ----

  /** One level down: the digit of the key selects the slot of the next position. */
  lemma StepDown(t: Shape, m: Index, k: Key, h: nat)
    requires Linked(t, m) && 1 <= h <= t.height && Pos(h, Prefix(k, h)) in t.cells
    ensures IsSlot(t, h - 1, Prefix(k, h - 1))
    ensures CellOk(t, Pos(h, Prefix(k, h)))
    ensures t.cells[Pos(h, Prefix(k, h))].slots[Prefix(k, h - 1) % MAP_SIZE]
      == Expect(t.cells, m, h - 1, Prefix(k, h - 1))
  {
    assert CellOk(t, Pos(h, Prefix(k, h)));
    assert Agrees(t, m, Pos(h, Prefix(k, h)), Prefix(k, h - 1) % MAP_SIZE);
  }

  /** What insertion keeps while only the node at `q`, just linked on the way to `k`, may be empty. */
  ghost predicate Filling(t: Shape, k: Key, h: nat) {
    && NoneEmptyBut(t, {Pos(h + 1, Prefix(k, h + 1))})
    && (Minimal(t) || (t.height > 0 && Prefix(k, t.height - 1) != 0))
  }

  lemma AddBlankMinimal(t: Shape, q: Pos, n: Node)
    requires Minimal(t) && q !in t.cells
    ensures Minimal(AddBlank(t, q, n))
  {
  }

  lemma LinkFilling(t: Shape, m: Index, k: Key, h: nat, n: Node)
    requires Linked(t, m) && Filling(t, k, h) && 1 <= h <= t.height
    requires Pos(h, Prefix(k, h)) !in t.cells && IsSlot(t, h, Prefix(k, h))
    requires LinkedBut(AddBlank(t, Pos(h, Prefix(k, h)), n), m, h, Prefix(k, h))
    ensures Filling(Link(t, Pos(h, Prefix(k, h)), n), k, h - 1)
  {
    var q := Pos(h, Prefix(k, h));
    if Minimal(t) {
      AddBlankMinimal(t, q, n);
    }
    WriteTidy(AddBlank(t, q, n), h, Prefix(k, h), Child(n), {q, Pos(h + 1, Prefix(k, h + 1))});
  }

  /** Once the item is stored, nothing on the way is empty and the height is minimal. */
  lemma StoreTidy(t: Shape, m: Index, k: Key, item: TreeLeaf)
    requires Filling(t, k, 0) && LinkedBut(t, m, 0, k) && k in m && m[k] == item
    ensures Tidy(Write(t, 0, k, Item(item)))
  {
    var u := Write(t, 0, k, Item(item));
    assert Prefix(k, 1) == k / MAP_SIZE;
    WriteTidy(t, 0, k, Item(item), {Pos(1, k / MAP_SIZE)});
    WriteRepairs(t, m, 0, k);
    if !Minimal(t) {
      TopDigitMinimal(u, m, k);
    }
  }

  /** Walking past a node that is already there: its parent is not empty. */
  lemma PassFilling(t: Shape, m: Index, k: Key, h: nat)
    requires Linked(t, m) && Filling(t, k, h) && 1 <= h <= t.height
    requires Pos(h, Prefix(k, h)) in t.cells
    ensures Filling(t, k, h - 1)
  {
    var q := Pos(h + 1, Prefix(k, h + 1));
    assert q in t.cells ==> CellOk(t, q);
    if q in t.cells {
      StepDown(t, m, k, h + 1);
      OccupiedZero(t.cells[q].slots);
    }
  }

  /** Storing an item in the slot of its key makes the tree that of the updated map. */
  lemma StoreItemOk(t: Shape, m: Index, k: Key, item: TreeLeaf)
    requires Linked(t, m) && IsSlot(t, 0, k)
    ensures var u := Write(t, 0, k, Item(item));
      && Linked(u, m[k := item]) && u.cells.Keys == t.cells.Keys
      && (Filling(t, k, 0) ==> Tidy(u))
  {
    var m' := m[k := item];
    ItemChange(t, m, k, m');
    WriteRepairs(t, m', 0, k);
    WriteKeeps(t, m', 0, k, Item(item));
    if Filling(t, k, 0) {
      StoreTidy(t, m', k, item);
    }
  }

  // ---- what deletion needs ----

  /** A node whose last entry is gone is blank again. */
  lemma EmptyIsBlank(s: seq<Slot>)
    requires |s| == MAP_SIZE && |Occupied(s)| == 0
    ensures s == Blank()
  {
    OccupiedZero(s);
  }

  /** So is a root that had only slot 0, once that is cleared. */
  lemma CollapsedIsBlank(s: seq<Slot>)
    requires |s| == MAP_SIZE && |Occupied(s)| == 1 && s[0] != Null
    ensures s[0 := Null] == Blank()
  {
    forall i | 0 < i < MAP_SIZE ensures s[i] == Null {
      OnlySlotZero(s, i);
    }
  }

  /** Removing a stored key leaves only its slot stale. */
  lemma ItemGone(t: Shape, m: Index, k: Key)
    requires Linked(t, m) && k in m && IsSlot(t, 0, k)
    ensures LinkedBut(t, m - {k}, 0, k) && Expect(t.cells, m - {k}, 0, k) == Null
  {
    ItemChange(t, m, k, m - {k});
  }

  /** Clearing a stale slot below the root can empty only the node it is in. */
  lemma ClearTidy(t: Shape, l: nat, p: nat)
    requires CellsOk(t) && IsSlot(t, l, p) && l < t.height && NoneEmpty(t)
    ensures NoneEmptyBut(Write(t, l, p, Null), {Pos(l + 1, p / MAP_SIZE)})
    ensures Minimal(t) && l + 1 < t.height ==> Minimal(Write(t, l, p, Null))
  {
  }

  /** Clearing the root pointer of a tree without nodes leaves the empty tree. */
  lemma NothingLeft(t: Shape, m: Index)
    requires LinkedBut(t, m, t.height, 0) && Expect(t.cells, m, t.height, 0) == Null
    ensures t.cells == map[] && m == map[]
    ensures Linked(Shape(0, Null, t.cells), m)
  {
    WriteRepairs(t, m, t.height, 0);
    NullRootEmpty(t.(root := Null), m);
  }

  /** The tree is that of `m`, except that the slot of `k` at level `l` still points to what was removed. */
  ghost predicate Stale(t: Shape, m: Index, k: Key, l: nat) {
    && LinkedBut(t, m, l, Prefix(k, l)) && Expect(t.cells, m, l, Prefix(k, l)) == Null
    && (l < t.height ==>
          var q := Pos(l + 1, Prefix(k, l + 1));
          && q in t.cells && |t.cells[q].slots| == MAP_SIZE
          && t.cells[q].slots[Prefix(k, l) % MAP_SIZE] != Null)
  }

  lemma ItemStale(t: Shape, m: Index, k: Key)
    requires Linked(t, m) && k in m && Prefix(k, t.height) == 0
    ensures Stale(t, m - {k}, k, 0)
  {
    if t.height > 0 {
      KeyPath(t, m, k, 1);
      StepDown(t, m, k, 1);
    }
    ItemGone(t, m, k);
  }

  /** Freeing an emptied node moves the stale slot one level up. */
  lemma DropStale(t: Shape, m: Index, k: Key, l: nat)
    requires Linked(t, m) && Pos(l, Prefix(k, l)) in t.cells && t.cells[Pos(l, Prefix(k, l))].count == 0
    ensures Stale(Drop(t, Pos(l, Prefix(k, l))), m, k, l)
  {
    var q := Pos(l, Prefix(k, l));
    DropOk(t, m, q);
    assert CellOk(t, q) && HasParent(t, q);
    if l < t.height {
      StepDown(t, m, k, l + 1);
    }
  }

  ghost function Cleared(t: Shape, k: Key, l: nat): Shape
    requires CellsOk(t) && IsSlot(t, l, Prefix(k, l))
  {
    Write(t, l, Prefix(k, l), Null)
  }

  /** Clearing the stale slot gives the tree of `m`, in which only the node just touched may be empty. */
  lemma ClearOk(t: Shape, m: Index, k: Key, l: nat)
    requires Stale(t, m, k, l) && l < t.height
    ensures var u, q := Cleared(t, k, l), Pos(l + 1, Prefix(k, l + 1));
      && Linked(u, m) && CellOk(u, q) && u.cells.Keys == t.cells.Keys
      && (NoneEmpty(t) ==> NoneEmptyBut(u, {q}))
      && (NoneEmpty(t) && Minimal(t) && l + 1 < t.height ==> Minimal(u))
  {
    var u, q := Cleared(t, k, l), Pos(l + 1, Prefix(k, l + 1));
    WriteRepairs(t, m, l, Prefix(k, l));
    WriteKeeps(t, m, l, Prefix(k, l), Null);
    if NoneEmpty(t) {
      ClearTidy(t, l, Prefix(k, l));
    }
    assert CellOk(u, q);
  }

  /** If that node is empty, it is blank, and dropping it leaves no empty node. */
  lemma DropTidy(t: Shape, m: Index, k: Key, l: nat)
    requires Linked(t, m) && Pos(l, Prefix(k, l)) in t.cells && t.cells[Pos(l, Prefix(k, l))].count == 0
    ensures var u, q := Drop(t, Pos(l, Prefix(k, l))), Pos(l, Prefix(k, l));
      && Stale(u, m, k, l) && t.cells[q].slots == Blank()
      && (NoneEmptyBut(t, {q}) ==> NoneEmpty(u))
      && (Minimal(t) && l < t.height ==> Minimal(u))
  {
    var u, q := Drop(t, Pos(l, Prefix(k, l))), Pos(l, Prefix(k, l));
    DropStale(t, m, k, l);
    assert CellOk(t, q);
    EmptyIsBlank(t.cells[q].slots);
    if Minimal(t) && l < t.height {
      var top := Pos(t.height, 0);
      var i :| 1 <= i < |t.cells[top].slots| && t.cells[top].slots[i] != Null;
      assert u.cells[top].slots[i] != Null;
    }
  }

  // ---- the shape is a function of the keys ----

  /** Below every node of a tree without empty nodes there is a stored key. */
  lemma {:induction false} KeyBelow(t: Shape, m: Index, q: Pos) returns (k: Key)
    requires Linked(t, m) && NoneEmpty(t) && q in t.cells
    ensures k in m && Prefix(k, q.level) == q.prefix
    decreases q.level
  {
    assert CellOk(t, q);
    OccupiedZero(t.cells[q].slots);
    var i :| 0 <= i < MAP_SIZE && t.cells[q].slots[i] != Null;
    assert Agrees(t, m, q, i);
    var p := q.prefix * MAP_SIZE + i;
    if q.level == 1 {
      k := p;
      assert Prefix(k, 1) == Prefix(k, 0) / MAP_SIZE;
    } else {
      k := KeyBelow(t, m, Pos(q.level - 1, p));
    }
  }

  /** The height is the least one that holds every key. */
  lemma HeightIsLeast(t: Shape, m: Index)
    requires Linked(t, m) && Tidy(t)
    ensures forall k | k in m :: k <= MaxIndex(t.height)
    ensures t.height > 0 ==> exists k :: k in m && k > MaxIndex(t.height - 1)
  {
    forall k | k in m ensures k <= MaxIndex(t.height) {
      KeyFits(t, m, k);
      FitsIffNoPrefix(k, t.height);
    }
    if t.height > 0 {
      var top := Pos(t.height, 0);
      assert CellOk(t, top);
      var i :| 1 <= i < |t.cells[top].slots| && t.cells[top].slots[i] != Null;
      assert Agrees(t, m, top, i);
      var k: Key;
      if t.height == 1 {
        k := i;
      } else {
        k := KeyBelow(t, m, Pos(t.height - 1, i));
      }
      FitsIffNoPrefix(k, t.height - 1);
    }
  }

  lemma SameHeight(t: Shape, u: Shape, m: Index)
    requires Linked(t, m) && Tidy(t) && Linked(u, m) && Tidy(u)
    ensures t.height <= u.height
  {
    if t.height > 0 {
      HeightIsLeast(t, m);
      var k :| k in m && k > MaxIndex(t.height - 1);
      KeyFits(u, m, k);
      FitsIffNoPrefix(k, t.height - 1);
      if u.height <= t.height - 1 {
        PrefixZeroAbove(k, u.height, t.height - 1);
      }
    }
  }

  /** Two tidy trees of one map have the same height and nodes at the same positions. */
  lemma TidyShapeUnique(t: Shape, u: Shape, m: Index)
    requires Linked(t, m) && Tidy(t) && Linked(u, m) && Tidy(u)
    ensures t.height == u.height && t.cells.Keys == u.cells.Keys
  {
    SameHeight(t, u, m);
    SameHeight(u, t, m);
    forall q | q in t.cells ensures q in u.cells {
      assert CellOk(t, q);
      var k := KeyBelow(t, m, q);
      KeyPath(u, m, k, q.level);
    }
    forall q | q in u.cells ensures q in t.cells {
      assert CellOk(u, q);
      var k := KeyBelow(u, m, q);
      KeyPath(t, m, k, q.level);
    }
  }
}
