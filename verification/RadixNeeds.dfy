// How many nodes an insertion has to allocate.
module RadixNeeds {
  import opened Sets
  import opened RadixKeys
  import opened RadixShape
  import opened TreeLeaves
  import opened Words

  /** How many of the nodes on the way to a key, at the levels up to `l`, are missing. */
  ghost function Missing(cells: map<Pos, Cell>, index: Key, l: nat): nat {
    if l == 0 then 0 else Missing(cells, index, l - 1) + if Pos(l, Prefix(index, l)) in cells then 0 else 1
  }

  /** The least height from `h` on that the key fits. */
  ghost function HeightNeeded(index: Key, h: nat): (top: nat)
    ensures h <= top && Prefix(index, top) == 0 && (top == h || (Prefix(index, top - 1) != 0 && top <= MAX_HEIGHT))
    decreases if h < MAX_HEIGHT then MAX_HEIGHT - h else 0
  {
    if Prefix(index, h) == 0 then h
    else
      TallestHoldsAll(index);
      if h >= MAX_HEIGHT then
        PrefixZeroAbove(index, MAX_HEIGHT, h);
        h
      else HeightNeeded(index, h + 1)
  }

  /**
   * The nodes that an insertion allocates: those on the way that are missing, or, when the tree has
   * to grow, the new roots and all nodes of a way of its own below the topmost.
   */
  ghost function NodesNeeded(t: Shape, index: Key): nat {
    var top := HeightNeeded(index, t.height);
    if top == t.height then Missing(t.cells, index, top)
    else if t.root == Null then top
    else (top - t.height) + (top - 1)
  }

  const MOST_NODES: nat := 2 * MAX_HEIGHT - 1

  lemma {:induction false} HeightIs(index: Key, h: nat, top: nat)
    requires h <= top && Prefix(index, top) == 0 && (top == h || Prefix(index, top - 1) != 0)
    ensures HeightNeeded(index, h) == top
    decreases top - h
  {
    var least := HeightNeeded(index, h);
    if least < top {
      PrefixZeroAbove(index, least, top - 1);
    } else if top < least {
      PrefixZeroAbove(index, top, least - 1);
    }
  }

  lemma {:induction false} MissingMost(cells: map<Pos, Cell>, index: Key, l: nat)
    ensures Missing(cells, index, l) <= l
  {
    if l > 0 {
      MissingMost(cells, index, l - 1);
    }
  }

  /** An insertion never needs more than 21 nodes. */
  lemma NeededMost(t: Shape, index: Key)
    requires t.height <= MAX_HEIGHT
    ensures NodesNeeded(t, index) <= MOST_NODES
  {
    MissingMost(t.cells, index, t.height);
  }

  /** Only the nodes on the way count. */
  lemma {:induction false} MissingSame(a: map<Pos, Cell>, b: map<Pos, Cell>, index: Key, l: nat)
    requires forall k {:trigger Prefix(index, k)} | 1 <= k <= l ::
      Pos(k, Prefix(index, k)) in a <==> Pos(k, Prefix(index, k)) in b
    ensures Missing(a, index, l) == Missing(b, index, l)
  {
    if l > 0 {
      MissingSame(a, b, index, l - 1);
    }
  }

  lemma {:induction false} AllMissing(cells: map<Pos, Cell>, index: Key, l: nat)
    requires forall k {:trigger Prefix(index, k)} | 1 <= k <= l :: Pos(k, Prefix(index, k)) !in cells
    ensures Missing(cells, index, l) == l
  {
    if l > 0 {
      AllMissing(cells, index, l - 1);
    }
  }

  /** No node of a tree is on the way to a key that does not fit it. */
  lemma NoWay(t: Shape, m: Index, index: Key, l: nat)
    requires Linked(t, m) && t.height <= l && Prefix(index, l) != 0
    ensures forall k {:trigger Prefix(index, k)} | 1 <= k <= l :: Pos(k, Prefix(index, k)) !in t.cells
  {
    forall k {:trigger Prefix(index, k)} | 1 <= k <= l ensures Pos(k, Prefix(index, k)) !in t.cells {
      if Pos(k, Prefix(index, k)) in t.cells {
        FarPrefix(t, m, index, k);
        PrefixZeroAbove(index, t.height, l);
      }
    }
  }

  /** A node on the way to a key means that the key fits. */
  lemma {:induction false} FarPrefix(t: Shape, m: Index, index: Key, k: nat)
    requires Linked(t, m) && k >= 1 && Pos(k, Prefix(index, k)) in t.cells
    ensures Prefix(index, t.height) == 0
    decreases t.height - k
  {
    var q := Pos(k, Prefix(index, k));
    assert CellOk(t, q) && HasParent(t, q);
    if k < t.height {
      FarPrefix(t, m, index, k + 1);
    }
  }

  /** The node of one level is added. */
  lemma NodeAdded(a: map<Pos, Cell>, b: map<Pos, Cell>, index: Key, h: nat)
    requires h > 0 && Pos(h, Prefix(index, h)) !in a && b.Keys == a.Keys + {Pos(h, Prefix(index, h))}
    ensures Missing(a, index, h) == Missing(b, index, h - 1) + 1
  {
    MissingSame(a, b, index, h - 1);
  }

  // ---- the nodes of a set of keys ----

  /** Some key has a digit at level `l`. */
  ghost predicate HasLevel(keys: set<Key>, l: nat)
    requires l > 0
  {
    exists k {:trigger Prefix(k, l - 1)} :: k in keys && Prefix(k, l - 1) != 0
  }

  /** The positions of the nodes that a tree of these keys has, if none is empty and the height is least. */
  ghost function NodesOf(keys: set<Key>): set<Pos> {
    set k, l {:trigger Prefix(k, l)} | k in keys && 1 <= l <= MAX_HEIGHT && HasLevel(keys, l) :: Pos(l, Prefix(k, l))
  }

  lemma LevelIff(t: Shape, m: Index, l: nat)
    requires Linked(t, m) && Tidy(t) && l > 0
    ensures HasLevel(m.Keys, l) <==> l <= t.height
  {
    HeightIsLeast(t, m);
    if l <= t.height {
      var k :| k in m && k > MaxIndex(t.height - 1);
      FitsIffNoPrefix(k, t.height - 1);
      if Prefix(k, l - 1) == 0 {
        PrefixZeroAbove(k, l - 1, t.height - 1);
      }
    }
    if HasLevel(m.Keys, l) {
      var k :| k in m.Keys && Prefix(k, l - 1) != 0;
      FitsIffNoPrefix(k, t.height);
      if t.height < l {
        PrefixZeroAbove(k, t.height, l - 1);
      }
    }
  }

  /** A tidy tree has exactly the nodes of its keys. */
  lemma TidyNodes(t: Shape, m: Index)
    requires Linked(t, m) && Tidy(t)
    ensures t.cells.Keys == NodesOf(m.Keys)
  {
    forall q | q in t.cells ensures q in NodesOf(m.Keys) {
      assert CellOk(t, q);
      LevelIff(t, m, q.level);
      var k := KeyBelow(t, m, q);
    }
    forall q | q in NodesOf(m.Keys) ensures q in t.cells {
      var k, l :| k in m.Keys && 1 <= l <= MAX_HEIGHT && HasLevel(m.Keys, l) && q == Pos(l, Prefix(k, l));
      LevelIff(t, m, l);
      KeyPath(t, m, k, l);
    }
  }

  /** More keys have no fewer nodes. */
  lemma NodesGrow(a: set<Key>, b: set<Key>)
    requires a <= b
    ensures NodesOf(a) <= NodesOf(b) && |NodesOf(a)| <= |NodesOf(b)|
  {
    forall q | q in NodesOf(a) ensures q in NodesOf(b) {
      var k, l :| k in a && 1 <= l <= MAX_HEIGHT && HasLevel(a, l) && q == Pos(l, Prefix(k, l));
      var j :| j in a && Prefix(j, l - 1) != 0;
    }
    SubsetSize(NodesOf(a), NodesOf(b));
  }

  /** Some nodes and those on the way to a key. */
  ghost function AddWay(a: set<Pos>, index: Key, l: nat): set<Pos> {
    if l == 0 then a else AddWay(a, index, l - 1) + {Pos(l, Prefix(index, l))}
  }

  lemma {:induction false} WayIs(a: set<Pos>, index: Key, l: nat)
    ensures forall q :: q in AddWay(a, index, l) <==>
      q in a || (1 <= q.level <= l && q.prefix == Prefix(index, q.level))
  {
    if l > 0 {
      WayIs(a, index, l - 1);
    }
  }

  lemma PlusOne(a: set<Pos>, q: Pos, b: set<Pos>)
    requires b == a + {q}
    ensures |b| == |a| + if q in a then 0 else 1
  {
    assert q in a ==> b == a;
  }

  lemma WayNext(a: set<Pos>, index: Key, l: nat)
    requires l > 0
    ensures |AddWay(a, index, l)| == |AddWay(a, index, l - 1)| + if Pos(l, Prefix(index, l)) in a then 0 else 1
  {
    WayIs(a, index, l - 1);
    PlusOne(AddWay(a, index, l - 1), Pos(l, Prefix(index, l)), AddWay(a, index, l));
  }

  lemma {:induction false} WaySize(a: set<Pos>, cells: map<Pos, Cell>, index: Key, l: nat)
    requires forall q :: q in a <==> q in cells
    ensures |AddWay(a, index, l)| == |a| + Missing(cells, index, l)
  {
    if l > 0 {
      WaySize(a, cells, index, l - 1);
      WayNext(a, index, l);
    }
  }

  /** A way that is new altogether. */
  lemma {:induction false} NewWay(a: set<Pos>, index: Key, l: nat)
    requires forall k {:trigger Prefix(index, k)} | 1 <= k <= l :: Pos(k, Prefix(index, k)) !in a
    ensures |AddWay(a, index, l)| == |a| + l
  {
    if l > 0 {
      NewWay(a, index, l - 1);
      WayNext(a, index, l);
    }
  }

  /** Some nodes and the new roots when a tree grows. */
  ghost function AddRoots(a: set<Pos>, h: nat, top: nat): set<Pos>
    decreases top
  {
    if top <= h then a else AddRoots(a, h, top - 1) + {Pos(top, 0)}
  }

  lemma {:induction false} RootsIs(a: set<Pos>, h: nat, top: nat)
    ensures forall q :: q in AddRoots(a, h, top) <==> q in a || (h < q.level <= top && q.prefix == 0)
    decreases top
  {
    if top > h {
      RootsIs(a, h, top - 1);
    }
  }

  lemma {:induction false} RootsSize(a: set<Pos>, h: nat, top: nat)
    requires h <= top && forall q | q in a :: q.level <= h
    ensures |AddRoots(a, h, top)| == |a| + (top - h)
    decreases top
  {
    if top > h {
      RootsSize(a, h, top - 1);
      RootsIs(a, h, top - 1);
      PlusOne(AddRoots(a, h, top - 1), Pos(top, 0), AddRoots(a, h, top));
    }
  }

  // ---- what an insertion adds ----

  lemma LevelOrKey(keys: set<Key>, index: Key, l: nat)
    requires l > 0
    ensures HasLevel(keys + {index}, l) <==> HasLevel(keys, l) || Prefix(index, l - 1) != 0
  {
  }

  lemma NewLevels(index: Key, h: nat, l: nat)
    requires l > 0
    ensures l <= h || Prefix(index, l - 1) != 0 <==> l <= HeightNeeded(index, h)
  {
    var top := HeightNeeded(index, h);
    if l > top && Prefix(index, l - 1) != 0 {
      PrefixZeroAbove(index, top, l - 1);
    }
    if h < l <= top && Prefix(index, l - 1) == 0 {
      PrefixZeroAbove(index, l - 1, top - 1);
    }
  }

  /** The levels of the tree after an insertion. */
  lemma LevelsAfter(t: Shape, m: Index, index: Key, l: nat)
    requires Linked(t, m) && Tidy(t) && l > 0
    ensures HasLevel(m.Keys + {index}, l) <==> l <= HeightNeeded(index, t.height)
  {
    LevelIff(t, m, l);
    LevelOrKey(m.Keys, index, l);
    NewLevels(index, t.height, l);
  }

  /** A tree with a root stores something. */
  lemma RootHasKey(t: Shape, m: Index) returns (k: Key)
    requires Linked(t, m) && Tidy(t) && t.root != Null
    ensures k in m
  {
    if t.height == 0 {
      k := 0;
    } else {
      k := KeyBelow(t, m, Pos(t.height, 0));
    }
  }

  /** The nodes and the roots that it adds. */
  ghost function Grown(t: Shape, top: nat): set<Pos> {
    if t.root == Null then t.cells.Keys else AddRoots(t.cells.Keys, t.height, top)
  }

  /** The positions of the nodes after an insertion. */
  ghost function After(t: Shape, index: Key): set<Pos> {
    var top := HeightNeeded(index, t.height);
    AddWay(Grown(t, top), index, top)
  }

  lemma AfterIs(t: Shape, index: Key, q: Pos)
    ensures var top := HeightNeeded(index, t.height);
      q in After(t, index) <==>
        || q in t.cells || (t.root != Null && t.height < q.level <= top && q.prefix == 0)
        || (1 <= q.level <= top && q.prefix == Prefix(index, q.level))
  {
    var top := HeightNeeded(index, t.height);
    WayIs(Grown(t, top), index, top);
    RootsIs(t.cells.Keys, t.height, top);
  }

  lemma NodeAfter(t: Shape, m: Index, index: Key, k: Key, l: nat)
    requires Linked(t, m) && Tidy(t) && k in m.Keys + {index} && 1 <= l <= HeightNeeded(index, t.height)
    ensures Pos(l, Prefix(k, l)) in After(t, index)
  {
    AfterIs(t, index, Pos(l, Prefix(k, l)));
    if k != index {
      if l <= t.height {
        KeyPath(t, m, k, l);
      } else {
        KeyFits(t, m, k);
        PrefixZeroAbove(k, t.height, l);
        if t.root == Null {
          NullRootEmpty(t, m);
        }
      }
    }
  }

  lemma NodeStays(t: Shape, m: Index, index: Key, q: Pos) returns (k: Key)
    requires Linked(t, m) && Tidy(t) && q in After(t, index)
    ensures 1 <= q.level <= HeightNeeded(index, t.height) && k in m.Keys + {index} && q.prefix == Prefix(k, q.level)
  {
    AfterIs(t, index, q);
    if q in t.cells {
      assert CellOk(t, q);
      k := KeyBelow(t, m, q);
    } else if q.prefix == Prefix(index, q.level) {
      k := index;
    } else {
      k := RootHasKey(t, m);
      KeyFits(t, m, k);
      PrefixZeroAbove(k, t.height, q.level);
    }
  }

  /** A node after an insertion was there before, is a new root, or is on the way to the key. */
  lemma NodesAfter(t: Shape, m: Index, index: Key)
    requires Linked(t, m) && Tidy(t)
    ensures NodesOf(m.Keys + {index}) == After(t, index)
  {
    var keys := m.Keys + {index};
    forall q | q in NodesOf(keys) ensures q in After(t, index) {
      var k, l :| k in keys && 1 <= l <= MAX_HEIGHT && HasLevel(keys, l) && q == Pos(l, Prefix(k, l));
      LevelsAfter(t, m, index, l);
      NodeAfter(t, m, index, k, l);
    }
    forall q | q in After(t, index) ensures q in NodesOf(keys) {
      var k := NodeStays(t, m, index, q);
      LevelsAfter(t, m, index, q.level);
    }
  }

  lemma AfterSize(t: Shape, m: Index, index: Key)
    requires Linked(t, m) && Tidy(t)
    ensures |After(t, index)| == |t.cells.Keys| + NodesNeeded(t, index)
  {
    var top := HeightNeeded(index, t.height);
    if top == t.height {
      WaySize(t.cells.Keys, t.cells, index, top);
    } else if t.root == Null {
      NullRootEmpty(t, m);
      NewWay(t.cells.Keys, index, top);
    } else {
      NewRoots(t, m, top);
      OwnWaySize(t, m, index, top, AddRoots(t.cells.Keys, t.height, top));
    }
  }

  /** Neither a node nor a new root is on the way to a key that the tree has to grow for. */
  lemma OwnWay(t: Shape, m: Index, index: Key, top: nat, a: set<Pos>)
    requires Linked(t, m) && t.height < top && Prefix(index, top - 1) != 0
    requires a == AddRoots(t.cells.Keys, t.height, top)
    ensures forall k {:trigger Prefix(index, k)} | 1 <= k <= top - 1 :: Pos(k, Prefix(index, k)) !in a
  {
    NoWay(t, m, index, top - 1);
    RootsIs(t.cells.Keys, t.height, top);
    forall k {:trigger Prefix(index, k)} | 1 <= k <= top - 1 ensures Pos(k, Prefix(index, k)) !in a {
      if Prefix(index, k) == 0 {
        PrefixZeroAbove(index, k, top - 1);
      }
    }
  }

  lemma WayBelow(a: set<Pos>, index: Key, top: nat)
    requires top > 0 && Pos(top, Prefix(index, top)) in a
    requires forall k {:trigger Prefix(index, k)} | 1 <= k <= top - 1 :: Pos(k, Prefix(index, k)) !in a
    ensures |AddWay(a, index, top)| == |a| + (top - 1)
  {
    NewWay(a, index, top - 1);
    WayNext(a, index, top);
  }

  lemma OwnWaySize(t: Shape, m: Index, index: Key, top: nat, a: set<Pos>)
    requires Linked(t, m) && t.height < top && Prefix(index, top) == 0 && Prefix(index, top - 1) != 0
    requires a == AddRoots(t.cells.Keys, t.height, top)
    ensures |AddWay(a, index, top)| == |a| + (top - 1)
  {
    OwnWay(t, m, index, top, a);
    RootsIs(t.cells.Keys, t.height, top);
    WayBelow(a, index, top);
  }

  lemma NewRoots(t: Shape, m: Index, top: nat)
    requires Linked(t, m) && t.height < top
    ensures |AddRoots(t.cells.Keys, t.height, top)| == |t.cells.Keys| + (top - t.height)
  {
    forall q | q in t.cells ensures q.level <= t.height {
      assert CellOk(t, q);
    }
    RootsSize(t.cells.Keys, t.height, top);
  }

  /** An insertion needs exactly the nodes that the tree of the keys with this one has more. */
  lemma NeededIsGrowth(t: Shape, m: Index, index: Key)
    requires Linked(t, m) && Tidy(t)
    ensures NodesNeeded(t, index) == |NodesOf(m.Keys + {index})| - |NodesOf(m.Keys)|
  {
    TidyNodes(t, m);
    NodesAfter(t, m, index);
    AfterSize(t, m, index);
  }

  // ---- preloading ----

  /**
   * A preload of as many nodes as a path is long is enough for an insertion if and only if there is
   * no root, the key fits, or the levels to add and those of the new way are no more than that.
   */
  lemma PreloadEnough(t: Shape, index: Key)
    requires t.height <= MAX_HEIGHT
    ensures NodesNeeded(t, index) <= MAX_PATH <==>
      t.root == Null || Prefix(index, t.height) == 0 || 2 * HeightNeeded(index, t.height) <= MAX_PATH + 1 + t.height
  {
    MissingMost(t.cells, index, t.height);
    var top := HeightNeeded(index, t.height);
    if Prefix(index, t.height) == 0 {
      HeightIs(index, t.height, t.height);
    }
  }

  /** The last key needs the most nodes, 21, when the tree holds only key 0. */
  lemma MostReached(leaf: TreeLeaf)
    ensures var t := Shape(0, Item(leaf), map[]);
      && Linked(t, map[0 := leaf]) && Tidy(t)
      && NodesNeeded(t, ULONG_LIMIT - 1) == MOST_NODES > MAX_PATH
  {
    var last: Key := ULONG_LIMIT - 1;
    assert Prefix(last, 10) != 0 && Prefix(last, 11) == 0 by {
      FitsIffNoPrefix(last, 10);
      TallestHoldsAll(last);
      MaxIndexValue(10);
    }
    HeightIs(last, 0, 11);
  }
}
