// The metadata cache as a machine of small steps, each one what a thread does
// while it holds the locks, and the invariant that every step keeps.
module CacheModel {
  import opened RadixKeys
  import opened RadixShape
  import opened TreeLeaves
  import opened Options

  /**
   * A leaf: its fields (`key` is the block id), the references handed out and not put back,
   * how often it was freed, and whether it is out of the tree but not yet marked or freed.
   */
  datatype Entry = Entry(key: Key, data: MetaData, word: Word, holds: int, pending: bool, released: nat)

  /** The tree, the LRU list (most recent first), and every leaf ever allocated. */
  datatype Cache = Cache(m: Index, lru: seq<TreeLeaf>, leaves: map<TreeLeaf, Entry>)

  const EMPTY := Cache(map[], [], map[])

  // ---- lists ----

  /** `list_del`: the list without `x`. */
  function Without(s: seq<TreeLeaf>, x: TreeLeaf): seq<TreeLeaf> {
    if s == [] then [] else if s[0] == x then Without(s[1..], x) else [s[0]] + Without(s[1..], x)
  }

  ghost predicate NoDup(s: seq<TreeLeaf>) {
    forall i, j | 0 <= i < j < |s| :: s[i] != s[j]
  }

  lemma {:induction false} WithoutMember(s: seq<TreeLeaf>, x: TreeLeaf, y: TreeLeaf)
    ensures y in Without(s, x) <==> y in s && y != x
  {
    if s != [] {
      WithoutMember(s[1..], x, y);
    }
  }

  lemma {:induction false} WithoutSubset(s: seq<TreeLeaf>, x: TreeLeaf)
    ensures forall i | 0 <= i < |Without(s, x)| :: Without(s, x)[i] in s && Without(s, x)[i] != x
  {
    if s != [] {
      WithoutSubset(s[1..], x);
    }
  }

  lemma {:induction false} WithoutNoDup(s: seq<TreeLeaf>, x: TreeLeaf)
    requires NoDup(s)
    ensures NoDup(Without(s, x))
    ensures |Without(s, x)| == |s| - if x in s then 1 else 0
  {
    if s != [] {
      WithoutNoDup(s[1..], x);
      WithoutSubset(s[1..], x);
      assert s[0] !in s[1..];
    }
  }

  /** `list_del` followed by `list_add`: the list with `x` moved to the front. */
  function ToFront(s: seq<TreeLeaf>, x: TreeLeaf): seq<TreeLeaf> {
    [x] + Without(s, x)
  }

  ghost predicate AllIn(s: seq<TreeLeaf>, ls: set<TreeLeaf>) {
    forall i | 0 <= i < |s| :: s[i] in ls
  }

  lemma ListFacts(s: seq<TreeLeaf>, x: TreeLeaf, ls: set<TreeLeaf>)
    requires NoDup(s) && AllIn(s, ls)
    ensures NoDup(Without(s, x)) && AllIn(Without(s, x), ls)
    ensures x in ls ==> NoDup(ToFront(s, x)) && AllIn(ToFront(s, x), ls)
  {
    WithoutSubset(s, x);
    WithoutNoDup(s, x);
  }

  // ---- the steps ----

  datatype Step =
    | Touch(leaf: TreeLeaf)
    | Put(leaf: TreeLeaf)
    | Attach(leaf: TreeLeaf, key: Key, value: MetaData)
    | Detach(leaf: TreeLeaf)
    | Settle(leaf: TreeLeaf)

  ghost predicate InTree(c: Cache, leaf: TreeLeaf) {
    leaf in c.leaves && c.leaves[leaf].key in c.m && c.m[c.leaves[leaf].key] == leaf
  }

  /** What a thread must have for its step: a cached leaf to touch, a hold to put back, and so on. */
  ghost predicate Enabled(c: Cache, s: Step) {
    match s
    case Touch(leaf) => InTree(c, leaf) && c.leaves[leaf].holds < MAX_HOLDS
    case Put(leaf) => leaf in c.leaves && c.leaves[leaf].holds > 0
    case Attach(leaf, key, value) => leaf !in c.leaves
    case Detach(leaf) => InTree(c, leaf)
    case Settle(leaf) => leaf in c.leaves && c.leaves[leaf].pending
  }

  /** The same cache with one leaf changed. */
  ghost function With(c: Cache, leaf: TreeLeaf, e: Entry): Cache {
    c.(leaves := c.leaves[leaf := e])
  }

  ghost function Freed(e: Entry): Entry {
    e.(released := e.released + 1)
  }

  ghost function OneMore(e: Entry): Entry {
    e.(word := e.word.(count := e.word.count + 1), holds := e.holds + 1)
  }

  ghost function OneLess(e: Entry): Entry {
    e.(word := e.word.(count := e.word.count - 1), holds := e.holds - 1)
  }

  /** A find hit: one more reader, and the leaf moves to the front. */
  ghost function Touched(c: Cache, leaf: TreeLeaf): Cache
    requires leaf in c.leaves
  {
    With(c, leaf, OneMore(c.leaves[leaf])).(lru := ToFront(c.lru, leaf))
  }

  /** A reader is done: the last one frees a leaf that is marked deleted. */
  ghost function PutBack(c: Cache, leaf: TreeLeaf): Cache
    requires leaf in c.leaves
  {
    var e := OneLess(c.leaves[leaf]);
    With(c, leaf, if e.word.deleted && e.word.count == 0 then Freed(e) else e)
  }

  /** A new leaf for a key; the one it replaces, if any, becomes pending. */
  ghost function Attached(c: Cache, leaf: TreeLeaf, key: Key, value: MetaData): Cache {
    var d := With(c, leaf, Entry(key, value, Word(0, false), 0, false, 0)).(m := c.m[key := leaf]);
    if key in c.m && c.m[key] in c.leaves then
      With(d, c.m[key], c.leaves[c.m[key]].(pending := true)).(lru := [leaf] + Without(c.lru, c.m[key]))
    else d.(lru := [leaf] + c.lru)
  }

  /** A leaf taken out of the tree and the list. */
  ghost function Detached(c: Cache, leaf: TreeLeaf): Cache
    requires leaf in c.leaves
  {
    var e := c.leaves[leaf];
    With(c, leaf, e.(pending := true)).(m := c.m - {e.key}, lru := Without(c.lru, leaf))
  }

  /** A pending leaf is freed, or marked for its last reader to free. */
  ghost function Settled(c: Cache, leaf: TreeLeaf): Cache
    requires leaf in c.leaves
  {
    var e := c.leaves[leaf].(pending := false);
    With(c, leaf, if e.word.count > 0 then e.(word := e.word.(deleted := true)) else Freed(e))
  }

  ghost function Apply(c: Cache, s: Step): Cache
    requires Enabled(c, s)
  {
    match s
    case Touch(leaf) => Touched(c, leaf)
    case Put(leaf) => PutBack(c, leaf)
    case Attach(leaf, key, value) => Attached(c, leaf, key, value)
    case Detach(leaf) => Detached(c, leaf)
    case Settle(leaf) => Settled(c, leaf)
  }

  // ---- the invariant ----

  /** Neither cached nor about to be marked: only its readers know it. */
  ghost predicate Orphan(c: Cache, leaf: TreeLeaf) {
    leaf in c.leaves && !InTree(c, leaf) && !c.leaves[leaf].pending
  }

  ghost predicate LeafOk(c: Cache, leaf: TreeLeaf) {
    && leaf in c.leaves
    && var e := c.leaves[leaf];
    && 0 <= e.holds <= MAX_HOLDS && 0 <= e.word.count <= MAX_HOLDS
    && (e.pending ==> !InTree(c, leaf))
    && (leaf in c.lru <==> InTree(c, leaf))
    // freed exactly when nobody can reach it any more, and then exactly once
    && e.released == (if Orphan(c, leaf) && e.holds == 0 then 1 else 0)
    // until then the word is the reader count, marked when the leaf is an orphan
    && (e.released == 0 ==> e.word == Word(e.holds, Orphan(c, leaf)))
  }

  ghost predicate Inv(c: Cache) {
    && (forall leaf {:trigger LeafOk(c, leaf)} | leaf in c.leaves :: LeafOk(c, leaf))
    && (forall k | k in c.m :: c.m[k] in c.leaves && c.leaves[c.m[k]].key == k)
    && NoDup(c.lru) && AllIn(c.lru, c.leaves.Keys)
  }

  /** What the tree holds for a key. */
  lemma CachedLeaf(c: Cache, k: Key)
    requires Inv(c) && k in c.m
    ensures c.m[k] in c.leaves && c.leaves[c.m[k]].key == k && InTree(c, c.m[k])
  {
  }

  // ---- every step keeps the invariant ----

  lemma TouchKeeps(c: Cache, leaf: TreeLeaf)
    requires Inv(c) && Enabled(c, Touch(leaf))
    ensures Inv(Touched(c, leaf))
  {
    var d := Touched(c, leaf);
    assert LeafOk(c, leaf);
    ListFacts(c.lru, leaf, c.leaves.Keys);
    forall x | x in d.leaves ensures LeafOk(d, x) {
      WithoutMember(c.lru, leaf, x);
      assert LeafOk(c, x);
    }
  }

  lemma PutKeeps(c: Cache, leaf: TreeLeaf)
    requires Inv(c) && Enabled(c, Put(leaf))
    ensures Inv(PutBack(c, leaf))
  {
    var d := PutBack(c, leaf);
    assert LeafOk(c, leaf);
    forall x | x in d.leaves ensures LeafOk(d, x) {
      assert LeafOk(c, x);
    }
  }

  lemma SettleKeeps(c: Cache, leaf: TreeLeaf)
    requires Inv(c) && Enabled(c, Settle(leaf))
    ensures Inv(Settled(c, leaf))
  {
    var d := Settled(c, leaf);
    assert LeafOk(c, leaf);
    forall x | x in d.leaves ensures LeafOk(d, x) {
      assert LeafOk(c, x);
    }
  }

  lemma DetachKeeps(c: Cache, leaf: TreeLeaf)
    requires Inv(c) && Enabled(c, Detach(leaf))
    ensures Inv(Detached(c, leaf))
  {
    var d := Detached(c, leaf);
    assert LeafOk(c, leaf);
    ListFacts(c.lru, leaf, c.leaves.Keys);
    forall x | x in d.leaves ensures LeafOk(d, x) {
      WithoutMember(c.lru, leaf, x);
      assert LeafOk(c, x);
    }
  }

  lemma AttachList(c: Cache, leaf: TreeLeaf, key: Key, value: MetaData)
    requires Inv(c) && Enabled(c, Attach(leaf, key, value))
    ensures var d := Attached(c, leaf, key, value);
      NoDup(d.lru) && AllIn(d.lru, d.leaves.Keys)
  {
    var d := Attached(c, leaf, key, value);
    assert leaf !in c.lru;
    if key in c.m {
      ListFacts(c.lru, c.m[key], c.leaves.Keys);
    }
  }

  lemma AttachLeafOk(c: Cache, leaf: TreeLeaf, key: Key, value: MetaData, x: TreeLeaf)
    requires Inv(c) && Enabled(c, Attach(leaf, key, value)) && x in Attached(c, leaf, key, value).leaves
    ensures LeafOk(Attached(c, leaf, key, value), x)
  {
    if key in c.m {
      WithoutMember(c.lru, c.m[key], x);
    }
    if x != leaf {
      assert LeafOk(c, x);
    }
  }

  lemma AttachKeeps(c: Cache, leaf: TreeLeaf, key: Key, value: MetaData)
    requires Inv(c) && Enabled(c, Attach(leaf, key, value))
    ensures Inv(Attached(c, leaf, key, value))
  {
    var d := Attached(c, leaf, key, value);
    AttachList(c, leaf, key, value);
    forall x | x in d.leaves ensures LeafOk(d, x) {
      AttachLeafOk(c, leaf, key, value, x);
    }
  }

  lemma StepKeeps(c: Cache, s: Step)
    requires Inv(c) && Enabled(c, s)
    ensures Inv(Apply(c, s))
  {
    match s
    case Touch(leaf) => TouchKeeps(c, leaf);
    case Put(leaf) => PutKeeps(c, leaf);
    case Attach(leaf, key, value) => AttachKeeps(c, leaf, key, value);
    case Detach(leaf) => DetachKeeps(c, leaf);
    case Settle(leaf) => SettleKeeps(c, leaf);
  }

  /** What an enabled step finds in the word of its leaf. */
  lemma StepWord(c: Cache, s: Step)
    requires Inv(c) && Enabled(c, s) && !s.Attach?
    ensures s.leaf in c.leaves && 0 <= c.leaves[s.leaf].word.count <= MAX_HOLDS
    ensures s.Touch? ==> c.leaves[s.leaf].word.count < MAX_HOLDS
    ensures s.Put? ==> c.leaves[s.leaf].word.count > 0
  {
    assert LeafOk(c, s.leaf);
  }
}
