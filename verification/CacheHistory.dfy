// The metadata cache over whole runs of its small steps, that is over every interleaving.
module CacheHistories {
  import opened RadixKeys
  import opened RadixShape
  import opened TreeLeaves
  import opened CacheModel
  import opened Options

  /** A run of the machine from the empty cache, as the steps taken. */
  datatype History = Start | Then(before: History, step: Step)

  /** The state after the steps, if each of them was enabled when it was taken. */
  ghost function Run(h: History): Option<Cache> {
    match h
    case Start => Some(EMPTY)
    case Then(before, s) =>
      match Run(before)
      case None => None
      case Some(c) =>
        if Enabled(c, s) then Some(Apply(c, s)) else None
  }

  lemma {:induction false} RunKeeps(h: History)
    requires Run(h).Some?
    ensures Inv(Run(h).value)
  {
    if h.Then? {
      RunKeeps(h.before);
      StepKeeps(Run(h.before).value, h.step);
    }
  }

  /** An enabled step continues a run. */
  lemma Continue(h: History, s: Step)
    requires Run(h).Some? && Enabled(Run(h).value, s)
    ensures Inv(Run(h).value) && Run(Then(h, s)) == Some(Apply(Run(h).value, s))
  {
    RunKeeps(h);
  }

  /**
   * Over every interleaving: a leaf is freed at most once, exactly when it is out of the tree,
   * not about to be marked, and without readers; until then its count is the number of holds and
   * its mark says whether it left the tree, so the count is 0 whenever a leaf is freed.
   */
  lemma SafeReclamation(h: History, leaf: TreeLeaf)
    requires Run(h).Some? && leaf in Run(h).value.leaves
    ensures var c := Run(h).value;
      var e := c.leaves[leaf];
      && e.released <= 1
      && (e.released == 1 <==> Orphan(c, leaf) && e.holds == 0)
      && (e.released == 0 ==>
            && e.word == Word(e.holds, Orphan(c, leaf)) && e.holds >= 0
            && RefCount(Pack(e.word)) == e.holds && (IsDelete(Pack(e.word)) <==> Orphan(c, leaf)))
  {
    var c := Run(h).value;
    RunKeeps(h);
    assert LeafOk(c, leaf);
    if c.leaves[leaf].released == 0 {
      PackFacts(c.leaves[leaf].word);
    }
  }

  /**
   * Over every interleaving: the list has exactly the leaves that the tree points to, each under
   * its own block, and none of them is marked or freed.
   */
  lemma TreeAndListAgree(h: History, leaf: TreeLeaf)
    requires Run(h).Some?
    ensures var c := Run(h).value;
      && (leaf in c.lru <==> exists k | k in c.m :: c.m[k] == leaf)
      && (forall k | k in c.m :: c.m[k] in c.leaves && c.leaves[c.m[k]].key == k)
      && (leaf in c.lru ==> leaf in c.leaves && !c.leaves[leaf].word.deleted && c.leaves[leaf].released == 0)
  {
    var c := Run(h).value;
    RunKeeps(h);
    if leaf in c.leaves {
      assert LeafOk(c, leaf);
    }
  }

  lemma StepStable(c: Cache, s: Step, leaf: TreeLeaf)
    requires Inv(c) && Enabled(c, s) && leaf in c.leaves
    ensures var d := Apply(c, s);
      leaf in d.leaves && d.leaves[leaf].data == c.leaves[leaf].data && d.leaves[leaf].key == c.leaves[leaf].key
  {
  }

  /** `h` continues `g`. */
  ghost predicate Extends(h: History, g: History) {
    h == g || (h.Then? && Extends(h.before, g))
  }

  lemma {:induction false} ExtendsOn(h: History, g: History, f: History)
    requires Extends(h, g) && Extends(g, f)
    ensures Extends(h, f)
  {
    if h != g {
      ExtendsOn(h.before, g, f);
    }
  }

  /** A leaf never changes its block or its data, whatever happens while readers hold it. */
  lemma {:induction false} LeavesAreStable(g: History, h: History, leaf: TreeLeaf)
    requires Run(h).Some? && Extends(h, g)
    ensures Run(g).Some?
    ensures var c, d := Run(g).value, Run(h).value;
      leaf in c.leaves ==>
        leaf in d.leaves && d.leaves[leaf].data == c.leaves[leaf].data && d.leaves[leaf].key == c.leaves[leaf].key
  {
    if h != g {
      LeavesAreStable(g, h.before, leaf);
      RunKeeps(h.before);
      if leaf in Run(g).value.leaves {
        StepStable(Run(h.before).value, h.step, leaf);
      }
    }
  }

  /** What the cache answers for each block. */
  ghost function Contents(c: Cache): map<Key, MetaData> {
    map k | k in c.m && c.m[k] in c.leaves :: c.leaves[c.m[k]].data
  }

  /** The value last stored for each block and not taken out since, read off the steps alone. */
  ghost function Latest(h: History): map<Key, MetaData> {
    match h
    case Start => map[]
    case Then(before, Attach(leaf, key, value)) => Latest(before)[key := value]
    case Then(before, Detach(leaf)) => Latest(before) - BlocksOf(before, leaf)
    case Then(before, _) => Latest(before)
  }

  /** The block a leaf was stored under. */
  ghost function BlocksOf(h: History, leaf: TreeLeaf): set<Key> {
    match h
    case Start => {}
    case Then(before, s) =>
      BlocksOf(before, leaf) + if s.Attach? && s.leaf == leaf then {s.key} else {}
  }

  lemma StepKeys(c: Cache, s: Step, leaf: TreeLeaf)
    requires Inv(c) && Enabled(c, s)
    ensures var d := Apply(c, s);
      && (leaf in d.leaves <==> leaf in c.leaves || (s.Attach? && s.leaf == leaf))
      && (leaf in d.leaves ==>
            d.leaves[leaf].key == if s.Attach? && s.leaf == leaf then s.key else c.leaves[leaf].key)
      && (s.Attach? && s.leaf == leaf ==> leaf !in c.leaves)
  {
  }

  lemma {:induction false} BlocksAreKeys(h: History, leaf: TreeLeaf)
    requires Run(h).Some?
    ensures var c := Run(h).value;
      BlocksOf(h, leaf) == if leaf in c.leaves then {c.leaves[leaf].key} else {}
  {
    if h.Then? {
      BlocksAreKeys(h.before, leaf);
      RunKeeps(h.before);
      StepKeys(Run(h.before).value, h.step, leaf);
    }
  }

  lemma AttachContents(c: Cache, leaf: TreeLeaf, key: Key, value: MetaData)
    requires Inv(c) && leaf !in c.leaves
    ensures Contents(Attached(c, leaf, key, value)) == Contents(c)[key := value]
  {
  }

  lemma DetachContents(c: Cache, leaf: TreeLeaf)
    requires Inv(c) && InTree(c, leaf)
    ensures Contents(Detached(c, leaf)) == Contents(c) - {c.leaves[leaf].key}
  {
  }

  lemma OtherContents(c: Cache, s: Step)
    requires Inv(c) && Enabled(c, s) && !s.Attach? && !s.Detach?
    ensures Contents(Apply(c, s)) == Contents(c)
  {
  }

  lemma StepContents(c: Cache, s: Step)
    requires Inv(c) && Enabled(c, s)
    ensures s.Attach? ==> Contents(Apply(c, s)) == Contents(c)[s.key := s.value]
    ensures s.Detach? ==> Contents(Apply(c, s)) == Contents(c) - {c.leaves[s.leaf].key}
    ensures !s.Attach? && !s.Detach? ==> Contents(Apply(c, s)) == Contents(c)
  {
    match s
    case Attach(leaf, key, value) => AttachContents(c, leaf, key, value);
    case Detach(leaf) => DetachContents(c, leaf);
    case _ => OtherContents(c, s);
  }

  /** A hit returns the data of the latest update of its block that was not evicted or invalidated. */
  lemma {:induction false} HitsAreLatest(h: History)
    requires Run(h).Some?
    ensures Contents(Run(h).value) == Latest(h)
  {
    if h.Then? {
      HitsAreLatest(h.before);
      RunKeeps(h.before);
      StepContents(Run(h.before).value, h.step);
      if h.step.Detach? {
        BlocksAreKeys(h.before, h.step.leaf);
      }
    }
  }

  ghost function Length(h: History): nat {
    if h.Start? then 0 else Length(h.before) + 1
  }

  /** When a leaf was last used: the number of the last step that stored or found it. */
  ghost function LastUse(h: History, leaf: TreeLeaf): nat {
    match h
    case Start => 0
    case Then(before, s) =>
      if (s.Touch? || s.Attach?) && s.leaf == leaf then Length(h) else LastUse(before, leaf)
  }

  lemma {:induction false} LastUseBound(h: History, leaf: TreeLeaf)
    ensures LastUse(h, leaf) <= Length(h)
  {
    if h.Then? {
      LastUseBound(h.before, leaf);
    }
  }

  ghost predicate ByRecency(lru: seq<TreeLeaf>, h: History) {
    forall i, j | 0 <= i < j < |lru| :: LastUse(h, lru[i]) > LastUse(h, lru[j])
  }

  lemma {:induction false} WithoutByRecency(lru: seq<TreeLeaf>, x: TreeLeaf, h: History)
    requires ByRecency(lru, h)
    ensures ByRecency(Without(lru, x), h)
  {
    if lru != [] {
      WithoutByRecency(lru[1..], x, h);
      WithoutSubset(lru[1..], x);
      var w := Without(lru[1..], x);
      forall i | 0 <= i < |w| ensures LastUse(h, lru[0]) > LastUse(h, w[i]) {
        var j :| 0 <= j < |lru[1..]| && lru[1..][j] == w[i];
        assert lru[j + 1] == w[i];
      }
    }
  }

  lemma FrontByRecency(w: seq<TreeLeaf>, x: TreeLeaf, h: History, s: Step)
    requires ByRecency(w, h) && x !in w && (s.Touch? || s.Attach?) && s.leaf == x
    ensures ByRecency([x] + w, Then(h, s))
  {
    forall i | 0 <= i < |w| ensures LastUse(Then(h, s), w[i]) == LastUse(h, w[i]) <= Length(h) {
      LastUseBound(h, w[i]);
    }
  }

  /** The list is the cached leaves from the most to the least recently used. */
  lemma {:induction false} ListIsByRecency(h: History)
    requires Run(h).Some?
    ensures ByRecency(Run(h).value.lru, h)
  {
    if h.Then? {
      var init, s := h.before, h.step;
      ListIsByRecency(init);
      RunKeeps(init);
      var c := Run(init).value;
      match s
      case Touch(leaf) =>
        WithoutByRecency(c.lru, leaf, init);
        WithoutMember(c.lru, leaf, leaf);
        FrontByRecency(Without(c.lru, leaf), leaf, init, s);
      case Attach(leaf, key, value) =>
        if key in c.m {
          WithoutByRecency(c.lru, c.m[key], init);
          WithoutMember(c.lru, c.m[key], leaf);
          FrontByRecency(Without(c.lru, c.m[key]), leaf, init, s);
        } else {
          FrontByRecency(c.lru, leaf, init, s);
        }
      case Detach(leaf) =>
        WithoutByRecency(c.lru, leaf, init);
      case _ =>
    }
  }
}
