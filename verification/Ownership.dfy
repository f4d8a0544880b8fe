/** Exclusive paths: a write through a handle goes down a chain of cells each held once, and
    changes the meaning of that chain only. */
module Ownership {
  import opened Collections
  import opened Trees
  import opened Cells
  import opened Meaning

  /** `cells[0]` is what `root` refers to, and each next cell is the kid at `at[j]` of `cells[j]`. */
  ghost predicate Spine(h: Heap, root: Slot, cells: seq<Cell>, at: seq<nat>) {
    && |cells| == |at| + 1
    && root == Ref(cells[0])
    && (forall j :: 0 <= j < |cells| ==> cells[j] in h)
    && (forall j :: 0 <= j < |at| ==> Link(h, cells[j], at[j], cells[j + 1]))
  }

  ghost predicate Link(h: Heap, c: Cell, i: nat, d: Cell)
    requires c in h
  {
    i < |h[c].kids| && h[c].kids[i] == Ref(d)
  }

  ghost predicate HeldOnce(h: Heap, cells: seq<Cell>) {
    forall j :: 0 <= j < |cells| ==> cells[j] in h && h[cells[j]].count == 1
  }

  /** Every cell except possibly `c` has the meaning `den` gives it. */
  ghost predicate MeansBut(h: Heap, den: Interpretation, c: Cell) {
    && den.Keys == h.Keys
    && forall b :: b in h && b != c ==> MeansAt(h, den, b)
  }

  /** The tree of a spine's cell is the subtree of the root at the path so far. */
  lemma {:induction false} SpineSub(h: Heap, den: Interpretation, root: Slot, cells: seq<Cell>, at: seq<nat>)
    requires Spine(h, root, cells, at)
    requires den.Keys == h.Keys
    requires forall j :: 0 <= j < |at| ==> MeansAt(h, den, cells[j])
    ensures Reaches(den[cells[0]], at) && Sub(den[cells[0]], at) == den[cells[|at|]]
  {
    if at != [] {
      var n := |at| - 1;
      SpineSub(h, den, root, cells[..n + 1], at[..n]);
      assert at == at[..n] + [at[n]];
      assert Link(h, cells[n], at[n], cells[n + 1]);
      ReachesSnoc(den[cells[0]], at[..n], at[n]);
    }
  }

  /** The cells of a spine lie at strictly falling heights, so they are distinct. */
  lemma SpineDistinct(h: Heap, den: Interpretation, root: Slot, cells: seq<Cell>, at: seq<nat>, i: nat, j: nat)
    requires Means(h, den) && Spine(h, root, cells, at) && i < j < |cells|
    ensures cells[i] != cells[j]
  {
    var part := cells[i..j + 1];
    forall k | 0 <= k < |part| - 1
      ensures Ref(part[k + 1]) in h[part[k]].kids
    {
      assert Link(h, cells[i + k], at[i + k], cells[i + k + 1]);
    }
    DescendingHeights(h, den, part, j - i);
  }

  /** A cell held once is held by the one holder we know of. */
  lemma SoleHolder(h: Heap, ext: multiset<Cell>, c: Cell, i: nat, d: Cell, b: Cell, k: nat)
    requires Counted(h, ext) && c in h && d in h && b in h
    requires Link(h, c, i, d) && h[d].count == 1
    requires k < |h[b].kids| && h[b].kids[k] == Ref(d)
    ensures b == c && k == i && d !in ext
  {
    AllRefsMember(h, d);
    AllRefsAt(h, c);
    if b != c {
      TwoHolders(h, b, c, d);
    } else if k != i {
      RefsTwice(h[c].kids, if k < i then k else i, if k < i then i else k);
    }
  }

  /** A cell held once, and by a root, is held by no cell. */
  lemma RootHolder(h: Heap, ext: multiset<Cell>, c: Cell, b: Cell)
    requires Counted(h, ext) && c in h && b in h
    requires c in ext && h[c].count == 1
    ensures Ref(c) !in h[b].kids
  {
    AllRefsMember(h, c);
  }

  /** Restores the meaning of a heap whose last spine cell was just rewritten, working up the
      spine; only cells of the spine change meaning. */
  lemma {:induction false} Rebuild(h: Heap, den: Interpretation, root: Slot, cells: seq<Cell>, at: seq<nat>,
                                   ext: multiset<Cell>)
    returns (den': Interpretation)
    requires Spine(h, root, cells, at) && HeldOnce(h, cells)
    requires Counted(h, ext) && cells[0] in ext
    requires forall i, j :: 0 <= i < j < |cells| ==> cells[i] != cells[j]
    requires MeansBut(h, den, cells[|at|])
    ensures Means(h, den')
    ensures forall c :: c in h && c !in cells ==> den'[c] == den[c]
    ensures Reaches(den[cells[0]], at)
    ensures den'[cells[0]]
         == Graft(den[cells[0]], at, Branch(h[cells[|at|]].shape, SlotTrees(h[cells[|at|]].kids, den)))
    decreases |at|
  {
    hide AllRefs, Refs, Tallies, Graft, Sub, Reaches, SlotTrees;
    var n := |at|;
    var last := cells[n];
    var tree := Branch(h[last].shape, SlotTrees(h[last].kids, den));
    var den1 := den[last := tree];
    if n == 0 {
      RebuildRoot(h, den, last, ext);
      GraftHere(den[last], tree);
      den' := den1;
    } else {
      RebuildOthers(h, den, root, cells, at, ext);
      var p := cells[n - 1];
      SpineSub(h, den, root, cells[..n], at[..n - 1]);
      assert Link(h, p, at[n - 1], last) && at == at[..n - 1] + [at[n - 1]];
      RebuildGraft(h, den, den1, ext, p, at[n - 1], last, den[cells[0]], at[..n - 1]);
      den' := Rebuild(h, den1, root, cells[..n], at[..n - 1], ext);
      forall c | c in h && c !in cells
        ensures den'[c] == den[c]
      {
        assert c !in cells[..n];
      }
    }
  }

  /** Giving a cell that only a root holds its new meaning disturbs no other cell. */
  lemma RebuildRoot(h: Heap, den: Interpretation, c: Cell, ext: multiset<Cell>)
    requires Counted(h, ext) && c in ext && c in h && h[c].count == 1
    requires MeansBut(h, den, c)
    ensures Means(h, den[c := Branch(h[c].shape, SlotTrees(h[c].kids, den))])
  {
    var den1 := den[c := Branch(h[c].shape, SlotTrees(h[c].kids, den))];
    CountedClosed(h, ext);
    forall b | b in h
      ensures MeansAt(h, den1, b)
    {
      RootHolder(h, ext, c, b);
      SameTrees(h[b].kids, den, den1);
    }
  }

  /** One level up: after the last cell gets its new meaning only its parent is out of date. */
  lemma RebuildOthers(h: Heap, den: Interpretation, root: Slot, cells: seq<Cell>, at: seq<nat>, ext: multiset<Cell>)
    requires Spine(h, root, cells, at) && HeldOnce(h, cells) && at != []
    requires Counted(h, ext) && cells[|at| - 1] != cells[|at|]
    requires MeansBut(h, den, cells[|at|])
    ensures var last := cells[|at|];
      MeansBut(h, den[last := Branch(h[last].shape, SlotTrees(h[last].kids, den))], cells[|at| - 1])
  {
    hide AllRefs, Refs, Tallies, MeansAt;
    var n := |at|;
    var p, last := cells[n - 1], cells[n];
    var den1 := den[last := Branch(h[last].shape, SlotTrees(h[last].kids, den))];
    assert Link(h, p, at[n - 1], last);
    forall b | b in h && b != p
      ensures MeansAt(h, den1, b)
    {
      OthersKeep(h, den, den1, ext, p, at[n - 1], last, b);
    }
  }

  /** And the graft still to do at the parent `p` of `d` is the graft asked for. */
  lemma RebuildGraft(h: Heap, den: Interpretation, den1: Interpretation, ext: multiset<Cell>,
                     p: Cell, i: nat, d: Cell, t: Tree, at: seq<nat>)
    requires Counted(h, ext) && p in h && d in h && p != d
    requires Link(h, p, i, d) && h[d].count == 1
    requires MeansBut(h, den, d)
    requires den1.Keys == h.Keys && forall c :: c in h && c != d ==> den1[c] == den[c]
    requires Reaches(t, at) && Sub(t, at) == den[p]
    ensures Reaches(t, at + [i])
    ensures Graft(t, at + [i], den1[d]) == Graft(t, at, Branch(h[p].shape, SlotTrees(h[p].kids, den1)))
  {
    hide AllRefs, Refs, Tallies, Graft, Sub, Reaches;
    assert MeansAt(h, den, p);
    ParentTree(h, den, den1, ext, p, i, d);
    ReachesSnoc(t, at, i);
    GraftSnoc(t, at, i, den1[d]);
  }

  /** Cells other than the sole holder of `d` do not notice a change of its meaning. */
  lemma OthersKeep(h: Heap, den: Interpretation, den1: Interpretation, ext: multiset<Cell>,
                   p: Cell, i: nat, d: Cell, b: Cell)
    requires Counted(h, ext) && p in h && d in h && b in h && b != p && p != d
    requires Link(h, p, i, d) && h[d].count == 1
    requires MeansBut(h, den, d)
    requires den1 == den[d := Branch(h[d].shape, SlotTrees(h[d].kids, den))]
    ensures MeansAt(h, den1, b)
  {
    forall k | 0 <= k < |h[b].kids|
      ensures h[b].kids[k] != Ref(d)
    {
      if h[b].kids[k] == Ref(d) {
        SoleHolder(h, ext, p, i, d, b, k);
      }
    }
    CountedClosed(h, ext);
    SameTrees(h[b].kids, den, den1);
  }

  /** The sole holder of `d` sees the change at exactly one kid. */
  lemma ParentTree(h: Heap, den: Interpretation, den1: Interpretation, ext: multiset<Cell>,
                   p: Cell, i: nat, d: Cell)
    requires Counted(h, ext) && p in h && d in h && p != d
    requires Link(h, p, i, d) && h[d].count == 1
    requires MeansBut(h, den, d)
    requires den1.Keys == h.Keys && forall c :: c in h && c != d ==> den1[c] == den[c]
    ensures den[p].Branch? && i < |den[p].kids|
    ensures SlotTrees(h[p].kids, den1) == den[p].kids[i := den1[d]]
  {
    assert MeansAt(h, den, p);
    var kids := h[p].kids;
    forall k | 0 <= k < |kids| && k != i
      ensures SlotTree(kids[k], den1) == SlotTree(kids[k], den)
    {
      if kids[k] == Ref(d) {
        SoleHolder(h, ext, p, i, d, p, k);
      } else if kids[k].Ref? {
        CountedClosed(h, ext);
        assert kids[k] in kids;
      }
    }
  }

  /** The node of the last cell of a spine held once was rewritten: the meaning of the whole
      heap follows, and the handle's tree changes at that path only. */
  lemma NodeWritten(h: Heap, den: Interpretation, root: Slot, cells: seq<Cell>, at: seq<nat>,
                    h': Heap, ext: multiset<Cell>)
    returns (den': Interpretation)
    requires Means(h, den) && Spine(h, root, cells, at)
    requires h'.Keys == h.Keys && SameNodes(h - {cells[|at|]}, h')
    requires HeldOnce(h', cells) && Counted(h', ext) && cells[0] in ext
    ensures Means(h', den') && Spine(h', root, cells, at)
    ensures forall c :: c in h && c !in cells ==> den'[c] == den[c]
    ensures Reaches(den[cells[0]], at)
    ensures den'[cells[0]]
         == Graft(den[cells[0]], at, Branch(h'[cells[|at|]].shape, SlotTrees(h'[cells[|at|]].kids, den)))
  {
    var last := cells[|at|];
    forall i, j | 0 <= i < j < |cells|
      ensures cells[i] != cells[j]
    {
      SpineDistinct(h, den, root, cells, at, i, j);
    }
    forall j | 0 <= j < |at|
      ensures Link(h', cells[j], at[j], cells[j + 1])
    {
      assert cells[j] in h - {last};
      assert Link(h, cells[j], at[j], cells[j + 1]);
    }
    forall b | b in h' && b != last
      ensures MeansAt(h', den, b)
    {
      assert MeansAt(h, den, b) && b in h - {last};
    }
    den' := Rebuild(h', den, root, cells, at, ext);
  }

  /** A cell of a spine held once is seen by no root but the one the spine hangs from. */
  lemma OtherRoots(h: Heap, vars: seq<Slot>, temps: multiset<Cell>, x: nat, cells: seq<Cell>, at: seq<nat>,
                   y: nat, j: nat)
    requires Counted(h, Refs(vars) + temps)
    requires x < |vars| && y < |vars| && y != x && j < |cells|
    requires Spine(h, vars[x], cells, at) && HeldOnce(h, cells)
    ensures vars[y] != Ref(cells[j])
  {
    RefsAt(vars, x);
    if vars[y] == Ref(cells[j]) {
      RefsAt(vars, y);
      if j == 0 {
        RefsTwice(vars, if x < y then x else y, if x < y then y else x);
      } else {
        assert Link(h, cells[j - 1], at[j - 1], cells[j]);
        SoleHolder(h, Refs(vars) + temps, cells[j - 1], at[j - 1], cells[j], cells[j - 1], at[j - 1]);
      }
    }
  }

  /** What rewriting the last node of an exclusive spine does to the trees of all handles. */
  lemma HandlesAfterNode(h: Heap, den: Interpretation, vars: seq<Slot>, x: nat, cells: seq<Cell>, at: seq<nat>,
                         h': Heap, temps: multiset<Cell>)
    returns (den': Interpretation)
    requires Means(h, den) && x < |vars| && Spine(h, vars[x], cells, at)
    requires h'.Keys == h.Keys && SameNodes(h - {cells[|at|]}, h')
    requires HeldOnce(h', cells) && Counted(h', Refs(vars) + temps)
    ensures Means(h', den') && Spine(h', vars[x], cells, at)
    ensures forall c :: c in h && c !in cells ==> den'[c] == den[c]
    ensures Reaches(SlotTree(vars[x], den), at)
    ensures SlotTrees(vars, den')
         == SlotTrees(vars, den)[x := Graft(SlotTree(vars[x], den), at,
              Branch(h'[cells[|at|]].shape, SlotTrees(h'[cells[|at|]].kids, den)))]
  {
    hide AllRefs, Refs, Tallies, MeansAt;
    var ext := Refs(vars) + temps;
    RefsMember(vars, cells[0]);
    assert cells[0] in ext;
    den' := NodeWritten(h, den, vars[x], cells, at, h', ext);
    forall y | 0 <= y < |vars| && y != x
      ensures SlotTree(vars[y], den') == SlotTree(vars[y], den)
    {
      if vars[y].Ref? {
        forall j | 0 <= j < |cells|
          ensures vars[y] != Ref(cells[j])
        {
          OtherRoots(h', vars, temps, x, cells, at, y, j);
        }
        assert vars[y].cell !in cells;
      }
    }
  }

  /** The same for one given new node. */
  lemma NodeReplaced(h: Heap, den: Interpretation, vars: seq<Slot>, x: nat, cells: seq<Cell>, at: seq<nat>,
                     shape: Shape, kids: seq<Slot>, temps: multiset<Cell>)
    returns (h': Heap, den': Interpretation)
    requires Means(h, den) && x < |vars| && Spine(h, vars[x], cells, at) && HeldOnce(h, cells)
    requires Counted(h[cells[|at|] := CellState(h[cells[|at|]].count, shape, kids)], Refs(vars) + temps)
    ensures h' == h[cells[|at|] := CellState(h[cells[|at|]].count, shape, kids)]
    ensures Means(h', den') && Spine(h', vars[x], cells, at) && HeldOnce(h', cells)
    ensures forall c :: c in h && c !in cells ==> den'[c] == den[c]
    ensures Reaches(SlotTree(vars[x], den), at)
    ensures SlotTrees(vars, den')
         == SlotTrees(vars, den)[x := Graft(SlotTree(vars[x], den), at, Branch(shape, SlotTrees(kids, den)))]
  {
    hide AllRefs, Refs, Tallies, MeansAt, Counted;
    h' := h[cells[|at|] := CellState(h[cells[|at|]].count, shape, kids)];
    den' := HandlesAfterNode(h, den, vars, x, cells, at, h', temps);
  }

  /** Storing a slot at the end of an exclusive path: the counts stay exact with the old slot as
      a new temporary, and only handle `x` changes meaning, at that path. */
  lemma SlotWritten(h: Heap, den: Interpretation, vars: seq<Slot>, x: nat, cells: seq<Cell>, at: seq<nat>, i: nat,
                    s: Slot, temps: multiset<Cell>)
    returns (den': Interpretation)
    requires Means(h, den) && x < |vars| && Spine(h, vars[x], cells, at)
    requires i < |h[cells[|at|]].kids|
    requires HeldOnce(h, cells) && Counted(h, Refs(vars) + (temps + One(s)))
    ensures var last := cells[|at|];
      var h' := h[last := CellState(h[last].count, h[last].shape, h[last].kids[i := s])];
      && Means(h', den') && Spine(h', vars[x], cells, at) && HeldOnce(h', cells)
      && Counted(h', Refs(vars) + (temps + One(h[last].kids[i])))
    ensures forall c :: c in h && c !in cells ==> den'[c] == den[c]
    ensures Reaches(SlotTree(vars[x], den), at + [i])
    ensures SlotTrees(vars, den')
         == SlotTrees(vars, den)[x := Graft(SlotTree(vars[x], den), at + [i], SlotTree(s, den))]
  {
    hide AllRefs, Refs, Tallies, Counted;
    var last := cells[|at|];
    var old_ := h[last].kids[i];
    var kids' := h[last].kids[i := s];
    RefsUpdate(h[last].kids, i, s);
    assert Refs(vars) + (temps + One(s)) == (Refs(vars) + temps) + One(s);
    Rewired(h, Refs(vars) + temps, last, h[last].shape, kids', One(old_), One(s));
    assert Refs(vars) + (temps + One(old_)) == (Refs(vars) + temps) + One(old_);
    var h';
    h', den' := NodeReplaced(h, den, vars, x, cells, at, h[last].shape, kids', temps + One(old_));
    SpineSub(h, den, vars[x], cells, at);
    assert MeansAt(h, den, last);
    ReachesSnoc(den[cells[0]], at, i);
    GraftSnoc(den[cells[0]], at, i, SlotTree(s, den));
    assert SlotTrees(kids', den) == SlotTrees(h[last].kids, den)[i := SlotTree(s, den)];
  }

  /** A release elsewhere neither frees nor shares the cells of an exclusive spine. */
  lemma {:induction false} SpineSurvives(h: Heap, h': Heap, vars: seq<Slot>, temps: multiset<Cell>,
                                         x: nat, cells: seq<Cell>, at: seq<nat>)
    requires x < |vars| && Spine(h, vars[x], cells, at) && HeldOnce(h, cells)
    requires h'.Keys <= h.Keys && SameNodes(h, h') && Counted(h', Refs(vars) + temps)
    requires forall c :: c in h' ==> 0 < h'[c].count <= h[c].count
    ensures Spine(h', vars[x], cells, at) && HeldOnce(h', cells)
    decreases |at|
  {
    hide AllRefs, Refs;
    if at == [] {
      RefsMember(vars, cells[0]);
      assert cells[0] in Refs(vars) + temps;
    } else {
      var n := |at| - 1;
      SpineSurvives(h, h', vars, temps, x, cells[..n + 1], at[..n]);
      assert Link(h, cells[n], at[n], cells[n + 1]);
      CountedClosed(h', Refs(vars) + temps);
      assert h'[cells[n]].kids[at[n]] in h'[cells[n]].kids;
      forall j | 0 <= j < |at|
        ensures cells[j] in h' && Link(h', cells[j], at[j], cells[j + 1])
      {
        assert cells[j] == cells[..n + 1][j];
        if j < n {
          assert Link(h', cells[..n + 1][j], at[..n][j], cells[..n + 1][j + 1]);
        }
      }
    }
  }

  lemma RootsLive(h: Heap, vars: seq<Slot>, temps: multiset<Cell>)
    requires Counted(h, Refs(vars) + temps)
    ensures forall c :: Ref(c) in vars ==> c in h
    ensures forall c :: c in temps ==> c in h
  {
    hide AllRefs, Refs;
    forall c | Ref(c) in vars
      ensures c in h
    {
      RefsMember(vars, c);
      assert c in Refs(vars) + temps;
    }
    forall c | c in temps
      ensures c in h
    {
      assert c in Refs(vars) + temps;
    }
  }

  /** `cells` are the cells on the index path `at` into handle `x`, each held once: the state
      a chain of non-const calls leaves behind it. */
  ghost predicate Exclusive(h: Heap, vars: seq<Slot>, x: nat, cells: seq<Cell>, at: seq<nat>) {
    && x < |vars| && |cells| == |at|
    && HeldOnce(h, cells)
    && (at != [] ==>
          var n := |at| - 1;
          Spine(h, vars[x], cells, at[..n]) && at[n] < |h[cells[n]].kids|)
  }

  lemma ExclusiveSurvives(h: Heap, h': Heap, vars: seq<Slot>, temps: multiset<Cell>,
                          x: nat, cells: seq<Cell>, at: seq<nat>)
    requires Exclusive(h, vars, x, cells, at)
    requires h'.Keys <= h.Keys && SameNodes(h, h') && Counted(h', Refs(vars) + temps)
    requires forall c :: c in h' ==> 0 < h'[c].count <= h[c].count
    ensures Exclusive(h', vars, x, cells, at)
  {
    if at != [] {
      SpineSurvives(h, h', vars, temps, x, cells, at[..|at| - 1]);
    }
  }

  /** A cell off an exclusive path holds no cell on it. */
  lemma OffPath(h: Heap, vars: seq<Slot>, temps: multiset<Cell>, x: nat, cells: seq<Cell>, at: seq<nat>,
                c: Cell, d: Cell)
    requires Exclusive(h, vars, x, cells, at) && Counted(h, Refs(vars) + temps)
    requires c in h && c !in cells && d in cells
    ensures Ref(d) !in h[c].kids
  {
    hide AllRefs, Refs, Tallies;
    var j :| 0 <= j < |cells| && cells[j] == d;
    if Ref(d) in h[c].kids {
      var k :| 0 <= k < |h[c].kids| && h[c].kids[k] == Ref(d);
      if j == 0 {
        RefsMember(vars, d);
        RootHolder(h, Refs(vars) + temps, d, c);
      } else {
        assert Link(h, cells[j - 1], at[..|at| - 1][j - 1], d);
        SoleHolder(h, Refs(vars) + temps, cells[j - 1], at[j - 1], d, c, k);
      }
    }
  }

  /** The subtree at an exclusive path is what the slot there denotes. */
  lemma ExclusiveSub(h: Heap, den: Interpretation, vars: seq<Slot>, x: nat, cells: seq<Cell>, at: seq<nat>)
    requires Means(h, den) && Exclusive(h, vars, x, cells, at)
    ensures Reaches(SlotTree(vars[x], den), at)
    ensures at == [] ==> Sub(SlotTree(vars[x], den), at) == SlotTree(vars[x], den)
    ensures at != [] ==> var n := |at| - 1;
      Sub(SlotTree(vars[x], den), at) == SlotTree(h[cells[n]].kids[at[n]], den)
  {
    if at != [] {
      var n := |at| - 1;
      SpineSub(h, den, vars[x], cells, at[..n]);
      assert MeansAt(h, den, cells[n]);
      assert at == at[..n] + [at[n]];
      ReachesSnoc(SlotTree(vars[x], den), at[..n], at[n]);
    }
  }

  /** Clones and new cells elsewhere leave an exclusive path as it is. */
  lemma ExclusiveMoved(h: Heap, h': Heap, vars: seq<Slot>, x: nat, cells: seq<Cell>, at: seq<nat>)
    requires Exclusive(h, vars, x, cells, at)
    requires h.Keys <= h'.Keys && SameNodes(h, h') && forall c :: c in cells ==> h'[c].count == h[c].count
    ensures Exclusive(h', vars, x, cells, at)
  {}

  lemma HeldKeys(h: Heap, vars: seq<Slot>, x: nat, cells: seq<Cell>, at: seq<nat>)
    requires Exclusive(h, vars, x, cells, at)
    ensures forall c <- cells :: c in h && h[c].count == 1
  {}

  /** Inserting a scalar into the last cell of an exclusive spine touches no count. */
  lemma AtomInserted(h: Heap, ext: multiset<Cell>, c: Cell, shape: Shape, i: nat, a: Scalar)
    requires Counted(h, ext) && c in h && i <= |h[c].kids|
    ensures Counted(h[c := CellState(h[c].count, shape, InsertAt(h[c].kids, i, Atom(a)))], ext)
  {
    hide AllRefs, Refs, Tallies;
    var none: multiset<Cell> := multiset{};
    RefsInsert(h[c].kids, i, Atom(a));
    assert ext + none == ext;
    Rewired(h, ext, c, shape, InsertAt(h[c].kids, i, Atom(a)), none, none);
  }

  lemma SpineExclusive(h: Heap, vars: seq<Slot>, x: nat, cells: seq<Cell>, at: seq<nat>, c: Cell, i: nat)
    requires x < |vars| && Spine(h, vars[x], cells + [c], at) && HeldOnce(h, cells + [c])
    requires c in h && i < |h[c].kids|
    ensures Exclusive(h, vars, x, cells + [c], at + [i])
  {}

  /** A handle other than the one being walked, or any handle before the walk, is off the path. */
  lemma HandleOffPath(h: Heap, vars: seq<Slot>, temps: multiset<Cell>, x: nat, cells: seq<Cell>, at: seq<nat>,
                      y: nat)
    requires Exclusive(h, vars, x, cells, at) && Counted(h, Refs(vars) + temps)
    requires y < |vars| && (at == [] || y != x)
    ensures forall c <- cells :: vars[y] != Ref(c)
  {
    hide AllRefs, Refs, Tallies;
    forall j | 0 <= j < |cells|
      ensures vars[y] != Ref(cells[j])
    {
      OtherRoots(h, vars, temps, x, cells, at[..|at| - 1], y, j);
    }
  }

  /** Appending a temporary to the kids of the last cell of a spine. */
  lemma KidAppended(h: Heap, ext: multiset<Cell>, c: Cell, s: Slot)
    requires Counted(h, ext + One(s)) && c in h
    ensures Counted(h[c := CellState(h[c].count, h[c].shape, h[c].kids + [s])], ext)
  {
    hide AllRefs, Refs, Tallies;
    var none: multiset<Cell> := multiset{};
    RefsAppend(h[c].kids, [s]);
    RefsOne(s);
    assert ext + none == ext;
    Rewired(h, ext, c, h[c].shape, h[c].kids + [s], none, One(s));
  }

  /** The one holder of a cell on an exclusive path is a handle or a cell, never a temporary. */
  lemma PathHeld(h: Heap, vars: seq<Slot>, temps: multiset<Cell>, x: nat, cells: seq<Cell>, at: seq<nat>, j: nat)
    requires Exclusive(h, vars, x, cells, at) && Counted(h, Refs(vars) + temps)
    requires j < |cells|
    ensures cells[j] !in temps
  {
    hide AllRefs, Refs;
    if j == 0 {
      RefsMember(vars, cells[0]);
    } else {
      assert Link(h, cells[j - 1], at[..|at| - 1][j - 1], cells[j]);
      SoleHolder(h, Refs(vars) + temps, cells[j - 1], at[j - 1], cells[j], cells[j - 1], at[j - 1]);
    }
  }
}
