/** What a heap of cells means: an interpretation gives each live cell the tree it denotes.
    Trees are finite, so a heap has an interpretation exactly when it is acyclic. */
module Meaning {
  import opened Collections
  import opened Trees
  import opened Cells

  type Interpretation = map<Cell, Tree>

  ghost function SlotTree(s: Slot, den: Interpretation): Tree {
    match s
    case Atom(a) => Leaf(a)
    case Hollow(kind) => Vacant(kind)
    case Ref(c) => if c in den then den[c] else Leaf(Null)
  }

  ghost function SlotTrees(slots: seq<Slot>, den: Interpretation): (ts: seq<Tree>)
    ensures |ts| == |slots|
    ensures forall i :: 0 <= i < |slots| ==> ts[i] == SlotTree(slots[i], den)
  {
    seq(|slots|, i requires 0 <= i < |slots| => SlotTree(slots[i], den))
  }

  lemma TreesAppend(slots: seq<Slot>, s: Slot, den: Interpretation)
    ensures SlotTrees(slots + [s], den) == SlotTrees(slots, den) + [SlotTree(s, den)]
  {}

  lemma TreesInsert(slots: seq<Slot>, i: nat, s: Slot, den: Interpretation)
    requires i <= |slots|
    ensures SlotTrees(InsertAt(slots, i, s), den) == InsertAt(SlotTrees(slots, den), i, SlotTree(s, den))
  {}

  ghost predicate MeansAt(h: Heap, den: Interpretation, c: Cell)
    requires c in h && c in den
  {
    den[c] == Branch(h[c].shape, SlotTrees(h[c].kids, den))
  }

  ghost predicate Means(h: Heap, den: Interpretation) {
    && den.Keys == h.Keys
    && forall c :: c in h ==> MeansAt(h, den, c)
  }

  lemma MeansHere(h: Heap, den: Interpretation, c: Cell)
    requires Means(h, den) && c in h
    ensures den.Keys == h.Keys && MeansAt(h, den, c)
  {}

  /** No kid refers to a dead cell. */
  ghost predicate Closed(h: Heap) {
    forall c, s :: c in h && s in h[c].kids && s.Ref? ==> s.cell in h
  }

  lemma CountedClosed(h: Heap, ext: multiset<Cell>)
    requires Counted(h, ext)
    ensures Closed(h)
  {
    forall c, s | c in h && s in h[c].kids && s.Ref?
      ensures s.cell in h
    {
      AllRefsMember(h, s.cell);
    }
  }

  // ---- Interpretations and acyclicity --------------------------------------------------

  /** A rank that drops along every reference. */
  ghost predicate Ranks(h: Heap, rank: map<Cell, nat>) {
    && rank.Keys == h.Keys
    && forall c, d :: c in h && d in h && Ref(d) in h[c].kids ==> rank[d] < rank[c]
  }

  lemma KidLower(h: Heap, den: Interpretation, c: Cell, d: Cell)
    requires Means(h, den) && c in h && d in h && Ref(d) in h[c].kids
    ensures Height(den[d]) < Height(den[c])
  {
    assert MeansAt(h, den, c);
    var i :| 0 <= i < |h[c].kids| && h[c].kids[i] == Ref(d);
    KidHeight(den[c], i);
  }

  /** A heap with an interpretation is acyclic: heights of the trees rank its cells. */
  lemma InterpretedIsRanked(h: Heap, den: Interpretation)
    requires Means(h, den)
    ensures Ranks(h, map c | c in h :: Height(den[c]))
  {
    forall c, d | c in h && d in h && Ref(d) in h[c].kids
      ensures Height(den[d]) < Height(den[c])
    {
      KidLower(h, den, c, d);
    }
  }

  ghost function Unfold(h: Heap, rank: map<Cell, nat>, c: Cell): Tree
    requires Ranks(h, rank) && Closed(h) && c in h
    decreases rank[c]
  {
    var kids := h[c].kids;
    Branch(h[c].shape, seq(|kids|, i requires 0 <= i < |kids| =>
      match kids[i]
      case Atom(a) => Leaf(a)
      case Hollow(kind) => Vacant(kind)
      case Ref(d) => Unfold(h, rank, d)))
  }

  /** Conversely a ranked heap without dangling references has an interpretation. */
  lemma RankedIsInterpreted(h: Heap, rank: map<Cell, nat>) returns (den: Interpretation)
    requires Ranks(h, rank) && Closed(h)
    ensures Means(h, den)
  {
    den := map c | c in h :: Unfold(h, rank, c);
    forall c | c in h
      ensures MeansAt(h, den, c)
    {
      assert den[c].kids == SlotTrees(h[c].kids, den);
    }
  }

  /** The heap alone fixes the meaning: two interpretations agree on every live cell. */
  lemma {:induction false} MeaningUnique(h: Heap, d1: Interpretation, d2: Interpretation, c: Cell)
    requires Means(h, d1) && Means(h, d2) && Closed(h) && c in h
    ensures d1[c] == d2[c]
    decreases Height(d1[c])
  {
    assert MeansAt(h, d1, c) && MeansAt(h, d2, c);
    var kids := h[c].kids;
    forall i | 0 <= i < |kids|
      ensures SlotTree(kids[i], d1) == SlotTree(kids[i], d2)
    {
      if kids[i].Ref? {
        KidLower(h, d1, c, kids[i].cell);
        MeaningUnique(h, d1, d2, kids[i].cell);
      }
    }
    assert SlotTrees(kids, d1) == SlotTrees(kids, d2);
  }

  /** Each cell of `loop` refers to the next one, and the last to the first. */
  ghost predicate IsCycle(h: Heap, loop: seq<Cell>) {
    && loop != []
    && (forall i :: 0 <= i < |loop| ==> loop[i] in h)
    && (forall i :: 0 <= i < |loop| - 1 ==> Ref(loop[i + 1]) in h[loop[i]].kids)
    && Ref(loop[0]) in h[loop[|loop| - 1]].kids
  }

  lemma {:induction false} DescendingHeights(h: Heap, den: Interpretation, loop: seq<Cell>, i: nat)
    requires Means(h, den) && i < |loop|
    requires forall i :: 0 <= i < |loop| ==> loop[i] in h
    requires forall i :: 0 <= i < |loop| - 1 ==> Ref(loop[i + 1]) in h[loop[i]].kids
    ensures Height(den[loop[i]]) + i <= Height(den[loop[0]])
  {
    if i > 0 {
      DescendingHeights(h, den, loop, i - 1);
      KidLower(h, den, loop[i - 1], loop[i]);
    }
  }

  /** A heap with a cycle has no interpretation at all. */
  lemma CycleMeansNothing(h: Heap, loop: seq<Cell>, den: Interpretation)
    requires IsCycle(h, loop)
    ensures !Means(h, den)
  {
    if Means(h, den) {
      DescendingHeights(h, den, loop, |loop| - 1);
      KidLower(h, den, loop[|loop| - 1], loop[0]);
    }
  }

  // ---- How interpretations follow the elementary moves ---------------------------------

  ghost predicate SameNodes(h: Heap, h': Heap) {
    forall c :: c in h && c in h' ==> h'[c].shape == h[c].shape && h'[c].kids == h[c].kids
  }

  lemma RefTree(c: Cell, den: Interpretation)
    requires c in den
    ensures SlotTree(Ref(c), den) == den[c]
  {}

  lemma SameSlot(s: Slot, d1: Interpretation, d2: Interpretation)
    requires s.Ref? ==> s.cell in d1 && s.cell in d2 && d1[s.cell] == d2[s.cell]
    ensures SlotTree(s, d1) == SlotTree(s, d2)
  {}

  /** Slots keep their meaning when the interpretation agrees on what they refer to. */
  lemma SameTrees(slots: seq<Slot>, d1: Interpretation, d2: Interpretation)
    requires forall c :: Ref(c) in slots ==> c in d1 && c in d2 && d1[c] == d2[c]
    ensures SlotTrees(slots, d1) == SlotTrees(slots, d2)
  {}

  /** Cells that survive a release, or a change of counts, keep their meaning. */
  lemma Survives(h: Heap, den: Interpretation, h': Heap, den': Interpretation)
    requires Means(h, den) && h'.Keys <= h.Keys && SameNodes(h, h') && Closed(h')
    requires den'.Keys == h'.Keys && forall c :: c in h' ==> den'[c] == den[c]
    ensures Means(h', den')
  {}

  /** A new cell extends the interpretation and changes nothing else. */
  lemma Extends(h: Heap, den: Interpretation, c: Cell, st: CellState)
    requires Means(h, den) && Closed(h) && c !in h
    requires forall d :: Ref(d) in st.kids ==> d in h
    ensures Means(h[c := st], den[c := Branch(st.shape, SlotTrees(st.kids, den))])
  {}
}
