/** What exact counts and acyclicity give: a count is the number of holders, nothing live is out
    of reach, and every handle denotes a proper value. */
module Conservation {
  import opened Collections
  import opened Trees
  import opened Cells
  import opened Meaning

  ghost function Positions(slots: seq<Slot>, c: Cell): set<nat> {
    set i: nat | i < |slots| && slots[i] == Ref(c)
  }

  /** The slots of live cells that hold `c`, each named by its cell and its index. */
  ghost function SlotHolders(h: Heap, c: Cell): set<(Cell, nat)> {
    set b, i | b in h && i in Positions(h[b].kids, c) :: (b, i)
  }

  lemma PositionsSnoc(slots: seq<Slot>, s: Slot, c: Cell)
    ensures |Positions(slots + [s], c)| == |Positions(slots, c)| + if s == Ref(c) then 1 else 0
  {
    var n := |slots|;
    assert Positions(slots + [s], c) == Positions(slots, c) + if s == Ref(c) then {n} else {};
  }

  lemma {:induction false} RefsArePositions(slots: seq<Slot>, c: Cell)
    ensures Refs(slots)[c] == |Positions(slots, c)|
  {
    if slots == [] {
      assert Positions(slots, c) == {};
    } else {
      hide Positions, Refs;
      var n := |slots| - 1;
      var init, last := slots[..n], slots[n];
      assert slots == init + [last];
      RefsAppend(init, [last]);
      RefsOne(last);
      RefsArePositions(init, c);
      PositionsSnoc(init, last, c);
    }
  }

  ghost function Tagged(b: Cell, s: set<nat>): set<(Cell, nat)> {
    set i | i in s :: (b, i)
  }

  lemma {:induction false} TaggedSize(b: Cell, s: set<nat>)
    ensures |Tagged(b, s)| == |s|
  {
    if s == {} {
      assert Tagged(b, s) == {};
    } else {
      var i :| i in s;
      TaggedSize(b, s - {i});
      assert Tagged(b, s) == Tagged(b, s - {i}) + {(b, i)};
    }
  }

  lemma NoRefs(h: Heap)
    requires h == map[]
    ensures AllRefs(h) == multiset{}
  {}

  lemma HoldersSplit(h: Heap, b: Cell, c: Cell)
    requires b in h
    ensures |SlotHolders(h, c)| == |SlotHolders(h - {b}, c)| + |Positions(h[b].kids, c)|
  {
    var rest, here := SlotHolders(h - {b}, c), Tagged(b, Positions(h[b].kids, c));
    TaggedSize(b, Positions(h[b].kids, c));
    forall p | p in SlotHolders(h, c)
      ensures p in rest + here
    {
      assert p.0 == b || p.0 in h - {b};
    }
    assert SlotHolders(h, c) == rest + here && rest !! here;
  }

  lemma {:induction false} AllRefsAreHolders(h: Heap, c: Cell)
    ensures AllRefs(h)[c] == |SlotHolders(h, c)|
    decreases |h|
  {
    hide AllRefs, Refs;
    if h == map[] {
      NoRefs(h);
      assert SlotHolders(h, c) == {};
    } else {
      var b: Cell :| b in h;
      AllRefsAt(h, b);
      AllRefsAreHolders(h - {b}, c);
      RefsArePositions(h[b].kids, c);
      HoldersSplit(h, b, c);
    }
  }

  /** Between statements, each count is exactly the number of handles plus the number of slots of
      live cells that hold the cell; so `unique()` means one holder. */
  lemma CountIsHolders(h: Heap, vars: seq<Slot>, c: Cell)
    requires Counted(h, Refs(vars)) && c in h
    ensures h[c].count == |Positions(vars, c)| + |SlotHolders(h, c)|
  {
    RefsArePositions(vars, c);
    AllRefsAreHolders(h, c);
  }

  ghost function Above(h: Heap, den: Interpretation, c: Cell): set<Cell>
    requires den.Keys == h.Keys && c in h
  {
    set d | d in h && Height(den[d]) > Height(den[c])
  }

  ghost predicate LinkedFrom(h: Heap, root: Slot, chain: seq<Cell>, c: Cell) {
    && chain != [] && root == Ref(chain[0]) && chain[|chain| - 1] == c
    && (forall i :: 0 <= i < |chain| ==> chain[i] in h)
    && forall i :: 0 <= i < |chain| - 1 ==> Ref(chain[i + 1]) in h[chain[i]].kids
  }

  /** Nothing leaks: every live cell is reached from some handle. */
  lemma {:induction false} NothingLeaks(h: Heap, vars: seq<Slot>, den: Interpretation, c: Cell)
    returns (y: nat, chain: seq<Cell>)
    requires Counted(h, Refs(vars)) && Means(h, den)
    requires c in h && forall b :: b in h ==> h[b].count > 0
    ensures y < |vars| && LinkedFrom(h, vars[y], chain, c)
    decreases |Above(h, den, c)|
  {
    hide AllRefs, Refs, Height, MeansAt;
    RefsMember(vars, c);
    AllRefsMember(h, c);
    if Ref(c) in vars {
      y :| y < |vars| && vars[y] == Ref(c);
      chain := [c];
    } else {
      assert h[c].count > 0;
      var b: Cell :| b in h && Ref(c) in h[b].kids;
      KidLower(h, den, b, c);
      assert Above(h, den, b) < Above(h, den, c) by {
        assert b in Above(h, den, c) && b !in Above(h, den, b);
      }
      SubsetSize(Above(h, den, b), Above(h, den, c));
      y, chain := NothingLeaks(h, vars, den, b);
      chain := chain + [c];
    }
  }

  /** Every denoted object has one ascending key per value, at every depth. */
  lemma {:induction false} DenotesWellFormed(h: Heap, den: Interpretation, c: Cell)
    requires Means(h, den) && Closed(h) && c in h
    requires forall b :: b in h ==> h[b].shape.Fits(|h[b].kids|)
    ensures den[c].WellFormed()
    decreases Height(den[c])
  {
    assert MeansAt(h, den, c);
    var kids := h[c].kids;
    forall t | t in den[c].kids
      ensures t.WellFormed()
    {
      var i :| 0 <= i < |kids| && t == SlotTree(kids[i], den);
      if kids[i].Ref? {
        KidLower(h, den, c, kids[i].cell);
        DenotesWellFormed(h, den, kids[i].cell);
      }
    }
  }

  // ---- Cells that a release cannot free --------------------------------------------------

  /** Each of the cells is referred to from outside the heap, or by another of them. */
  ghost predicate Supported(h: Heap, ext: multiset<Cell>, keep: set<Cell>) {
    forall c :: c in keep ==> c in ext || exists b :: b in keep && b in h && Ref(c) in h[b].kids
  }

  lemma SupportedAfter(h: Heap, h': Heap, ext: multiset<Cell>, ext': multiset<Cell>, keep: set<Cell>)
    requires Supported(h, ext, keep) && SameNodes(h, h') && keep <= h'.Keys
    requires forall c :: c in ext ==> c in ext'
    ensures Supported(h', ext', keep)
  {}

  lemma NotKept(h: Heap, ext: multiset<Cell>, keep: set<Cell>, c: Cell)
    requires Supported(h, ext, keep) && c !in ext && c !in AllRefs(h)
    ensures c !in keep
  {
    AllRefsMember(h, c);
  }
}
