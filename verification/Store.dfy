/** A program's handles and the counted cells behind them, with the operations of
    `src/core/value.cpp` that share, clone, change and free those cells. */
module ValueStore {
  import opened Collections
  import opened Wrappers
  import opened Trees
  import opened Cells
  import opened Meaning
  import opened Ownership
  import opened Semantics
  import opened Conservation
  import opened Cloning
  import opened NullPointers

  class Store {
    var vars: seq<Slot>
    ghost var live: set<Cell>
    ghost var den: Interpretation

    ghost function Snap(): (h: Heap)
      reads this, live
      ensures h.Keys == live
    {
      map c | c in live :: CellState(c.count, c.shape, c.kids)
    }

    /** Every count is exact given the references held in `temps`, no cell of count zero is
        live, and object cells have one ascending key per kid. */
    ghost predicate Sound(temps: multiset<Cell>)
      reads this, live
    {
      && Counted(Snap(), Refs(vars) + temps)
      && forall c :: c in live ==> c.count > 0 && c.shape.Fits(|c.kids|)
    }

    ghost predicate Good(temps: multiset<Cell>)
      reads this, live
    {
      Sound(temps) && Means(Snap(), den)
    }

    ghost predicate Valid()
      reads this, live
    {
      Good(multiset{})
    }

    /** What the handles denote, null pointers told apart from empty containers. */
    ghost function Denoted(): (ts: seq<Tree>)
      reads this
      ensures |ts| == |vars|
    {
      SlotTrees(vars, den)
    }

    /** What a reader sees through the handles. */
    ghost function Values(): (ts: seq<Tree>)
      reads this
      ensures |ts| == |vars|
    {
      FlatAll(Denoted())
    }

    constructor ()
      ensures Valid() && vars == [] && live == {}
    {
      vars, live, den := [], {}, map[];
      new;
      assert Snap() == map[];
    }

    // ---- Reference counting ------------------------------------------------------------

    /** Copying a value: a container's cell gains a holder. */
    method Retain(s: Slot, ghost temps: multiset<Cell>)
      requires Sound(temps) && (s.Ref? ==> s.cell in live)
      modifies live
      ensures Sound(temps + One(s)) && SameNodes(old(Snap()), Snap())
      ensures forall c :: c in live ==> c.count == old(c.count) + One(s)[c]
    {
      hide AllRefs, Tallies, Refs, Counted;
      if s.Ref? {
        Retained(Snap(), Refs(vars) + temps, s.cell);
        ghost var h := Cells.Retain(Snap(), s.cell);
        s.cell.count := s.cell.count + 1;
        assert Snap() == h;
        assert Refs(vars) + temps + multiset{s.cell} == Refs(vars) + (temps + One(s));
      } else {
        assert temps + One(s) == temps;
      }
    }

    /** Copying a vector or map of values, as a shallow clone does. */
    method RetainAll(slots: seq<Slot>, ghost temps: multiset<Cell>)
      requires Sound(temps) && forall s <- slots :: s.Ref? ==> s.cell in live
      modifies live
      ensures Sound(temps + Refs(slots)) && SameNodes(old(Snap()), Snap())
      ensures forall c :: c in live ==> c.count == old(c.count) + Refs(slots)[c]
    {
      hide AllRefs, Tallies, Refs, Counted;
      var i := 0;
      RefsNone(slots[..0]);
      assert temps + Refs(slots[..0]) == temps;
      while i < |slots|
        invariant i <= |slots|
        invariant Sound(temps + Refs(slots[..i])) && SameNodes(old(Snap()), Snap())
        invariant forall c :: c in live ==> c.count == old(c.count) + Refs(slots[..i])[c]
      {
        Retain(slots[i], temps + Refs(slots[..i]));
        assert slots[..i + 1] == slots[..i] + [slots[i]];
        RefsAppend(slots[..i], [slots[i]]);
        RefsOne(slots[i]);
        assert temps + Refs(slots[..i]) + One(slots[i]) == temps + Refs(slots[..i + 1]);
        i := i + 1;
      }
      assert slots[..i] == slots;
    }

    /** Dropping a value that is not the last holder of its cell. */
    method Unhold(s: Slot, ghost temps: multiset<Cell>)
      requires Sound(temps + One(s)) && (s.Ref? ==> s.cell in live && s.cell.count > 1)
      modifies live
      ensures Sound(temps) && SameNodes(old(Snap()), Snap())
      ensures forall c :: c in live ==> c.count == old(c.count) - One(s)[c]
    {
      hide AllRefs, Tallies, Refs, Counted;
      if s.Ref? {
        var c := s.cell;
        ghost var h := Snap();
        assert Refs(vars) + (temps + One(s)) == (Refs(vars) + temps) + multiset{c};
        Dropped(h, Refs(vars) + temps, c);
        c.count := c.count - 1;
        assert Snap() == h[c := h[c].(count := h[c].count - 1)];
      } else {
        assert temps + One(s) == temps;
      }
    }

    /** Dropping a value: the last holder frees the cell, and with it drops the cell's kids.  Cells
        that other holders support are not freed. */
    method Release(s: Slot, ghost temps: multiset<Cell>, ghost keep: set<Cell>)
      requires Sound(temps + One(s)) && keep <= live && Supported(Snap(), Refs(vars) + temps, keep)
      modifies this`live, live
      ensures live <= old(live) && Sound(temps) && SameNodes(old(Snap()), Snap())
      ensures forall c :: c in live ==> c.count <= old(c.count)
      ensures keep <= live
      decreases |live|, 0
    {
      hide AllRefs, Tallies, Refs, Counted, Supported;
      if s.Ref? {
        var c := s.cell;
        ghost var h, ext := Snap(), Refs(vars) + temps;
        assert Refs(vars) + (temps + One(s)) == ext + multiset{c};
        Dropped(h, ext, c);
        if c.count == 1 {
          Freed(h, ext, c);
          NotKept(h, ext, keep, c);
          c.count := 0;
          live := live - {c};
          assert Snap() == h - {c};
          assert Refs(vars) + temps + Refs(c.kids) == Refs(vars) + (temps + Refs(c.kids));
          SupportedAfter(h, Snap(), ext, ext, keep);
          ReleaseKids(c, temps, keep);
        } else {
          Unhold(s, temps);
        }
      } else {
        assert temps + One(s) == temps;
      }
    }

    /** The destructor of a dead cell's vector or map. */
    method ReleaseKids(dead: Cell, ghost temps: multiset<Cell>, ghost keep: set<Cell>)
      requires dead !in live && Sound(temps + Refs(dead.kids))
      requires keep <= live && Supported(Snap(), Refs(vars) + temps, keep)
      modifies this`live, live
      ensures live <= old(live) && Sound(temps) && SameNodes(old(Snap()), Snap())
      ensures forall c :: c in live ==> c.count <= old(c.count)
      ensures keep <= live
      decreases |live|, 1
    {
      hide AllRefs, Tallies, Refs, Counted, One, Sound, Supported;
      var i := 0;
      assert dead.kids[0..] == dead.kids;
      while i < |dead.kids|
        invariant i <= |dead.kids| && dead !in live && live <= old(live) && keep <= live
        invariant dead.kids == old(dead.kids)
        invariant Sound(temps + Refs(dead.kids[i..])) && SameNodes(old(Snap()), Snap())
        invariant forall c :: c in live ==> c.count <= old(c.count)
      {
        RefsHead(dead.kids[i..]);
        assert dead.kids[i..][1..] == dead.kids[i + 1..];
        ghost var rest := temps + Refs(dead.kids[i + 1..]);
        assert temps + Refs(dead.kids[i..]) == rest + One(dead.kids[i]);
        SubsetSize(live, old(live));
        SupportedAfter(old(Snap()), Snap(), Refs(vars) + temps, Refs(vars) + rest, keep);
        Release(dead.kids[i], rest, keep);
        i := i + 1;
      }
      RefsNone(dead.kids[i..]);
      assert temps + Refs(dead.kids[i..]) == temps;
    }

    // ---- Places reached by a chain of calls --------------------------------------------

    /** A chain of non-const calls has led to the index path `at` of handle `x`. */
    ghost predicate Owned(x: nat, cells: seq<Cell>, at: seq<nat>)
      reads this, live
    {
      Exclusive(Snap(), vars, x, cells, at)
    }

    ghost predicate Leads(x: nat, cells: seq<Cell>, at: seq<nat>, p: Place) {
      if cells == [] || |cells| != |at| then p == Handle(x)
      else p == Inside(cells[|at| - 1], at[|at| - 1])
    }

    ghost predicate Refers(p: Place)
      reads this, live
    {
      match p
      case Handle(x) => x < |vars|
      case Inside(c, i) => c in live && i < |c.kids|
    }

    function Load(p: Place): Slot
      requires Refers(p)
      reads this, live
    {
      match p
      case Handle(x) => vars[x]
      case Inside(c, i) => c.kids[i]
    }

    /** Overwriting the storage of a handle; the old content becomes a temporary. */
    method SetHandle(x: nat, s: Slot, ghost temps: multiset<Cell>) returns (was: Slot)
      requires Good(temps + One(s)) && x < |vars|
      modifies this`vars
      ensures Good(temps + One(was)) && was == old(vars[x]) && vars == old(vars)[x := s]
      ensures Snap() == old(Snap())
      ensures Denoted() == old(Denoted())[x := SlotTree(s, den)]
    {
      hide AllRefs, Tallies, Refs;
      RefsUpdate(vars, x, s);
      was := vars[x];
      vars := vars[x := s];
      assert Refs(vars) + (temps + One(was)) == (Refs(vars) + One(was)) + temps;
      assert Refs(old(vars)) + (temps + One(s)) == (Refs(old(vars)) + One(s)) + temps;
      assert Snap() == old(Snap());
    }

    /** Overwriting one element of the vector or map of a cell reached exclusively. */
    method SetKid(c: Cell, i: nat, s: Slot, ghost x: nat, ghost cells: seq<Cell>, ghost at: seq<nat>,
                  ghost temps: multiset<Cell>)
      returns (was: Slot)
      requires Good(temps + One(s)) && x < |vars|
      requires Spine(Snap(), vars[x], cells, at) && HeldOnce(Snap(), cells)
      requires c == cells[|at|] && i < |c.kids|
      modifies this`den, c`kids
      ensures Good(temps + One(was)) && was == old(c.kids[i]) && c.kids == old(c.kids)[i := s]
      ensures Spine(Snap(), vars[x], cells, at) && HeldOnce(Snap(), cells)
      ensures Reaches(old(Denoted())[x], at + [i])
      ensures Denoted() == old(Denoted())[x := Graft(old(Denoted())[x], at + [i], SlotTree(s, old(den)))]
      ensures forall e :: e in den && e in old(den) && e !in cells ==> den[e] == old(den)[e]
    {
      hide AllRefs, Tallies, Refs, MeansAt;
      ghost var h := Snap();
      ghost var den' := SlotWritten(h, den, vars, x, cells, at, i, s, temps);
      was := c.kids[i];
      c.kids := c.kids[i := s];
      den := den';
      assert Snap() == h[c := CellState(h[c].count, h[c].shape, h[c].kids[i := s])];
    }

    /** Overwriting the storage at a place reached exclusively. */
    method Exchange(p: Place, s: Slot, ghost x: nat, ghost cells: seq<Cell>, ghost at: seq<nat>,
                    ghost temps: multiset<Cell>)
      returns (was: Slot)
      requires Good(temps + One(s)) && Owned(x, cells, at) && Leads(x, cells, at, p)
      modifies this`vars, this`den, live
      ensures Good(temps + One(was)) && Owned(x, cells, at)
      ensures x < |vars| == old(|vars|) && vars == if p.Inside? then old(vars) else old(vars)[x := vars[x]]
      ensures |vars| == old(|vars|) && Refers(p) && Load(p) == s
      ensures old(Refers(p)) && was == old(Load(p))
      ensures Reaches(old(Denoted())[x], at)
      ensures Denoted() == old(Denoted())[x := Graft(old(Denoted())[x], at, SlotTree(s, old(den)))]
      ensures live == old(live) && forall c :: c in live ==> c.count == old(c.count)
      ensures Reslotted(old(Snap()), Snap(), p, s)
      ensures forall e :: e in den && e in old(den) && e !in cells ==> den[e] == old(den)[e]
    {
      hide AllRefs, Tallies, Refs, Means, Counted, Spine;
      match p {
        case Handle(y) =>
          was := SetHandle(y, s, temps);
          assert at == [];
        case Inside(c, i) =>
          ghost var n := |at| - 1;
          assert at == at[..n] + [i];
          was := SetKid(c, i, s, x, cells, at[..n], temps);
      }
    }

    /** `make_shared` of a vector or map whose elements are temporaries: the counts. */
    method MakeCell(shape: Shape, kids: seq<Slot>, ghost temps: multiset<Cell>) returns (c: Cell)
      requires Sound(temps + Refs(kids)) && shape.Fits(|kids|)
      modifies this`live
      ensures fresh(c) && live == old(live) + {c}
      ensures Sound(temps + multiset{c}) && Snap() == old(Snap())[c := CellState(1, shape, kids)]
    {
      hide AllRefs, Tallies, Refs, Counted;
      ghost var h := Snap();
      c := new Cell(shape, kids);
      assert Refs(vars) + (temps + Refs(kids)) == (Refs(vars) + temps) + Refs(kids);
      Added(h, Refs(vars) + temps, c, shape, kids);
      assert Refs(vars) + (temps + multiset{c}) == (Refs(vars) + temps) + multiset{c};
      live := live + {c};
      assert Snap() == h[c := CellState(1, shape, kids)];
    }

    /** And its meaning. */
    method NewCell(shape: Shape, kids: seq<Slot>, ghost temps: multiset<Cell>) returns (c: Cell)
      requires Good(temps + Refs(kids)) && shape.Fits(|kids|)
      modifies this`live, this`den
      ensures fresh(c) && live == old(live) + {c}
      ensures Good(temps + multiset{c}) && Snap() == old(Snap())[c := CellState(1, shape, kids)]
      ensures den == old(den)[c := Branch(shape, SlotTrees(kids, old(den)))]
      ensures Denoted() == old(Denoted())
    {
      hide AllRefs, Tallies, Refs, Counted, MeansAt;
      ghost var h := Snap();
      RootsLive(h, vars, temps + Refs(kids));
      forall d | Ref(d) in kids
        ensures d in h
      {
        RefsMember(kids, d);
        assert d in temps + Refs(kids);
      }
      CountedClosed(h, Refs(vars) + (temps + Refs(kids)));
      c := MakeCell(shape, kids, temps);
      Extends(h, den, c, CellState(1, shape, kids));
      den := den[c := Branch(shape, SlotTrees(kids, den))];
      assert Snap() == h[c := CellState(1, shape, kids)];
      SameTrees(vars, old(den), den);
    }

    /** Dropping a temporary: no handle changes meaning, and exclusive paths stay exclusive. */
    method Drop(s: Slot, ghost x: nat, ghost cells: seq<Cell>, ghost at: seq<nat>, ghost temps: multiset<Cell>)
      requires Good(temps + One(s)) && Owned(x, cells, at)
      modifies this`live, this`den, live
      ensures live <= old(live) && Good(temps) && Owned(x, cells, at) && SameNodes(old(Snap()), Snap())
      ensures Denoted() == old(Denoted())
      ensures forall c :: c in live ==> c.count <= old(c.count) && den[c] == old(den)[c]
    {
      hide AllRefs, Tallies, Refs, Counted, Exclusive, MeansAt;
      ghost var h := Snap();
      Release(s, temps, {});
      ghost var h' := Snap();
      CountedClosed(h', Refs(vars) + temps);
      ghost var den' := map c | c in h' :: den[c];
      Survives(h, den, h', den');
      RootsLive(h', vars, temps);
      ExclusiveSurvives(h, h', vars, temps, x, cells, at);
      den := den';
      assert Snap() == h';
      SameTrees(vars, old(den), den);
    }

    /** Copying values none of which refers to a cell on the exclusive path. */
    method CopyAll(slots: seq<Slot>, ghost x: nat, ghost cells: seq<Cell>, ghost at: seq<nat>,
                   ghost temps: multiset<Cell>)
      requires Good(temps) && Owned(x, cells, at)
      requires forall s <- slots :: s.Ref? ==> s.cell in live && s.cell !in cells
      modifies live
      ensures Good(temps + Refs(slots)) && Owned(x, cells, at)
      ensures SameNodes(old(Snap()), Snap())
      ensures forall e :: e in live ==> e.count == old(e.count) + Refs(slots)[e]
    {
      hide AllRefs, Tallies, Refs, Counted, Exclusive, MeansAt;
      ghost var h := Snap();
      forall e | e in cells
        ensures Refs(slots)[e] == 0
      {
        RefsMember(slots, e);
      }
      CountedClosed(h, Refs(vars) + temps);
      RetainAll(slots, temps);
      ghost var h' := Snap();
      CountedClosed(h', Refs(vars) + (temps + Refs(slots)));
      Survives(h, den, h', den);
      ExclusiveMoved(h, h', vars, x, cells, at);
    }

    lemma KidsOffPath(c: Cell, x: nat, cells: seq<Cell>, at: seq<nat>, temps: multiset<Cell>)
      requires Good(temps) && Owned(x, cells, at) && c in live && c !in cells
      ensures forall s <- c.kids :: s.Ref? ==> s.cell in live && s.cell !in cells
    {
      hide AllRefs, Tallies, Refs;
      CountedClosed(Snap(), Refs(vars) + temps);
      forall s | s in c.kids && s.Ref?
        ensures s.cell in live && s.cell !in cells
      {
        assert s in Snap()[c].kids;
        if s.cell in cells {
          OffPath(Snap(), vars, temps, x, cells, at, c, s.cell);
        }
      }
    }

    lemma LiveKids(c: Cell, temps: multiset<Cell>)
      requires Good(temps) && c in live
      ensures forall s <- c.kids :: s.Ref? ==> s.cell in live
    {
      hide AllRefs, Tallies, Refs, Counted;
      CountedClosed(Snap(), Refs(vars) + temps);
      assert c.kids == Snap()[c].kids;
    }

    lemma CellMeaning(c: Cell, temps: multiset<Cell>)
      requires Good(temps) && c in live
      ensures c in den && den[c] == Branch(c.shape, SlotTrees(c.kids, den)) && c.shape.Fits(|c.kids|)
    {}

    /** A shallow clone of a shared cell: the new cell holds the same kids, so each of them gains
        a holder. */
    method Clone(ghost p: Place, c: Cell, ghost x: nat, ghost cells: seq<Cell>, ghost at: seq<nat>,
                 ghost temps: multiset<Cell>) returns (d: Cell)
      requires Good(temps) && Owned(x, cells, at) && c in live && c !in cells && Refers(p)
      modifies this`live, this`den, live
      ensures fresh(d) && live == old(live) + {d}
      ensures Good(temps + multiset{d}) && Owned(x, cells, at)
      ensures Refers(p) && Load(p) == old(Load(p)) && (p.Inside? ==> p.cell != d)
      ensures SameNodes(old(Snap()), Snap()) && Snap()[d] == CellState(1, old(c.shape), old(c.kids))
      ensures forall e :: e in old(Snap()) ==>
        Snap()[e].count == old(Snap())[e].count + Refs(old(c.kids))[e]
      ensures c in old(den) && den == old(den)[d := old(den)[c]] && Denoted() == old(Denoted())
    {
      hide AllRefs, Tallies, Refs, Counted, Exclusive, Means, Good, Sound, SlotTrees;
      CellMeaning(c, temps);
      KidsOffPath(c, x, cells, at, temps);
      CopyAll(c.kids, x, cells, at, temps);
      ghost var h := Snap();
      d := NewCell(c.shape, c.kids, temps);
      HeldKeys(h, vars, x, cells, at);
      ExclusiveMoved(h, Snap(), vars, x, cells, at);
      assert forall e :: e in old(live) ==> Snap()[e] == h[e];
    }

    /** The slot at the end of an exclusive path is live and denotes the subtree there. */
    lemma PlaceMeaning(p: Place, x: nat, cells: seq<Cell>, at: seq<nat>, temps: multiset<Cell>)
      requires Good(temps) && Owned(x, cells, at) && Leads(x, cells, at, p)
      ensures x < |vars| && Refers(p) && (Load(p).Ref? ==> Load(p).cell in live)
      ensures Reaches(Denoted()[x], at) && Sub(Denoted()[x], at) == SlotTree(Load(p), den)
    {
      hide AllRefs, Tallies, Refs, Counted, Means;
      ExclusiveSub(Snap(), den, vars, x, cells, at);
      RootsLive(Snap(), vars, temps);
      CountedClosed(Snap(), Refs(vars) + temps);
      match p {
        case Handle(y) =>
        case Inside(c, i) =>
          assert c.kids[i] in Snap()[c].kids;
      }
    }

    /** Putting a cell that means the same in place of the slot there. */
    method Install(p: Place, c: Cell, ghost x: nat, ghost cells: seq<Cell>, ghost at: seq<nat>,
                    ghost temps: multiset<Cell>)
      requires Good(temps + multiset{c}) && Owned(x, cells, at) && Leads(x, cells, at, p) && Refers(p)
      requires c in live && den[c] == SlotTree(Load(p), den) && Load(p) != Ref(c)
      requires c.count == 1 && (Load(p).Ref? ==> Load(p).cell in live && Load(p).cell.count > 1)
      modifies this, live
      ensures Good(temps) && Owned(x, cells, at) && Denoted() == old(Denoted())
      ensures Refers(p) && Load(p) == Ref(c) && c in live && den[c] == old(den[c])
      ensures x < |vars| == old(|vars|) && vars == if p.Inside? then old(vars) else old(vars)[x := vars[x]]
      ensures live == old(live)
      ensures forall e :: e in Snap() ==> Snap()[e].count == old(Snap())[e].count - One(old(Load(p)))[e]
      ensures Reslotted(old(Snap()), Snap(), p, Ref(c))
      ensures forall e :: e in den && e in old(den) && e !in cells ==> den[e] == old(den)[e]
    {
      hide AllRefs, Tallies, Refs, Counted, Exclusive, MeansAt;
      PlaceMeaning(p, x, cells, at, temps + multiset{c});
      ghost var t := Denoted()[x];
      GraftGraft(t, at, den[c], den[c]);
      assert temps + One(Ref(c)) == temps + multiset{c};
      var was := Exchange(p, Ref(c), x, cells, at, temps);
      ghost var h := Snap();
      Unhold(was, temps);
      ghost var h' := Snap();
      CountedClosed(h', Refs(vars) + temps);
      Survives(h, den, h', den);
      ExclusiveSurvives(h, h', vars, temps, x, cells, at);
      ReslottedThen(old(Snap()), h, h', p, Ref(c));
      PlaceMeaning(p, x, cells, at, temps);
    }

    /** `make_shared` of an empty vector or map. */
    method NewEmpty(ghost p: Place, kind: Kind, ghost x: nat, ghost cells: seq<Cell>, ghost at: seq<nat>,
                    ghost temps: multiset<Cell>) returns (c: Cell)
      requires Good(temps) && Owned(x, cells, at) && Refers(p)
      modifies this`live, this`den
      ensures fresh(c) && live == old(live) + {c}
      ensures Good(temps + multiset{c}) && Owned(x, cells, at)
      ensures Snap() == old(Snap())[c := CellState(1, EmptyShape(kind), [])]
      ensures Refers(p) && Load(p) == old(Load(p)) && (p.Inside? ==> p.cell != c)
      ensures den == old(den)[c := Empty(kind)] && Denoted() == old(Denoted())
    {
      hide AllRefs, Tallies, Counted, MeansAt, Means, Exclusive;
      ghost var h := Snap();
      RefsNone([]);
      assert temps + Refs([]) == temps;
      c := NewCell(EmptyShape(kind), [], temps);
      HeldKeys(h, vars, x, cells, at);
      ExclusiveMoved(h, Snap(), vars, x, cells, at);
    }

    /** The cloning branch of `ensureUnique`. */
    method Unshare(p: Place, o: Cell, ghost x: nat, ghost cells: seq<Cell>, ghost at: seq<nat>,
                    ghost temps: multiset<Cell>)
      returns (c: Cell)
      requires Good(temps) && Owned(x, cells, at) && Leads(x, cells, at, p)
      requires Refers(p) && Load(p) == Ref(o) && o in live && o.count > 1
      modifies this, live
      ensures Good(temps) && Owned(x, cells, at) && Denoted() == old(Denoted())
      ensures Refers(p) && Load(p) == Ref(c) && c in live && c.count == 1 && den[c] == old(den[o])
      ensures x < |vars| == old(|vars|) && vars == if p.Inside? then old(vars) else old(vars)[x := vars[x]]
      ensures fresh(c) && Unshared(old(Snap()), Snap(), p, o, c)
      ensures forall e :: e in den && e in old(den) && e !in cells ==> den[e] == old(den)[e]
    {
      hide AllRefs, Tallies, Refs, Counted, MeansAt, Means, Sound, Good, Exclusive, Owned, SlotTree, SlotTrees, Leads,
           Refers, Load, Denoted, Reslotted, Unshared, SameNodes, One;
      HeldOnceAlone(x, cells, at);
      InsideLive(p);
      ghost var h := Snap();
      c := Clone(p, o, x, cells, at, temps);
      ghost var h1 := Snap();
      RefTree(o, den);
      Install(p, c, x, cells, at, temps);
      ClonedAndInstalled(h, h1, Snap(), p, o, c);
    }

    lemma HeldOnceAlone(x: nat, cells: seq<Cell>, at: seq<nat>)
      requires Owned(x, cells, at)
      ensures x < |vars| && forall c <- cells :: c in live && c.count == 1
    {}

    lemma InsideLive(p: Place)
      requires Refers(p)
      ensures p.Inside? ==> p.cell in live
    {}

    /** Assigning storage: the new value goes in, then the old one is dropped. */
    method Overwrite(p: Place, s: Slot, ghost x: nat, ghost cells: seq<Cell>, ghost at: seq<nat>,
                    ghost temps: multiset<Cell>)
      requires Good(temps + One(s)) && Owned(x, cells, at) && Leads(x, cells, at, p)
      modifies this, live
      ensures Good(temps) && Owned(x, cells, at) && Refers(p) && Load(p) == s
      ensures x < |vars| == old(|vars|) && vars == if p.Inside? then old(vars) else old(vars)[x := vars[x]]
      ensures live <= old(live) && |vars| == old(|vars|) && x < |vars| && Reaches(old(Denoted())[x], at)
      ensures Denoted() == old(Denoted())[x := Graft(old(Denoted())[x], at, SlotTree(s, old(den)))]
      ensures Reslotted(old(Snap()), Snap(), p, s) && forall c :: c in live ==> c.count <= old(c.count)
      ensures forall e :: e in den && e in old(den) && e !in cells ==> den[e] == old(den)[e]
    {
      hide AllRefs, Tallies, Refs, Counted, MeansAt, Exclusive, SlotTrees;
      PlaceMeaning(p, x, cells, at, temps + One(s));
      var was := Exchange(p, s, x, cells, at, temps);
      ghost var h := Snap();
      Drop(was, x, cells, at, temps);
      ReslottedThen(old(Snap()), h, Snap(), p, s);
      PlaceMeaning(p, x, cells, at, temps);
    }

    /** `setArray` or `setObject` with an empty container, and the null-pointer branch of
        `ensureUnique`: a new cell takes the place of what was there. */
    method Become(p: Place, kind: Kind, ghost x: nat, ghost cells: seq<Cell>, ghost at: seq<nat>,
                    ghost temps: multiset<Cell>) returns (c: Cell)
      requires Good(temps) && Owned(x, cells, at) && Leads(x, cells, at, p)
      modifies this, live
      ensures Good(temps) && Owned(x, cells, at) && Refers(p) && Load(p) == Ref(c)
      ensures c in live && c.count == 1 && c.shape == EmptyShape(kind) && c.kids == []
      ensures |vars| == old(|vars|) && x < |vars| && Reaches(old(Denoted())[x], at)
      ensures Denoted() == old(Denoted())[x := Graft(old(Denoted())[x], at, Empty(kind))]
      ensures x < |vars| == old(|vars|) && vars == if p.Inside? then old(vars) else old(vars)[x := vars[x]]
      ensures fresh(live - old(live))
      ensures c !in old(live) && live <= old(live) + {c} && Snap()[c] == Made(kind)
      ensures old(Refers(p)) && Reslotted(old(Snap()), Snap(), p, Ref(c))
      ensures forall e :: e in den && e in old(den) && e !in cells ==> den[e] == old(den)[e]
    {
      hide AllRefs, Tallies, Refs, Counted, MeansAt, Means, Exclusive, SlotTrees, Reslotted, Sound;
      PlaceMeaning(p, x, cells, at, temps);
      ghost var h := Snap();
      c := NewEmpty(p, kind, x, cells, at, temps);
      ghost var h1 := Snap();
      assert c in live && c.count == Snap()[c].count && c.kids == Snap()[c].kids && c.shape == Snap()[c].shape;
      assert temps + One(Ref(c)) == temps + multiset{c};
      Overwrite(p, Ref(c), x, cells, at, temps);
      PlaceMeaning(p, x, cells, at, temps);
      assert c.count == Snap()[c].count && c.kids == Snap()[c].kids && c.shape == Snap()[c].shape;
      CountsPositive(temps);
      NewInstalled(h, h1, Snap(), p, c, kind);
    }

    lemma CountsPositive(temps: multiset<Cell>)
      requires Good(temps)
      ensures forall c :: c in live ==> c.count > 0
    {}

    /** `ensureUniqueArray` and `ensureUniqueObject`: afterwards the container at the place has one
        holder.  A shared cell is replaced by a shallow clone, a null pointer by a new empty cell, and
        a cell with one holder stays.  A handle changes meaning only where a null pointer was. */
    method EnsureUnique(p: Place, ghost x: nat, ghost cells: seq<Cell>, ghost at: seq<nat>,
                    ghost temps: multiset<Cell>) returns (c: Cell)
      requires Good(temps) && Owned(x, cells, at) && Leads(x, cells, at, p)
      requires Refers(p) && !Load(p).Atom?
      modifies this, live
      ensures Good(temps) && Owned(x, cells, at)
      ensures Refers(p) && Load(p) == Ref(c) && c in live && c.count == 1
      ensures |vars| == old(|vars|) && x < |vars| && Reaches(old(Denoted())[x], at)
      ensures match old(Load(p))
        case Hollow(kind) =>
          && c.shape == EmptyShape(kind) && c.kids == []
          && Denoted() == old(Denoted())[x := Graft(old(Denoted())[x], at, Empty(kind))]
          && c !in old(live) && live <= old(live) + {c} && Snap()[c] == Made(kind)
          && Reslotted(old(Snap()), Snap(), p, Ref(c))
        case Ref(o) =>
          && Denoted() == old(Denoted())
          && o in old(live) && Unshared(old(Snap()), Snap(), p, o, c)
        case Atom(_) => true
      ensures x < |vars| == old(|vars|) && vars == if p.Inside? then old(vars) else old(vars)[x := vars[x]]
      ensures fresh(live - old(live))
      ensures forall e :: e in den && e in old(den) && e !in cells ==> den[e] == old(den)[e]
    {
      hide AllRefs, Tallies, Refs, Counted, MeansAt, Exclusive, SlotTrees;
      PlaceMeaning(p, x, cells, at, temps);
      match Load(p) {
        case Hollow(kind) =>
          c := Become(p, kind, x, cells, at, temps);
        case Ref(o) =>
          if o.count == 1 {
            c := o;
          } else {
            c := Unshare(p, o, x, cells, at, temps);
          }
      }
    }

    predicate IsA(s: Slot, kind: Kind)
      reads if s.Ref? then {s.cell} else {}
    {
      match s
      case Atom(_) => false
      case Hollow(k) => k == kind
      case Ref(c) => c.shape.Kind() == kind
    }

    /** The tag of a value is the kind of what it denotes. */
    lemma TagMeaning(p: Place, kind: Kind, temps: multiset<Cell>)
      requires Good(temps) && Refers(p) && (Load(p).Ref? ==> Load(p).cell in live)
      ensures IsA(Load(p), kind) <==>
        IsKind(SlotTree(Load(p), den), kind) || SlotTree(Load(p), den) == Vacant(kind)
      ensures Load(p).Hollow? ==> SlotTree(Load(p), den) == Vacant(Load(p).kind)
      ensures Load(p) == Atom(Null) <==> SlotTree(Load(p), den) == Leaf(Null)
      ensures Load(p).Ref? ==> var c := Load(p).cell;
        den[c] == Branch(c.shape, SlotTrees(c.kids, den))
      ensures IsContainer(Snap(), Load(p), kind) <==> Load(p).Ref? && IsA(Load(p), kind)
    {}

    /** The non-const `asArray` and `asObject`, and with `replace` the first line of `operator[]`
        and `pushBack`: null becomes an empty container, any other type throws or is replaced, and
        the container ends up with one holder. */
    method Container(p: Place, kind: Kind, replace: bool,
                     ghost x: nat, ghost cells: seq<Cell>, ghost at: seq<nat>,
                    ghost temps: multiset<Cell>)
      returns (r: Option<Cell>)
      requires Good(temps) && Owned(x, cells, at) && Leads(x, cells, at, p)
      modifies this, live
      ensures Good(temps) && Owned(x, cells, at) && Refers(p) && fresh(live - old(live))
      ensures |vars| == old(|vars|) && x < |vars| && Reaches(old(Denoted())[x], at)
      ensures var b := Promoted(Sub(old(Denoted())[x], at), kind, replace);
        && r.Some? == b.Some?
        && (r.Some? ==>
             && Load(p) == Ref(r.value) && r.value in live && r.value.count == 1
             && r.value.shape.Kind() == kind && r.value in den && den[r.value] == b.value
             && r.value.shape == b.value.shape && |r.value.kids| == |b.value.kids|
             && Denoted() == old(Denoted())[x := Graft(old(Denoted())[x], at, b.value)])
        && (r.None? ==> Denoted() == old(Denoted()))
      ensures forall e :: e in den && e in old(den) && e !in cells ==> den[e] == old(den)[e]
      ensures x < |vars| == old(|vars|) && vars == if p.Inside? then old(vars) else old(vars)[x := vars[x]]
      ensures old(Refers(p))
      ensures r.Some? ==> Contained(old(Snap()), Snap(), p, old(Load(p)), kind, r.value)
      ensures r.None? ==> Snap() == old(Snap()) && !IsContainer(old(Snap()), old(Load(p)), kind)
    {
      hide AllRefs, Tallies, Refs, Counted, MeansAt, Exclusive, SlotTrees, Means, Unshared, Sound, Reslotted;
      PlaceMeaning(p, x, cells, at, temps);
      TagMeaning(p, kind, temps);
      ghost var t := Denoted()[x];
      GraftGraft(t, at, Empty(kind), Empty(kind));
      if IsA(Load(p), kind) {
        var c := EnsureUnique(p, x, cells, at, temps);
        r := Some(c);
      } else if replace || Load(p) == Atom(Null) {
        var c := Become(p, kind, x, cells, at, temps);
        r := Some(c);
      } else {
        r := None;
      }
      PlaceMeaning(p, x, cells, at, temps);
      TagMeaning(p, kind, temps);
    }

    /** `std::map::operator[]` on the map of a cell reached exclusively. */
    method FindKey(c: Cell, step: Step, ghost x: nat, ghost cells: seq<Cell>, ghost at: seq<nat>)
      returns (pos: nat)
      requires Good(multiset{}) && x < |vars| && c in live && c.shape.ObjectShape? && !step.At?
      requires Spine(Snap(), vars[x], cells + [c], at) && HeldOnce(Snap(), cells + [c])
      modifies this`den, c
      ensures Good(multiset{}) && Spine(Snap(), vars[x], cells + [c], at) && HeldOnce(Snap(), cells + [c])
      ensures Reaches(old(Denoted())[x], at)
      ensures IsKind(old(den[c]), ObjectKind) && pos < |c.kids|
      ensures var e := EnterKey(old(den[c]), step.k);
        e.kid == Some(pos) && Denoted() == old(Denoted())[x := Graft(old(Denoted())[x], at, e.tree)]
      ensures pos == Index(old(Snap())[c], step) && Snap() == old(Snap())[c := Stepped(old(Snap())[c], step)]
    {
      hide AllRefs, Tallies, Refs, Counted, Stepped, Index;
      ghost var h := Snap();
      MeansHere(h, den, c);
      SteppedKey(h[c], step);
      SpineSub(h, den, vars[x], cells + [c], at);
      GraftGraft(Denoted()[x], at, den[c], den[c]);
      pos := LowerBound(c.shape.keys, step.k);
      if !HasKey(c.shape.keys, step.k) {
        InsertAscending(c.shape.keys, step.k);
        AtomInserted(h, Refs(vars) + multiset{}, c, ObjectShape(InsertAt(c.shape.keys, pos, step.k)), pos, Null);
        InsertKey(c, pos, step.k, x, cells, at);
      }
    }

    method InsertKey(c: Cell, pos: nat, k: string, ghost x: nat, ghost cells: seq<Cell>, ghost at: seq<nat>)
      requires Good(multiset{}) && x < |vars| && c in live && c.shape.ObjectShape?
      requires Spine(Snap(), vars[x], cells + [c], at) && HeldOnce(Snap(), cells + [c])
      requires pos <= |c.kids| && Ascending(InsertAt(c.shape.keys, pos, k))
      requires Counted(Snap()[c := CellState(c.count, ObjectShape(InsertAt(c.shape.keys, pos, k)),
                                             InsertAt(c.kids, pos, Atom(Null)))], Refs(vars) + multiset{})
      modifies this`den, c
      ensures Good(multiset{}) && Spine(Snap(), vars[x], cells + [c], at) && HeldOnce(Snap(), cells + [c])
      ensures pos < |c.kids| && Reaches(old(Denoted())[x], at)
      ensures old(den[c].Branch?) && pos <= old(|den[c].kids|)
      ensures Denoted() == old(Denoted())[x := Graft(old(Denoted())[x], at,
        Branch(ObjectShape(InsertAt(old(c.shape.keys), pos, k)), InsertAt(old(den[c].kids), pos, Leaf(Null))))]
      ensures Snap() == old(Snap())[c := CellState(old(c.count), ObjectShape(InsertAt(old(c.shape.keys), pos, k)),
                                                   InsertAt(old(c.kids), pos, Atom(Null)))]
    {
      hide AllRefs, Tallies, Refs, Counted, Means, HeldOnce, SlotTrees;
      ghost var h := Snap();
      MeansHere(h, den, c);
      ghost var kids' := InsertAt(c.kids, pos, Atom(Null));
      ghost var h', den' := NodeReplaced(h, den, vars, x, cells + [c], at,
                                         ObjectShape(InsertAt(c.shape.keys, pos, k)), kids', multiset{});
      TreesInsert(c.kids, pos, Atom(Null), den);
      c.shape := ObjectShape(InsertAt(c.shape.keys, pos, k));
      c.kids := InsertAt(c.kids, pos, Atom(Null));
      den := den';
      assert Snap() == h';
    }

    /** Reaching into a container held once: `std::map::operator[]` or `std::vector::at`. */
    method Locate(c: Cell, step: Step, ghost x: nat, ghost cells: seq<Cell>, ghost at: seq<nat>)
      returns (r: Option<Place>)
      requires Good(multiset{}) && x < |vars| && c in live
      requires c.shape.Kind() == step.Kind()
      requires Spine(Snap(), vars[x], cells + [c], at) && HeldOnce(Snap(), cells + [c])
      requires c in den && den[c].Branch? && den[c].shape == c.shape && |den[c].kids| == |c.kids|
      requires Reaches(Denoted()[x], at) && Sub(Denoted()[x], at) == den[c]
      modifies this`den, c
      ensures Good(multiset{}) && Reaches(old(Denoted())[x], at)
      ensures var e := EnterBranch(old(den[c]), step);
        && Denoted() == old(Denoted())[x := Graft(old(Denoted())[x], at, e.tree)]
        && r.Some? == e.kid.Some?
        && (r.Some? ==>
              && r.value == Inside(c, e.kid.value)
              && Owned(x, cells + [c], at + [e.kid.value])
              && Leads(x, cells + [c], at + [e.kid.value], r.value))
      ensures Spine(Snap(), vars[x], cells + [c], at) && HeldOnce(Snap(), cells + [c])
      ensures Snap() == old(Snap())[c := Stepped(old(Snap())[c], step)]
      ensures var i := Index(old(Snap())[c], step);
        if r.Some? then r.value == Inside(c, i) && i < |Snap()[c].kids| else i >= |Snap()[c].kids|
    {
      hide AllRefs, Tallies, Refs, Counted, Exclusive, SlotTrees, MeansAt, Means;
      match step {
        case At(i) =>
          GraftGraft(Denoted()[x], at, den[c], den[c]);
          if i < |c.kids| {
            SpineExclusive(Snap(), vars, x, cells, at, c, i);
            return Some(Inside(c, i));
          }
          return None;
        case _ =>
          var pos := FindKey(c, step, x, cells, at);
          SpineExclusive(Snap(), vars, x, cells, at, c, pos);
          return Some(Inside(c, pos));
      }
    }

    /** One call of a chain, on the value at place `p`: `operator[]`, `asObject()[k]` or
        `asArray().at(i)`.  It returns the place of the kid, or nothing when the call throws.  The
        container it went through, if it got that far, was unshared or newly made. */
    method Call(p: Place, step: Step, ghost x: nat, ghost cells: seq<Cell>, ghost at: seq<nat>)
      returns (r: Option<Place>, ghost on: Option<Cell>)
      requires Good(multiset{}) && Owned(x, cells, at) && Leads(x, cells, at, p)
      modifies this, live
      ensures Good(multiset{}) && |vars| == old(|vars|) && x < |vars| && Reaches(old(Denoted())[x], at)
      ensures var e := Enter(Sub(old(Denoted())[x], at), step);
        && Denoted() == old(Denoted())[x := Graft(old(Denoted())[x], at, e.tree)]
        && r.Some? == e.kid.Some?
        && (r.Some? ==>
              && on.Some?
              && Owned(x, cells + [on.value], at + [e.kid.value])
              && Leads(x, cells + [on.value], at + [e.kid.value], r.value))
      ensures x < |vars| == old(|vars|) && vars == if p.Inside? then old(vars) else old(vars)[x := vars[x]]
      ensures fresh(live - old(live)) && old(Refers(p))
      ensures match on
        case Some(c) =>
          var i := Index(Opened(old(Snap()), old(Load(p)), step), step);
          && Entered(old(Snap()), Snap(), p, old(Load(p)), step, c)
          && (forall e <- cells + [c] :: e in live) && c !in cells
          && Refers(p) && Load(p) == Ref(c)
          && (if r.Some? then r.value == Inside(c, i) && i < |Snap()[c].kids| else i >= |Snap()[c].kids|)
        case None =>
          && r.None? && Snap() == old(Snap()) && !Opens(old(Snap()), old(Load(p)), step)
          && forall e <- cells :: e in live
    {
      hide *;
      PlaceMeaning(p, x, cells, at, multiset{});
      ghost var t := Denoted()[x];
      GraftGraft(t, at, t, t);
      EnterParts(Sub(t, at), step);
      OpensContainer(Snap(), Load(p), step);
      OwnedLive(x, cells, at);
      ghost var h, s := Snap(), Load(p);
      var b := Container(p, step.Kind(), step.Key?, x, cells, at, multiset{});
      if b.None? {
        return None, None;
      }
      JoinPath(p, b.value, x, cells, at);
      GraftGraft(t, at, den[b.value], EnterBranch(den[b.value], step).tree);
      ghost var hm := Snap();
      HeldInside(p);
      LeadsCell(x, cells, at, p);
      JoinedDistinct(x, cells, b.value, at, multiset{});
      r := Locate(b.value, step, x, cells, at);
      HeldLive(cells + [b.value]);
      InsideHeld(p, Ref(b.value));
      ContainedThenStepped(h, hm, Snap(), p, s, step, b.value);
      on := Some(b.value);
    }

    lemma OwnedLive(x: nat, cells: seq<Cell>, at: seq<nat>)
      requires Owned(x, cells, at)
      ensures forall e <- cells :: e in live
    {}

    lemma HeldLive(cells: seq<Cell>)
      requires HeldOnce(Snap(), cells)
      ensures forall e <- cells :: e in live
    {}

    lemma JoinPath(p: Place, c: Cell, x: nat, cells: seq<Cell>, at: seq<nat>)
      requires Owned(x, cells, at) && Leads(x, cells, at, p) && Refers(p)
      requires Load(p) == Ref(c) && c in live && c.count == 1
      ensures x < |vars| && Spine(Snap(), vars[x], cells + [c], at) && HeldOnce(Snap(), cells + [c])
    {}

    lemma PlaceSetting(p: Place, temps: multiset<Cell>)
      requires Good(temps) && Refers(p) && (Load(p).Ref? ==> Load(p).cell in live)
      ensures Setting(Snap(), den, p, Load(p))
      ensures p.Inside? ==> p.cell in Snap() && p.i < |Snap()[p.cell].kids| && Load(p) == Snap()[p.cell].kids[p.i]
    {
      CountedClosed(Snap(), Refs(vars) + temps);
    }

    lemma HeldInside(p: Place)
      requires Refers(p)
      ensures match p
        case Handle(y) => y < |vars| && vars[y] == Load(p)
        case Inside(c, i) => c in Snap() && Holds(Snap()[c], i, Load(p))
    {}

    lemma InsideHeld(p: Place, s: Slot)
      requires match p
        case Handle(y) => y < |vars| && vars[y] == s
        case Inside(c, i) => c in Snap() && Holds(Snap()[c], i, s)
      ensures Refers(p) && Load(p) == s
    {}

    lemma LeadsCell(x: nat, cells: seq<Cell>, at: seq<nat>, p: Place)
      requires Leads(x, cells, at, p)
      ensures p.Inside? ==> p.cell in cells
    {}

    /** A whole chain of calls, each made on what the one before it returned.  It changes the handle
        it starts from, to what `Walk` says, and clones no more than `Minimal` says. */
    method Follow(p: Place, path: seq<Step>, ghost x: nat, ghost cells: seq<Cell>, ghost at: seq<nat>)
      returns (r: Option<Place>, ghost cells': seq<Cell>, ghost at': seq<nat>)
      requires Good(multiset{}) && Owned(x, cells, at) && Leads(x, cells, at, p)
      modifies this, live
      ensures Good(multiset{}) && |vars| == old(|vars|) && x < |vars| && Reaches(old(Denoted())[x], at)
      ensures var w := Walk(Sub(old(Denoted())[x], at), path);
        && Denoted() == old(Denoted())[x := Graft(old(Denoted())[x], at, w.tree)]
        && r.Some? == w.at.Some?
        && (r.Some? ==>
              && at' == at + w.at.value
              && Owned(x, cells', at') && Leads(x, cells', at', r.value))
      ensures x < |vars| == old(|vars|) && vars == if p.Inside? then old(vars) else old(vars)[x := vars[x]]
      ensures fresh(live - old(live))
      ensures old(Refers(p)) && cells <= cells' && forall e <- cells' :: e in live
      ensures |cells'| > |cells| ==> Refers(p) && Load(p) == Ref(cells'[|cells|])
      ensures path == [] ==> Snap() == old(Snap()) && vars == old(vars)
      ensures Minimal(old(Snap()), Snap(), p, old(Load(p)), path, cells'[|cells|..])
      ensures r.Some? ==> Refers(r.value) && Load(r.value) == End(old(Snap()), old(Load(p)), path)
      ensures r.Some? ==> |cells'| == |cells| + |path|
      ensures r.Some? && path == [] ==> r.value == p
      ensures r.Some? && path != [] ==>
        r.value == Inside(cells'[|cells'| - 1], LastIndex(old(Snap()), old(Load(p)), path))
      decreases |path|
    {
      hide *;
      PlaceMeaning(p, x, cells, at, multiset{});
      PlaceSetting(p, multiset{});
      ghost var t := Denoted()[x];
      ghost var h, d, s := Snap(), den, Load(p);
      ShortChain(h, s, path);
      OwnedLength(x, cells, at);
      if path == [] {
        WalkNone(Sub(t, at));
        GraftGraft(t, at, t, t);
        assert at + [] == at && cells[|cells|..] == [];
        MinimalNone(h, p, s, path);
        OwnedLive(x, cells, at);
        return Some(p), cells, at;
      }
      WalkStep(t, at, path);
      var q, on := Call(p, path[0], x, cells, at);
      if q.None? {
        if on.Some? {
          MinimalThrown(h, d, Snap(), p, s, on.value, path);
          assert (cells + [on.value])[|cells|..] == [on.value];
        } else {
          assert cells[|cells|..] == [];
          MinimalNone(h, p, s, path);
        }
        return None, if on.Some? then cells + [on.value] else cells, at;
      }
      ghost var i := Enter(Sub(t, at), path[0]).kid.value;
      PlaceMeaning(q.value, x, cells + [on.value], at + [i], multiset{});
      PlaceSetting(q.value, multiset{});
      ghost var h1 := Snap();
      HeldInside(p);
      LeadsCell(x, cells, at, p);
      ShortChain(h1, Load(q.value), path[1..]);
      r, cells', at' := Follow(q.value, path[1..], x, cells + [on.value], at + [i]);
      ghost var w := Walk(Sub(t, at), path);
      assert w.at.Some? ==> at + [i] + w.at.value[1..] == at + w.at.value;
      ghost var rest := cells'[|cells| + 1..];
      PrefixSnoc(cells, on.value, cells');
      if p.Inside? {
        HeadKept(h, d, h1, Snap(), p, s, on.value, path, rest);
      }
      InsideHeld(p, Ref(on.value));
      if rest != [] {
        HeldInside(q.value);
      }
      MinimalStep(h, d, h1, Snap(), p, s, on.value, path, rest);
    }

    // ---- Sources, actions and whole statements -----------------------------------------

    /** Two places that refer to one cell are two holders. */
    lemma TwoPlaces(p: Place, q: Place, o: Cell, temps: multiset<Cell>)
      requires Good(temps) && Refers(p) && Refers(q) && p != q && Load(p) == Ref(o) == Load(q)
      ensures o in live && o.count > 1
    {
      hide AllRefs, Refs, Means;
      ghost var h := Snap();
      assert o.count == h[o].count == AllRefs(h)[o] + Refs(vars)[o] + temps[o] by {
        SlotLive(p, temps);
      }
      RefsMember(vars, o);
      AllRefsMember(h, o);
      match (p, q) {
        case (Handle(x), Handle(y)) => RefsTwice(vars, if x < y then x else y, if x < y then y else x);
        case (Inside(a, i), Inside(b, k)) =>
          assert h[a].kids[i] in h[a].kids && h[b].kids[k] in h[b].kids;
          if a == b {
            RefsTwice(a.kids, if i < k then i else k, if i < k then k else i);
            AllRefsAt(h, a);
          } else {
            TwoHolders(h, a, b, o);
          }
        case (Handle(x), Inside(b, k)) => assert h[b].kids[k] in h[b].kids;
        case (Inside(a, i), Handle(y)) => assert h[a].kids[i] in h[a].kids;
      }
    }

    /** Copies of slots at other places do not make the cell at place `p` shared. */
    lemma NotCopied(p: Place, slots: seq<Slot>, from: seq<Place>)
      requires Good(multiset{}) && Refers(p) && Load(p).Ref? && |from| == |slots|
      requires forall i :: 0 <= i < |slots| ==> Refers(from[i]) && Load(from[i]) == slots[i] && from[i] != p
      ensures Load(p).cell in live && (Load(p).cell.count == 1 ==> Refs(slots)[Load(p).cell] == 0)
    {
      hide AllRefs, Refs, Tallies, Counted, Means;
      var o := Load(p).cell;
      SlotLive(p, multiset{});
      if o.count == 1 && o in Refs(slots) {
        RefsMember(slots, o);
        var i :| 0 <= i < |slots| && slots[i] == Ref(o);
        TwoPlaces(p, from[i], o, multiset{});
      }
    }

    lemma SlotLive(p: Place, temps: multiset<Cell>)
      requires Good(temps) && Refers(p)
      ensures Load(p).Ref? ==> Load(p).cell in live
    {
      hide AllRefs, Refs, Tallies, Counted, Means;
      RootsLive(Snap(), vars, temps);
      CountedClosed(Snap(), Refs(vars) + temps);
      if p.Inside? {
        assert p.cell.kids[p.i] in Snap()[p.cell].kids;
      }
    }

    /** The place refers to a cell that has no other holder. */
    ghost predicate Unique(p: Place)
      requires Refers(p)
      reads this, live
    {
      Load(p).Ref? && Load(p).cell in live && Load(p).cell.count == 1
    }

    /** Copying values that are off the exclusive path: the copies are temporaries.  A copy of what
        place `p` holds, and no other, makes that shared. */
    method CopySlots(slots: seq<Slot>, ghost from: seq<Place>, ghost p: Place, ghost taken: bool,
                     ghost x: nat, ghost cells: seq<Cell>, ghost at: seq<nat>)
      requires Good(multiset{}) && Owned(x, cells, at) && Refers(p) && |from| == |slots|
      requires forall i :: 0 <= i < |slots| ==> Refers(from[i]) && Load(from[i]) == slots[i]
      requires forall s <- slots :: s.Ref? ==> s.cell in live && s.cell !in cells
      requires if taken then Load(p) in slots else forall i :: 0 <= i < |from| ==> from[i] != p
      modifies live
      ensures Good(multiset{} + Refs(slots)) && Owned(x, cells, at)
      ensures SameNodes(old(Snap()), Snap()) && Refers(p) && Load(p) == old(Load(p))
      ensures Unique(p) <==> old(Unique(p)) && !taken
    {
      hide AllRefs, Tallies, Refs, Counted, Exclusive, MeansAt, Means;
      SlotLive(p, multiset{});
      if Load(p).Ref? {
        RefsMember(slots, Load(p).cell);
        if !taken {
          NotCopied(p, slots, from);
        }
      }
      CopyAll(slots, x, cells, at, multiset{});
    }

    ghost function Handles(ys: seq<nat>): (from: seq<Place>)
      ensures |from| == |ys| && forall i :: 0 <= i < |ys| ==> from[i] == Handle(ys[i])
    {
      seq(|ys|, i requires 0 <= i < |ys| => Handle(ys[i]))
    }

    /** Copying handles into a parameter. */
    method CopyHandles(ys: seq<nat>, ghost p: Place, ghost x: nat, ghost cells: seq<Cell>, ghost at: seq<nat>)
      returns (slots: seq<Slot>)
      requires Good(multiset{}) && Owned(x, cells, at) && Leads(x, cells, at, p) && Below(ys, |vars|)
      requires at == [] || x !in ys
      modifies live
      ensures Good(multiset{} + Refs(slots)) && Owned(x, cells, at) && slots == Select(vars, ys)
      ensures Denoted() == old(Denoted()) && SlotTrees(slots, den) == Select(Denoted(), ys)
      ensures SameNodes(old(Snap()), Snap()) && Refers(p) && Load(p) == old(Load(p))
      ensures Unique(p) <==> old(Unique(p)) && x !in ys
    {
      hide AllRefs, Tallies, Refs, Counted, Exclusive, MeansAt, Means;
      PlaceMeaning(p, x, cells, at, multiset{});
      slots := Select(vars, ys);
      RootsLive(Snap(), vars, multiset{});
      forall s | s in slots && s.Ref?
        ensures s.cell in live && s.cell !in cells
      {
        var i :| 0 <= i < |slots| && slots[i] == s;
        HandleOffPath(Snap(), vars, multiset{}, x, cells, at, ys[i]);
        assert vars[ys[i]] in vars;
      }
      if x in ys {
        var i :| 0 <= i < |ys| && ys[i] == x;
        assert slots[i] == vars[x];
      }
      OwnedLength(x, cells, at);
      CopySlots(slots, Handles(ys), p, x in ys, x, cells, at);
    }

    lemma OwnedLength(x: nat, cells: seq<Cell>, at: seq<nat>)
      requires Owned(x, cells, at)
      ensures |cells| == |at|
    {}

    /** A chain of const accesses: nothing changes, and a null pointer is read as an empty container.
        It returns the value found, or nothing when an access throws. */
    method Read(y: nat, looks: seq<Look>, ghost x: nat, ghost cells: seq<Cell>, ghost at: seq<nat>)
      returns (r: Option<Slot>, ghost from: Place)
      requires Good(multiset{}) && Owned(x, cells, at) && y < |vars|
      ensures r.Some? <==> Peek(Denoted()[y], looks).Some?
      ensures r.Some? ==>
        && SlotTree(r.value, den) == Peek(Denoted()[y], looks).value
        && Seen(Snap(), vars[y], looks) == r
        && Refers(from) && Load(from) == r.value && Spot(x, cells, at, y, Route(Denoted()[y], looks).value, from)
    {
      hide AllRefs, Tallies, Refs, Counted, Exclusive, MeansAt, Means, SlotTrees, Spot, Owned;
      from := Handle(y);
      SpotOf(x, cells, at, y);
      var s, i := vars[y], 0;
      ghost var a: seq<nat> := [];
      assert looks[0..] == looks;
      JoinedEnds(a, Route(Denoted()[y], looks));
      while i < |looks|
        invariant i <= |looks|
        invariant Refers(from) && Load(from) == s && Spot(x, cells, at, y, a, from)
        invariant Peek(Denoted()[y], looks) == Peek(SlotTree(s, den), looks[i..])
        invariant Route(Denoted()[y], looks) == Joined(a, Route(SlotTree(s, den), looks[i..]))
        invariant Seen(Snap(), vars[y], looks) == Seen(Snap(), s, looks[i..])
      {
        assert looks[i..][1..] == looks[i + 1..];
        SlotLive(from, multiset{});
        if s.Ref? {
          CellMeaning(s.cell, multiset{});
        }
        var pos := Position(s, looks[i]);
        if pos.None? {
          return None, from;
        }
        NextSpot(x, cells, at, y, a, from, pos.value);
        JoinedNext(a, pos.value, Route(SlotTree(s.cell.kids[pos.value], den), looks[i + 1..]));
        from, a := Inside(s.cell, pos.value), a + [pos.value];
        s := s.cell.kids[pos.value];
        i := i + 1;
      }
      JoinedEnds(a, None);
      return Some(s), from;
    }

    ghost function Joined(a: seq<nat>, r: Option<seq<nat>>): Option<seq<nat>> {
      if r.None? then None else Some(a + r.value)
    }

    lemma JoinedNext(a: seq<nat>, i: nat, r: Option<seq<nat>>)
      ensures r.Some? ==> Joined(a, Some([i] + r.value)) == Joined(a + [i], r)
    {
      if r.Some? {
        assert a + ([i] + r.value) == a + [i] + r.value;
      }
    }

    lemma JoinedEnds(a: seq<nat>, r: Option<seq<nat>>)
      ensures Joined([], r) == r && Joined(a, Some([])) == Some(a)
    {
      assert a + [] == a && (r.Some? ==> [] + r.value == r.value);
    }

    /** The place at depth `j` of an exclusive path. */
    ghost function OnPath(x: nat, cells: seq<Cell>, at: seq<nat>, j: nat): Place
      requires j <= |cells| == |at|
    {
      if j == 0 then Handle(x) else Inside(cells[j - 1], at[j - 1])
    }

    /** The place at index path `a` of handle `y` is one on an exclusive path exactly when `a` leads
        along it. */
    ghost predicate Spot(x: nat, cells: seq<Cell>, at: seq<nat>, y: nat, a: seq<nat>, q: Place) {
      && |cells| == |at|
      && if y == x && a <= at then q == OnPath(x, cells, at, |a|)
         else forall j :: 0 <= j <= |at| ==> q != OnPath(x, cells, at, j)
    }

    lemma SpotOf(x: nat, cells: seq<Cell>, at: seq<nat>, y: nat)
      requires Owned(x, cells, at)
      ensures Spot(x, cells, at, y, [], Handle(y))
    {}

    /** Every cell of an exclusive path is held at the place before it. */
    lemma PathPlace(x: nat, cells: seq<Cell>, at: seq<nat>, j: nat)
      requires Owned(x, cells, at) && j <= |cells|
      ensures |cells| == |at| && Refers(OnPath(x, cells, at, j))
      ensures j < |cells| ==> Load(OnPath(x, cells, at, j)) == Ref(cells[j]) && cells[j].count == 1
    {
      if 0 < j < |cells| {
        assert Link(Snap(), cells[j - 1], at[..|at| - 1][j - 1], cells[j]);
      }
    }

    /** A place that is not on an exclusive path, or is its end, holds none of its cells. */
    lemma SpotOff(x: nat, cells: seq<Cell>, at: seq<nat>, q: Place)
      requires Good(multiset{}) && Owned(x, cells, at) && Refers(q) && |cells| == |at|
      requires forall j :: 0 <= j < |at| ==> q != OnPath(x, cells, at, j)
      ensures Load(q).Ref? ==> Load(q).cell !in cells
    {
      hide AllRefs, Refs, Tallies, Counted, Means, Exclusive, Owned, OnPath;
      forall j | 0 <= j < |cells|
        ensures Load(q) != Ref(cells[j])
      {
        PathPlace(x, cells, at, j);
        if Load(q) == Ref(cells[j]) {
          TwoPlaces(OnPath(x, cells, at, j), q, cells[j], multiset{});
        }
      }
    }

    lemma NextSpot(x: nat, cells: seq<Cell>, at: seq<nat>, y: nat, a: seq<nat>, q: Place, i: nat)
      requires Good(multiset{}) && Owned(x, cells, at) && Refers(q) && Spot(x, cells, at, y, a, q)
      requires Load(q).Ref? && Load(q).cell in live && i < |Load(q).cell.kids|
      ensures Spot(x, cells, at, y, a + [i], Inside(Load(q).cell, i))
    {
      hide AllRefs, Refs, Tallies, Counted, Means, Exclusive, Owned;
      var c := Load(q).cell;
      OwnedDistinct(x, cells, at, multiset{});
      if y == x && a <= at && |a| < |at| {
        PathPlace(x, cells, at, |a|);
      } else {
        PlacesDiffer(x, cells, at);
        SpotOff(x, cells, at, q);
      }
    }

    lemma PlacesDiffer(x: nat, cells: seq<Cell>, at: seq<nat>)
      requires Good(multiset{}) && Owned(x, cells, at) && |cells| == |at|
      ensures forall j :: 0 <= j < |at| ==> OnPath(x, cells, at, |at|) != OnPath(x, cells, at, j)
    {
      hide AllRefs, Refs, Tallies, Counted, Means, Exclusive, Owned;
      OwnedDistinct(x, cells, at, multiset{});
    }

    function Position(s: Slot, look: Look): (r: Option<nat>)
      reads if s.Ref? then {s.cell} else {}
      ensures r.Some? ==> s.Ref? && r.value < |s.cell.kids|
      ensures s.Ref? ==> forall t: Tree | t.Branch? && t.shape == s.cell.shape && |t.kids| == |s.cell.kids| ::
        t.shape.Fits(|t.kids|) ==> LookAt(t, look) == r
    {
      if s.Ref? then LookIn(CellState(s.cell.count, s.cell.shape, s.cell.kids), look) else None
    }

    /** What the defaulted move constructor leaves in its source. */
    function Drain(s: Slot, leftText: string, leftBytes: seq<Byte>): Slot
      reads if s.Ref? then {s.cell} else {}
    {
      match s
      case Ref(c) => Hollow(c.shape.Kind())
      case _ => Scramble(s, leftText, leftBytes)
    }

    /** What the defaulted move assignment leaves in a value moved to itself. */
    function Scramble(s: Slot, leftText: string, leftBytes: seq<Byte>): Slot {
      match s
      case Atom(Text(_)) => Atom(Text(leftText))
      case Atom(Binary(_)) => Atom(Binary(leftBytes))
      case _ => s
    }

    /** A move-constructed parameter: the handle gives up its cell without a change of count. */
    method MoveHandle(y: nat, leftText: string, leftBytes: seq<Byte>,
                      ghost x: nat, ghost cells: seq<Cell>, ghost at: seq<nat>)
      returns (s: Slot)
      requires Good(multiset{}) && Owned(x, cells, at) && y < |vars| && (at == [] || x != y)
      modifies this`vars
      ensures Good(multiset{} + One(s)) && Owned(x, cells, at) && Snap() == old(Snap())
      ensures |vars| == old(|vars|) && SlotTree(s, den) == old(Denoted())[y]
      ensures Denoted() == old(Denoted())[y := Drained(old(Denoted())[y], leftText, leftBytes, true)]
      ensures vars == old(vars)[y := vars[y]] && !vars[y].Ref? && s == old(vars[y])
    {
      hide AllRefs, Tallies, Refs, Counted, MeansAt, Means, Spine;
      RootsLive(Snap(), vars, multiset{});
      assert vars[y] in vars;
      TagMeaning(Handle(y), ArrayKind, multiset{});
      var rest := Drain(vars[y], leftText, leftBytes);
      var none: multiset<Cell> := multiset{};
      assert none + One(rest) == none;
      s := SetHandle(y, rest, none);
    }

    /** Building a vector or map from copies of handles. */
    method BuildCell(shape: Shape, ys: seq<nat>, ghost p: Place, ghost x: nat, ghost cells: seq<Cell>,
                     ghost at: seq<nat>)
      returns (c: Cell)
      requires Good(multiset{}) && Owned(x, cells, at) && Leads(x, cells, at, p)
      requires Below(ys, |vars|) && shape.Fits(|ys|)
      requires at == [] || x !in ys
      modifies this`live, this`den, live
      ensures Good(multiset{} + One(Ref(c))) && Owned(x, cells, at) && fresh(c) && live == old(live) + {c}
      ensures Denoted() == old(Denoted())
      ensures SlotTree(Ref(c), den) == Branch(shape, Select(Denoted(), ys))
      ensures SameNodes(old(Snap()), Snap()) && Refers(p) && Load(p) == old(Load(p))
      ensures Snap()[c].shape == shape && Snap()[c].kids == Select(vars, ys)
      ensures Unique(p) <==> old(Unique(p)) && x !in ys
    {
      hide AllRefs, Tallies, Refs, Counted, Exclusive, MeansAt, Means, SlotTrees, Good, Sound, Unique, Select, Below,
           Leads;
      var slots := CopyHandles(ys, p, x, cells, at);
      ghost var h := Snap();
      SlotLive(p, multiset{} + Refs(slots));
      UniqueIs(p);
      c := NewCell(shape, slots, multiset{});
      UniqueIs(p);
      HeldKeys(h, vars, x, cells, at);
      ExclusiveMoved(h, Snap(), vars, x, cells, at);
      assert forall e :: e in h ==> Snap()[e] == h[e];
    }

    /** The same as a value that a statement stores. */
    method BuildValue(shape: Shape, ys: seq<nat>, ghost p: Place, ghost x: nat, ghost cells: seq<Cell>,
                      ghost at: seq<nat>)
      returns (r: Option<Slot>, ghost made: set<Cell>)
      requires Good(multiset{}) && Owned(x, cells, at) && Leads(x, cells, at, p)
      requires Below(ys, |vars|) && shape.Fits(|ys|)
      requires at == [] || x !in ys
      modifies this`live, this`den, live
      ensures r.Some? && Good(multiset{} + One(r.value)) && Owned(x, cells, at) && fresh(live - old(live))
      ensures Denoted() == old(Denoted())
      ensures SlotTree(r.value, den) == Branch(shape, Select(Denoted(), ys))
      ensures fresh(made) && |made| <= 1 && Evaluated(old(Snap()), Snap(), made)
      ensures IsNew(r.value, made, Snap(), shape, Select(vars, ys))
      ensures Refers(p) && Load(p) == old(Load(p))
      ensures Unique(p) <==> old(Unique(p)) && x !in ys
    {
      hide *;
      ghost var h := Snap();
      var c := BuildCell(shape, ys, p, x, cells, at);
      EvaluatedOne(h, Snap(), c);
      NewIs(Snap(), c, shape, Select(vars, ys));
      return Some(Ref(c)), {c};
    }

    /** The source takes what the handle itself refers to. */
    /** A copy-constructed parameter. */
    method CopyHandle(y: nat, ghost p: Place, ghost x: nat, ghost cells: seq<Cell>, ghost at: seq<nat>)
      returns (s: Slot)
      requires Good(multiset{}) && Owned(x, cells, at) && Leads(x, cells, at, p) && y < |vars| && (at == [] || x != y)
      modifies live
      ensures Good(multiset{} + One(s)) && Owned(x, cells, at)
      ensures Denoted() == old(Denoted()) && SlotTree(s, den) == Denoted()[y] && s == vars[y]
      ensures SameNodes(old(Snap()), Snap()) && Refers(p) && Load(p) == old(Load(p))
      ensures Unique(p) <==> old(Unique(p)) && x != y
    {
      hide AllRefs, Tallies, Refs, Counted, Exclusive, MeansAt, Means, SlotTrees, Sound, Owned, Leads, Unique;
      var slots := CopyHandles([y], p, x, cells, at);
      s := vars[y];
      assert slots == [s];
      RefsOne(s);
    }

    /** A parameter copied from what a chain of const accesses finds. */
    method CopyElement(y: nat, looks: seq<Look>, ghost p: Place, ghost x: nat, ghost cells: seq<Cell>,
                       ghost at: seq<nat>)
      returns (r: Option<Slot>)
      requires Good(multiset{}) && Owned(x, cells, at) && Leads(x, cells, at, p) && y < |vars|
      requires var a := Route(Denoted()[y], looks); y == x && a.Some? && a.value <= at ==> a.value == at
      modifies live
      ensures Owned(x, cells, at) && Denoted() == old(Denoted())
      ensures r.Some? <==> Peek(Denoted()[y], looks).Some?
      ensures r.Some? ==>
        && Good(multiset{} + One(r.value)) && SlotTree(r.value, den) == Peek(Denoted()[y], looks).value
        && Seen(old(Snap()), vars[y], looks) == r
      ensures r.None? ==> Good(multiset{}) && Snap() == old(Snap())
      ensures SameNodes(old(Snap()), Snap()) && Refers(p) && Load(p) == old(Load(p))
      ensures r.Some? ==> (Unique(p) <==> old(Unique(p)) && !(y == x && Route(Denoted()[y], looks) == Some(at)))
    {
      hide AllRefs, Tallies, Refs, Counted, Exclusive, MeansAt, Means, SlotTrees, Sound, Unique, Spot, Owned, Leads,
           Seen, Peek, Route;
      PlaceMeaning(p, x, cells, at, multiset{});
      OwnedLength(x, cells, at);
      ghost var from;
      r, from := Read(y, looks, x, cells, at);
      if r.Some? {
        ghost var taken := y == x && Route(Denoted()[y], looks) == Some(at);
        SpotClear(x, cells, at, y, Route(Denoted()[y], looks).value, from, p);
        SlotLive(from, multiset{});
        CopySlots([r.value], [from], p, taken, x, cells, at);
        RefsOne(r.value);
      }
    }

    /** A place that does not lie above the end of an exclusive path holds none of its cells. */
    lemma SpotClear(x: nat, cells: seq<Cell>, at: seq<nat>, y: nat, a: seq<nat>, q: Place, p: Place)
      requires Good(multiset{}) && Owned(x, cells, at) && Leads(x, cells, at, p) && Refers(q)
      requires Spot(x, cells, at, y, a, q) && (y == x && a <= at ==> a == at)
      ensures Load(q).Ref? ==> Load(q).cell !in cells
      ensures q == p <==> y == x && a == at
    {
      hide AllRefs, Refs, Tallies, Counted, Means, Exclusive, Owned;
      assert p == OnPath(x, cells, at, |at|);
      PlacesDiffer(x, cells, at);
      SpotOff(x, cells, at, q);
    }

    /** Evaluating the source of a store: the new value is a temporary; nothing when a const access
        throws.  No node changes, and only a copy of the value at place `p` makes that shared. */
    method Evaluate(src: Source, ghost p: Place, ghost x: nat, ghost cells: seq<Cell>, ghost at: seq<nat>)
      returns (r: Option<Slot>, ghost made: set<Cell>)
      requires Good(multiset{}) && Owned(x, cells, at) && Leads(x, cells, at, p)
      requires x < |vars| && InScope(src, |vars|) && Clear(Denoted(), x, at, src)
      modifies this, live
      ensures Owned(x, cells, at) && |vars| == old(|vars|)
      ensures r.Some? <==> Readable(old(Denoted()), src)
      ensures r.Some? ==>
        && Good(multiset{} + One(r.value)) && SlotTree(r.value, den) == SourceTree(old(Denoted()), src)
        && Denoted() == AfterSource(old(Denoted()), src, true)
      ensures r.None? ==> Good(multiset{}) && Denoted() == old(Denoted()) && Snap() == old(Snap())
      ensures fresh(made) && |made| <= 1 && (made != {} ==> r.Some? && (src.ArrayOf? || src.ObjectOf?))
      ensures Evaluated(old(Snap()), Snap(), made)
      ensures vars == if src.MoveOf? then old(vars)[src.y := vars[src.y]] else old(vars)
      ensures r.Some? ==> Gives(old(Snap()), old(vars), src, r.value, made, Snap())
      ensures Refers(p) && old(Refers(p))
      ensures r.Some? ==> (Unique(p) <==> old(Unique(p)) && !TakesAt(old(Denoted()), x, at, src))
      ensures !(src.MoveOf? && Names(x, src)) ==> Load(p) == old(Load(p))
      ensures src.MoveOf? && Names(x, src) ==> !Load(p).Ref?
    {
      hide AllRefs, Tallies, Refs, Counted, Exclusive, MeansAt, Means, SlotTrees, Sound, Good, Owned, Peek, Drained,
           Select, Seen, IsNew, Clear, TakesAt, Route, Names, Evaluated, SameNodes;
      ghost var h := Snap();
      ClearCases(Denoted(), x, at, src);
      PlaceMeaning(p, x, cells, at, multiset{});
      OwnedLength(x, cells, at);
      made := {};
      match src {
        case Lit(a) =>
          assert multiset{} + One(Atom(a)) == multiset{};
          r := Some(Atom(a));
          EvaluatedNone(h, Snap());
        case CopyOf(y) =>
          var s := CopyHandle(y, p, x, cells, at);
          r := Some(s);
          EvaluatedNone(h, Snap());
        case CopyFrom(y, looks) =>
          r := CopyElement(y, looks, p, x, cells, at);
          EvaluatedNone(h, Snap());
        case MoveOf(y, text, bytes) =>
          var s := MoveHandle(y, text, bytes, x, cells, at);
          r := Some(s);
          EvaluatedNone(h, Snap());
        case ArrayOf(ys) =>
          r, made := BuildValue(ArrayShape, ys, p, x, cells, at);
        case ObjectOf(keys, ys) =>
          r, made := BuildValue(ObjectShape(keys), ys, p, x, cells, at);
      }
    }

    /** `std::vector::push_back` of a temporary on the vector of a cell held once. */
    method Append(c: Cell, s: Slot, ghost x: nat, ghost cells: seq<Cell>, ghost at: seq<nat>)
      requires Good(multiset{} + One(s)) && x < |vars| && c in live && c.shape.ArrayShape?
      requires Spine(Snap(), vars[x], cells + [c], at) && HeldOnce(Snap(), cells + [c])
      modifies this`den, c`kids
      ensures Good(multiset{}) && Reaches(old(Denoted())[x], at)
      ensures old(c in den && den[c].Branch?)
      ensures Denoted() == old(Denoted())[x := Graft(old(Denoted())[x], at,
        Branch(ArrayShape, old(den[c].kids) + [SlotTree(s, old(den))]))]
      ensures var st := old(Snap())[c]; Snap() == old(Snap())[c := CellState(st.count, st.shape, st.kids + [s])]
    {
      hide AllRefs, Tallies, Refs, Counted, Means, HeldOnce, SlotTrees, One;
      ghost var h := Snap();
      MeansHere(h, den, c);
      assert Refs(vars) + (multiset{} + One(s)) == (Refs(vars) + multiset{}) + One(s);
      KidAppended(h, Refs(vars) + multiset{}, c, s);
      ghost var h', den' := NodeReplaced(h, den, vars, x, cells + [c], at, c.shape, c.kids + [s], multiset{});
      TreesAppend(c.kids, s, den);
      c.kids := c.kids + [s];
      den := den';
      assert Snap() == h';
    }

    /** A temporary refers to no cell on an exclusive path, since those have one holder. */
    lemma TempOffPath(s: Slot, x: nat, cells: seq<Cell>, at: seq<nat>)
      requires Good(multiset{} + One(s)) && Owned(x, cells, at) && s.Ref?
      ensures s.cell in live && s.cell in den && s.cell !in cells
    {
      hide AllRefs, Tallies, Refs;
      var temps := multiset{} + One(s);
      assert s.cell in temps;
      RootsLive(Snap(), vars, temps);
      forall j | 0 <= j < |cells|
        ensures cells[j] != s.cell
      {
        PathHeld(Snap(), vars, temps, x, cells, at, j);
      }
    }

    /** `pushBack`: the parameter is held by value while a value of another type is replaced, and
        while a shared vector is cloned.  The vector is cloned exactly when it is shared then, by the
        parameter too. */
    method Push(p: Place, s: Slot, ghost x: nat, ghost cells: seq<Cell>, ghost at: seq<nat>)
      returns (ghost on: Cell)
      requires Good(multiset{} + One(s)) && Owned(x, cells, at) && Leads(x, cells, at, p)
      modifies this, live
      ensures Good(multiset{}) && |vars| == old(|vars|) && x < |vars| && Reaches(old(Denoted())[x], at)
      ensures Denoted() == old(Denoted())[x := Graft(old(Denoted())[x], at,
        Perform(PushBack, Sub(old(Denoted())[x], at), SlotTree(s, old(den))))]
      ensures x < |vars| == old(|vars|) && vars == if p.Inside? then old(vars) else old(vars)[x := vars[x]]
      ensures fresh(live - old(live))
      ensures old(Refers(p)) && Grown(old(Snap()), Snap(), p, old(Load(p)), s, on)
      ensures Refers(p) && Load(p) == Ref(on)
      ensures on !in cells && forall e <- cells :: e in live
    {
      hide *;
      PlaceMeaning(p, x, cells, at, multiset{} + One(s));
      ghost var t, v, d := Denoted()[x], SlotTree(s, den), den;
      ghost var h, s0 := Snap(), Load(p);
      PerformPush(Sub(t, at), v);
      if s.Ref? {
        TempOffPath(s, x, cells, at);
      }
      var b := Container(p, ArrayKind, true, x, cells, at, multiset{} + One(s));
      if s.Ref? {
        TempOffPath(s, x, cells, at);
      }
      SameSlot(s, d, den);
      GraftGraft(t, at, den[b.value], Branch(ArrayShape, den[b.value].kids + [v]));
      JoinPath(p, b.value, x, cells, at);
      JoinedDistinct(x, cells, b.value, at, multiset{} + One(s));
      IsArrayShape(b.value.shape);
      ghost var hm := Snap();
      HeldInside(p);
      LeadsCell(x, cells, at, p);
      Append(b.value, s, x, cells, at);
      InsideHeld(p, Ref(b.value));
      GrownAfter(h, hm, Snap(), p, s0, s, b.value);
      on := b.value;
    }

    lemma IsArrayShape(shape: Shape)
      ensures shape.Kind() == ArrayKind <==> shape.ArrayShape?
    {}

    lemma JoinedDistinct(x: nat, cells: seq<Cell>, c: Cell, at: seq<nat>, temps: multiset<Cell>)
      requires Good(temps) && x < |vars| && Spine(Snap(), vars[x], cells + [c], at) && HeldOnce(Snap(), cells + [c])
      ensures c !in cells && forall e <- cells :: e in live
    {
      forall j | 0 <= j < |cells|
        ensures cells[j] != c && cells[j] in live
      {
        SpineDistinct(Snap(), den, vars[x], cells + [c], at, j, |cells|);
      }
    }

    lemma OwnedDistinct(x: nat, cells: seq<Cell>, at: seq<nat>, temps: multiset<Cell>)
      requires Good(temps) && Owned(x, cells, at)
      ensures forall i, j :: 0 <= i < j < |cells| ==> cells[i] != cells[j]
    {
      forall i, j | 0 <= i < j < |cells|
        ensures cells[i] != cells[j]
      {
        SpineDistinct(Snap(), den, vars[x], cells, at[..|at| - 1], i, j);
      }
    }

    /** Storing a temporary at a place: an assignment, or `pushBack`. */
    method Put(p: Place, action: Action, s: Slot, ghost x: nat, ghost cells: seq<Cell>, ghost at: seq<nat>)
      returns (ghost grown: seq<Cell>)
      requires Good(multiset{} + One(s)) && Owned(x, cells, at) && Leads(x, cells, at, p)
      modifies this, live
      ensures Good(multiset{}) && |vars| == old(|vars|) && x < |vars| && Reaches(old(Denoted())[x], at)
      ensures Denoted() == old(Denoted())[x := Graft(old(Denoted())[x], at,
        Perform(action, Sub(old(Denoted())[x], at), SlotTree(s, old(den))))]
      ensures x < |vars| == old(|vars|) && vars == if p.Inside? then old(vars) else old(vars)[x := vars[x]]
      ensures fresh(live - old(live)) && old(Refers(p)) && Refers(p) && Load(p) == InPlace(s, grown)
      ensures ReslottedBut(old(Snap()), Snap(), p, InPlace(s, grown), grown)
      ensures forall e :: e in live ==> e in old(live) || e in grown
      ensures forall e <- cells :: e in live && e !in grown
      ensures match action
        case Assign => grown == []
        case PushBack => |grown| == 1 && Grown(old(Snap()), Snap(), p, old(Load(p)), s, grown[0])
    {
      hide AllRefs, Refs, Tallies, Counted, MeansAt, Means, SlotTrees, Sound, Grown, Leads, Exclusive;
      PlaceMeaning(p, x, cells, at, multiset{} + One(s));
      match action {
        case Assign =>
          Overwrite(p, s, x, cells, at, multiset{});
          OwnedLive(x, cells, at);
          grown := [];
        case PushBack =>
          ghost var h, s0 := Snap(), Load(p);
          ghost var on := Push(p, s, x, cells, at);
          GrownOthers(h, Snap(), p, s0, s, on);
          grown := [on];
      }
    }

    /** `v = std::move(v)`. */
    method MoveToItself(x: nat, leftText: string, leftBytes: seq<Byte>)
      requires Valid() && x < |vars|
      modifies this`vars
      ensures Valid() && |vars| == old(|vars|) && Snap() == old(Snap()) && vars == old(vars)[x := vars[x]]
      ensures Denoted() == old(Denoted())[x := Scrambled(old(Denoted())[x], leftText, leftBytes)]
    {
      hide AllRefs, Refs, Tallies, Counted, MeansAt, Means;
      ghost var none: multiset<Cell> := multiset{};
      TagMeaning(Handle(x), ArrayKind, none) by {
        SlotLive(Handle(x), none);
      }
      if vars[x].Atom? {
        var s := Scramble(vars[x], leftText, leftBytes);
        assert none + One(s) == none;
        var was := SetHandle(x, s, none);
        assert none + One(was) == none;
      }
    }

    /** The second half of a write: the source, and the store at the place reached.  `mid` is the heap
        between the two, in which the place holds `there`. */
    method EvaluateAndPut(p: Place, action: Action, src: Source, ghost x: nat, ghost cells: seq<Cell>,
                          ghost at: seq<nat>)
      returns (ok: bool, ghost made: set<Cell>, ghost grown: seq<Cell>, ghost v: Slot,
               ghost mid: Heap, ghost there: Slot)
      requires Good(multiset{}) && Owned(x, cells, at) && Leads(x, cells, at, p)
      requires x < |vars| && InScope(src, |vars|) && Clear(Denoted(), x, at, src)
      modifies this, live
      ensures Good(multiset{}) && |vars| == old(|vars|) && x < |vars| && fresh(live - old(live))
      ensures forall y :: 0 <= y < |vars| && (y != x || p.Inside?) && !(src.MoveOf? && src.y == y) ==>
        vars[y] == old(vars)[y]
      ensures ok <==> Readable(old(Denoted()), src)
      ensures !ok ==> Denoted() == old(Denoted()) && Snap() == old(Snap())
      ensures ok ==> Reaches(old(Denoted())[x], at) && Denoted() == Stored(old(Denoted()), x, at, action, src, true)
      ensures old(Refers(p)) && Refers(p) && fresh(made)
      ensures ok ==>
        && Load(p) == InPlace(v, grown) && Gives(old(Snap()), old(vars), src, v, made, Snap())
        && Finished(old(Snap()), mid, Snap(), p, action, cells, made, grown, old(Load(p)), there,
                    TakesAt(old(Denoted()), x, at, src), src.MoveOf? && Names(x, src), v)
    {
      hide *;
      PlaceMeaning(p, x, cells, at, multiset{});
      ghost var h1, vars1, trees, loaded := Snap(), vars, Denoted(), Load(p);
      made, grown, v, mid, there := {}, [], Atom(Null), h1, Atom(Null);
      UniqueIs(p);
      InsideLive(p);
      var s;
      s, made := Evaluate(src, p, x, cells, at);
      mid := Snap();
      EvaluatedKeys(h1, mid, made);
      if s.None? {
        return false, made, grown, v, mid, there;
      }
      SlotLive(p, multiset{} + One(s.value));
      there := Load(p);
      UniqueIs(p);
      v := s.value;
      grown := Put(p, action, s.value, x, cells, at);
      StoredIs(trees, x, at, action, src, true);
      PutFinished(p, action, src, v, grown, h1, vars1, mid, loaded, there, made, cells, x, TakesAt(trees, x, at, src));
      ok := true;
    }

    lemma PutFinished(p: Place, action: Action, src: Source, v: Slot, grown: seq<Cell>, h1: Heap, vars1: seq<Slot>,
                      mid: Heap, loaded: Slot, there: Slot, made: set<Cell>, cells: seq<Cell>, x: nat, taken: bool)
      requires Good(multiset{}) && Refers(p) && Load(p) == InPlace(v, grown) && (p.Inside? ==> p.cell in h1)
      requires InScope(src, |vars1|) && Gives(h1, vars1, src, v, made, mid) && Evaluated(h1, mid, made)
      requires ReslottedBut(mid, Snap(), p, InPlace(v, grown), grown)
      requires forall e :: e in live ==> e in mid || e in grown
      requires forall e <- cells :: e in live && e !in grown
      requires if action.PushBack? then |grown| == 1 && Grown(mid, Snap(), p, there, v, grown[0]) else grown == []
      requires if src.MoveOf? && Names(x, src) then !there.Ref? else there == loaded
      requires there.Ref? ==>
        && there.cell in mid && there.cell in h1
        && (mid[there.cell].count == 1 <==> h1[there.cell].count == 1 && !taken)
      ensures Gives(h1, vars1, src, v, made, Snap())
      ensures Finished(h1, mid, Snap(), p, action, cells, made, grown, loaded, there, taken,
                       src.MoveOf? && Names(x, src), v)
    {
      hide *;
      GivesOne(h1, vars1, src, v, made, mid);
      PutHeld(p, action, v, grown, mid, there, made);
      if action.PushBack? {
        GrownNotMade(h1, mid, Snap(), p, there, v, grown[0], made);
      }
      HeldInside(p);
      MadeKept(h1, mid, Snap(), p, InPlace(v, grown), grown, made);
      GivesLater(h1, vars1, src, v, made, mid, Snap());
      FinishedIs(h1, mid, Snap(), p, action, cells, made, grown, loaded, there, taken,
                 src.MoveOf? && Names(x, src), v);
    }

    /** A new cell that was stored is live. */
    lemma PutHeld(p: Place, action: Action, v: Slot, grown: seq<Cell>, mid: Heap, there: Slot, made: set<Cell>)
      requires Good(multiset{}) && Refers(p) && Load(p) == InPlace(v, grown)
      requires made != {} ==> v.Ref? && made == {v.cell}
      requires if action.PushBack? then |grown| == 1 && Grown(mid, Snap(), p, there, v, grown[0]) else grown == []
      ensures forall c :: c in made ==> c in live
    {
      hide AllRefs, Refs, Tallies, Counted, Means, Sound, Good, Grown;
      SlotLive(p, multiset{});
      if action.PushBack? {
        GrownHolds(mid, Snap(), p, there, v, grown[0]);
        LiveKids(grown[0], multiset{});
      }
    }

    /** A write, after the source of an assignment is known not to throw: a chain of calls, the source,
        and the store. */
    method StoreAt(x: nat, path: seq<Step>, action: Action, src: Source)
      returns (ok: bool, ghost now: seq<Cell>, ghost made: set<Cell>, ghost grown: seq<Cell>, ghost v: Slot,
               ghost walked: Heap)
      requires Valid() && x < |vars| && InScope(src, |vars|) && Outside(x, path, action, src)
      requires !SelfMove(x, path, action, src) && (action.Assign? ==> Readable(Denoted(), src))
      modifies this, live
      ensures Valid() && |vars| == old(|vars|) && fresh(live - old(live))
      ensures forall y :: 0 <= y < |vars| && y != x && !(src.MoveOf? && src.y == y) ==> vars[y] == old(vars)[y]
      ensures (Denoted(), ok) == Written(old(Denoted()), x, path, action, src, true)
      ensures Accounted(old(Snap()), Snap(), old(vars[x]), vars[x], path, action, ok, now, made, grown, v)
      ensures
        if ok then Supplied(old(Snap()), old(vars), walked, vars, Snap(), x, path, src, now, v, made) else made == {}
      ensures ok && action.PushBack? ==>
        var h, s := old(Snap()), old(vars[x]); var was := Met(h, s, path);
        Pushed(h, Snap(), End(h, s, path), BeforeShared(h, was) == |was|, Takes(x, path, src),
               src.MoveOf? && Names(x, src), v, grown[0])
    {
      hide *;
      ghost var t, h, vars0 := Denoted()[x], Snap(), vars;
      WrittenSteps(Denoted(), x, path, action, src, true);
      StartOfPath(x);
      ValidIsGood();
      HandlesLive();
      var p, cells, at := Follow(Handle(x), path, x, [], []);
      now, made, grown, v, walked := cells, {}, [], Atom(Null), Snap();
      assert cells[0..] == cells;
      GraftHere(t, Walk(t, path).tree);
      ValidIsGood();
      HandleLoads(x);
      if p.None? {
        AccountedThrown(h, Snap(), x, vars0[x], vars[x], path, action, now, v);
        return false, now, made, grown, v, walked;
      }
      assert at == Walk(t, path).at.value;
      OutsideHere(x, path, action, src);
      PathClear(Denoted(), t, x, path, action, src);
      ghost var h1, vars1 := Snap(), vars;
      OffPathSeen(x, cells, at, src, h, path, vars0, vars0[x]);
      ghost var mid, there;
      ok, made, grown, v, mid, there := EvaluateAndPut(p.value, action, src, x, cells, at);
      ValidIsGood();
      HandleLoads(x);
      if ok {
        AccountedAndPushed(h, h1, mid, Snap(), x, vars0[x], vars[x], path, action, now, p.value, made, grown, there,
                           Takes(x, path, src), src.MoveOf? && Names(x, src), v);
        SuppliedIs(h, vars0, h1, vars1, Snap(), vars, x, path, action, src, now, v, made);
      } else {
        made, grown := {}, [];
        AccountedThrown(h, h1, x, vars0[x], vars[x], path, action, now, v);
      }
    }

    lemma HandleLoads(x: nat)
      requires x < |vars|
      ensures Refers(Handle(x)) && Load(Handle(x)) == vars[x]
    {}

    lemma LiveClosed(temps: multiset<Cell>)
      requires Good(temps)
      ensures Closed(Snap())
    {
      CountedClosed(Snap(), Refs(vars) + temps);
    }

    lemma HandlesLive()
      requires Good(multiset{})
      ensures Closed(Snap()) && forall y :: 0 <= y < |vars| && vars[y].Ref? ==> vars[y].cell in Snap()
    {
      hide AllRefs, Refs, Tallies, Counted, Means;
      LiveClosed(multiset{});
      RootsLive(Snap(), vars, multiset{});
    }

    /** What a source sees through another handle is the same before and after a chain of calls. */
    lemma OffPathSeen(x: nat, cells: seq<Cell>, at: seq<nat>, src: Source, h: Heap, path: seq<Step>, vars0: seq<Slot>,
                      s0: Slot)
      requires Good(multiset{}) && Owned(x, cells, at) && InScope(src, |vars|) && |vars0| == |vars|
      requires Minimal(h, Snap(), Handle(x), s0, path, cells) && Closed(h)
      requires forall y :: 0 <= y < |vars| && vars0[y].Ref? ==> vars0[y].cell in h
      requires forall y :: 0 <= y < |vars| && y != x ==> vars[y] == vars0[y]
      ensures src.CopyFrom? && src.y != x ==> Seen(Snap(), vars0[src.y], src.looks) == Seen(h, vars0[src.y], src.looks)
    {
      hide AllRefs, Refs, Tallies, Counted, Means, Owned, Exclusive, Seen, Good;
      if src.CopyFrom? && src.y != x {
        var y := src.y;
        var kept := cells[..BeforeShared(h, Met(h, s0, path))];
        assert OthersKept(h, Snap(), Handle(0), kept);
        HandlesLive();
        HandleOff(x, cells, at, y);
        forall e, k | e in Snap() && e !in cells && k in Snap()[e].kids && k.Ref?
          ensures k.cell !in cells
        {
          KidsOffPath(e, x, cells, at, multiset{});
        }
        SeenSame(h, Snap(), kept, cells, vars[y], src.looks);
      }
    }

    lemma HandleOff(x: nat, cells: seq<Cell>, at: seq<nat>, y: nat)
      requires Good(multiset{}) && Owned(x, cells, at) && y < |vars| && y != x
      ensures forall c <- cells :: vars[y] != Ref(c)
    {
      HandleOffPath(Snap(), vars, multiset{}, x, cells, at, y);
    }

    lemma UniqueIs(p: Place)
      requires Refers(p)
      ensures Unique(p) <==> Load(p).Ref? && Load(p).cell in Snap() && Snap()[Load(p).cell].count == 1
    {}

    lemma ValidIsGood()
      ensures Valid() <==> Good(multiset{})
    {}

    lemma StartOfPath(x: nat)
      requires x < |vars|
      ensures Owned(x, [], []) && Leads(x, [], [], Handle(x)) && Refers(Handle(x)) && Load(Handle(x)) == vars[x]
    {}

    /** One statement that writes: a chain of calls on a handle, then an assignment to, or a
        `pushBack` on, the value it reaches.  The result says whether no call threw.  The containers on
        the path are cloned from the first shared one on, once each, into a chain of distinct cells; the
        vector that `pushBack` grows is cloned if it is shared then; what is stored is the very slot
        that the source gives; and no other cell is made, but one for a new array or object, or
        changed. */
    method WriteAt(x: nat, path: seq<Step>, action: Action, src: Source)
      returns (ok: bool, ghost now: seq<Cell>, ghost made: set<Cell>, ghost grown: seq<Cell>, ghost v: Slot,
               ghost walked: Heap)
      requires Valid() && x < |vars| && InScope(src, |vars|) && Outside(x, path, action, src)
      modifies this, live
      ensures Valid() && |vars| == old(|vars|) && fresh(live - old(live))
      ensures forall y :: 0 <= y < |vars| && y != x && !(src.MoveOf? && src.y == y) ==> vars[y] == old(vars)[y]
      ensures (Denoted(), ok) == Written(old(Denoted()), x, path, action, src, true)
      ensures Skips(old(Denoted()), x, path, action, src) ==> Snap() == old(Snap())
      ensures !Skips(old(Denoted()), x, path, action, src) ==>
        && Accounted(old(Snap()), Snap(), old(vars[x]), vars[x], path, action, ok, now, made, grown, v)
        && if ok then Supplied(old(Snap()), old(vars), walked, vars, Snap(), x, path, src, now, v, made) else made == {}
      ensures !Skips(old(Denoted()), x, path, action, src) && ok && action.PushBack? ==>
        var h, s := old(Snap()), old(vars[x]); var was := Met(h, s, path);
        Pushed(h, Snap(), End(h, s, path), BeforeShared(h, was) == |was|, Takes(x, path, src),
               src.MoveOf? && Names(x, src), v, grown[0])
    {
      hide AllRefs, Refs, Tallies, Counted, MeansAt, Means, SlotTrees, Walk, Accounted, Pushed, Gives, Stored,
           Peek, Met, Sound;
      now, made, grown, v, walked := [], {}, [], Atom(Null), Snap();
      if src.MoveOf? && src.y == x && path == [] && action.Assign? {
        MoveToItself(x, src.leftText, src.leftBytes);
        return true, now, made, grown, v, walked;
      }
      if action.Assign? && src.CopyFrom? {
        StartOfPath(x);
        var found, _ := Read(src.y, src.looks, x, [], []);
        if found.None? {
          return false, now, made, grown, v, walked;
        }
      }
      ok, now, made, grown, v, walked := StoreAt(x, path, action, src);
    }

    /** One statement of a program. */
    method Execute(cmd: Command)
      requires Valid() && Legal(|vars|, cmd)
      modifies this, live
      ensures Valid() && fresh(live - old(live))
      ensures Denoted() == Effect(old(Denoted()), cmd, true)
      ensures Values() == Effect(old(Values()), cmd, false)
    {
      hide AllRefs, Refs, Tallies, Counted, MeansAt, Means, Written, Walk, Minimal, Accounted, Pushed, Flat;
      FlatEffect(Denoted(), cmd);
      match cmd {
        case Declare =>
          RefsAppend(vars, [Atom(Null)]);
          RefsOne(Atom(Null));
          ghost var h := Snap();
          assert Refs(vars + [Atom(Null)]) == Refs(vars);
          vars := vars + [Atom(Null)];
          assert Snap() == h;
        case Call(x, path) =>
          StartOfPath(x);
          GraftHere(Denoted()[x], Walk(Denoted()[x], path).tree);
          var _, _, _ := Follow(Handle(x), path, x, [], []);
        case Write(x, path, action, src) =>
          var _, _, _, _, _, _ := WriteAt(x, path, action, src);
      }
    }

    /** Copy-on-write refines value semantics: after any legal program a reader sees through the
        handles what the same program leaves in a world where every handle owns its tree, and null
        pointers are where the program's moves and copies put them. */
    method Run(cs: seq<Command>)
      requires Valid() && LegalRun(|vars|, cs)
      modifies this, live
      ensures Valid()
      ensures Values() == EffectOfRun(old(Values()), cs, false)
      ensures Denoted() == EffectOfRun(old(Denoted()), cs, true)
    {
      hide AllRefs, Refs, Tallies, Counted, MeansAt, Means, Written, Walk, SlotTrees, Sound, Good, Snap, Flat;
      var i := 0;
      assert cs[0..] == cs;
      while i < |cs|
        invariant i <= |cs| && Valid() && fresh(live - old(live))
        invariant LegalRun(|vars|, cs[i..])
        invariant EffectOfRun(Denoted(), cs[i..], true) == EffectOfRun(old(Denoted()), cs, true)
      {
        assert cs[i..][1..] == cs[i + 1..];
        Execute(cs[i]);
        i := i + 1;
      }
      FlatRun(old(Denoted()), cs);
    }

    /** An exclusive path is a chain of references from its handle to its last cell. */
    lemma PathChain(x: nat, cells: seq<Cell>, at: seq<nat>)
      requires Good(multiset{}) && Owned(x, cells, at) && at != []
      ensures LinkedFrom(Snap(), vars[x], cells, cells[|at| - 1])
      ensures forall j :: 0 <= j < |at| - 1 ==> cells[j] != cells[|at| - 1]
    {
      hide AllRefs, Refs, Tallies, Counted, MeansAt;
      ghost var n := |at| - 1;
      forall j | 0 <= j < n
        ensures Ref(cells[j + 1]) in Snap()[cells[j]].kids && cells[j] != cells[n]
      {
        assert Link(Snap(), cells[j], at[..n][j], cells[j + 1]);
        SpineDistinct(Snap(), den, vars[x], cells, at[..n], j, n);
      }
    }
  }
}
