/** What value semantics does not cover: storing a value at a place inside itself.  The
    path returns a reference into a cell that the handle holds alone; the value is taken only then,
    so the cell is not cloned, and what is stored closes a cycle. */
module SelfReference {
  import opened Wrappers
  import opened Trees
  import opened Cells
  import opened Meaning
  import opened Ownership
  import opened Semantics
  import opened Conservation
  import opened Cloning
  import opened ValueStore

  /** Each cell refers to the next one, and none but the last is `c`. */
  ghost predicate Chain(h: Heap, cells: seq<Cell>, c: Cell) {
    && cells != [] && cells[|cells| - 1] == c
    && (forall j :: 0 <= j < |cells| ==> cells[j] in h)
    && (forall j :: 0 <= j < |cells| - 1 ==> Ref(cells[j + 1]) in h[cells[j]].kids)
    && forall j :: 0 <= j < |cells| - 1 ==> cells[j] != c
  }

  /** The value `s` is, or is a new container `tail` that holds, a reference to cell `root`. */
  ghost predicate Carries(h: Heap, root: Cell, tail: seq<Cell>, s: Slot) {
    if tail == [] then s == Ref(root)
    else |tail| == 1 && s == Ref(tail[0]) && tail[0] in h && Ref(root) in h[tail[0]].kids
  }

  ghost function AsSet(cells: seq<Cell>): set<Cell> {
    set c | c in cells
  }

  /** The chain and the value cannot be freed while something holds the value. */
  lemma ChainSupported(h: Heap, ext: multiset<Cell>, cells: seq<Cell>, c: Cell, tail: seq<Cell>, s: Slot)
    requires Chain(h, cells, c) && Carries(h, cells[0], tail, s)
    requires s.cell in ext || Ref(s.cell) in h[c].kids
    ensures Supported(h, ext, AsSet(cells + tail))
  {
    var keep := AsSet(cells + tail);
    assert forall j :: 0 <= j < |cells| ==> (cells + tail)[j] == cells[j];
    assert tail != [] ==> (cells + tail)[|cells|] == tail[0];
    assert c in keep && s.cell in keep;
    forall e | e in keep && e !in ext
      ensures exists b :: b in keep && b in h && Ref(e) in h[b].kids
    {
      if e == s.cell {
        assert c in h && Ref(e) in h[c].kids;
      } else if e == cells[0] {
        assert tail[0] in keep && Ref(e) in h[tail[0]].kids;
      } else {
        var j :| 0 <= j < |cells + tail| && (cells + tail)[j] == e;
        assert cells[j - 1] in keep && Ref(cells[j - 1 + 1]) in h[cells[j - 1]].kids;
      }
    }
  }

  /** Writing another element of the last cell leaves the chain as it is. */
  lemma ChainRewritten(h: Heap, cells: seq<Cell>, c: Cell, tail: seq<Cell>, s: Slot, node: CellState)
    requires Chain(h, cells, c) && Carries(h, cells[0], tail, s) && (tail != [] ==> tail[0] != c)
    ensures Chain(h[c := node], cells, c) && Carries(h[c := node], cells[0], tail, s)
  {}

  /** And so does a release that frees none of it. */
  lemma ChainKept(h: Heap, h': Heap, cells: seq<Cell>, c: Cell, tail: seq<Cell>, s: Slot)
    requires Chain(h, cells, c) && Carries(h, cells[0], tail, s)
    requires SameNodes(h, h') && AsSet(cells + tail) <= h'.Keys
    ensures Chain(h', cells, c) && Carries(h', cells[0], tail, s)
  {}

  ghost function Rewritten(node: CellState, i: nat, s: Slot): CellState
    requires i < |node.kids|
  {
    CellState(node.count, node.shape, node.kids[i := s])
  }

  /** Overwriting one element of a vector or map, seen from the counts alone. */
  method StoreKid(st: Store, c: Cell, i: nat, s: Slot, ghost temps: multiset<Cell>) returns (was: Slot)
    requires st.Sound(temps + One(s)) && c in st.live && i < |c.kids|
    modifies c`kids
    ensures st.Sound(temps + One(was)) && was == old(c.kids[i]) && c.kids == old(c.kids)[i := s]
    ensures st.Snap() == old(st.Snap())[c := Rewritten(old(st.Snap())[c], i, s)]
  {
    hide AllRefs, Tallies, Refs, Counted;
    ghost var h, ext := st.Snap(), Refs(st.vars) + temps;
    RefsUpdate(c.kids, i, s);
    assert Refs(st.vars) + (temps + One(s)) == ext + One(s);
    Rewired(h, ext, c, c.shape, c.kids[i := s], One(c.kids[i]), One(s));
    was := c.kids[i];
    c.kids := c.kids[i := s];
    assert st.Snap() == h[c := CellState(c.count, c.shape, c.kids)];
    assert Refs(st.vars) + (temps + One(was)) == ext + One(was);
  }

  /** After the write, the chain and the value can stand a release. */
  lemma ChainReady(h0: Heap, h: Heap, ext: multiset<Cell>, cells: seq<Cell>, c: Cell, tail: seq<Cell>, s: Slot,
                   node: CellState, new_: Slot)
    requires Chain(h0, cells, c) && Carries(h0, cells[0], tail, s) && (tail != [] ==> tail[0] != c)
    requires h == h0[c := node] && new_ in node.kids
    requires s == new_ || (s.Ref? && s.cell in ext)
    ensures Chain(h, cells, c) && Carries(h, cells[0], tail, s)
    ensures Supported(h, ext, AsSet(cells + tail)) && AsSet(cells + tail) <= h.Keys
  {
    hide Supported;
    ChainRewritten(h0, cells, c, tail, s, node);
    ChainSupported(h, ext, cells, c, tail, s);
  }

  /** Dropping a value beside a chain that is held. */
  method DropBeside(st: Store, was: Slot, ghost cells: seq<Cell>, ghost c: Cell, ghost tail: seq<Cell>, ghost s: Slot,
                    ghost temps: multiset<Cell>)
    requires st.Sound(temps + One(was)) && Chain(st.Snap(), cells, c) && Carries(st.Snap(), cells[0], tail, s)
    requires Supported(st.Snap(), Refs(st.vars) + temps, AsSet(cells + tail)) && AsSet(cells + tail) <= st.live
    modifies st`live, st.live
    ensures st.Sound(temps) && st.live <= old(st.live) && c in st.live
    ensures Chain(st.Snap(), cells, c) && Carries(st.Snap(), cells[0], tail, s)
    ensures SameNodes(old(st.Snap()), st.Snap()) && forall e :: e in st.live ==> e.count <= old(e.count)
  {
    hide AllRefs, Refs, Tallies, Counted, Store.Sound, Supported, Chain, Carries, AsSet, One;
    ghost var h := st.Snap();
    st.Release(was, temps, AsSet(cells + tail));
    ChainKept(h, st.Snap(), cells, c, tail, s);
    ChainInHeap(st.Snap(), cells, c, tail, s);
  }

  /** Assignment to element `i` of the last cell of a chain, and the drop of what was there.  The
      value `s` of the whole write is held by a temporary, or is what is assigned. */
  method PutKid(st: Store, c: Cell, i: nat, new_: Slot, ghost cells: seq<Cell>, ghost tail: seq<Cell>, ghost s: Slot,
                ghost temps: multiset<Cell>)
    requires st.Sound(temps + One(new_)) && c in st.live && i < |c.kids|
    requires Chain(st.Snap(), cells, c) && Carries(st.Snap(), cells[0], tail, s) && (tail != [] ==> tail[0] != c)
    requires s == new_ || (s.Ref? && s.cell in temps)
    modifies st`live, st.live
    ensures st.Sound(temps) && st.live <= old(st.live)
    ensures Chain(st.Snap(), cells, c) && Carries(st.Snap(), cells[0], tail, s)
    ensures c in st.live && i < |old(st.Snap())[c].kids|
    ensures SameNodes(old(st.Snap())[c := Rewritten(old(st.Snap())[c], i, new_)], st.Snap())
    ensures forall e :: e in st.live ==> e.count <= old(e.count)
  {
    assert cells != [] && c.kids == st.Snap()[c].kids;
    hide AllRefs, Refs, Tallies, Counted, Store.Sound, Supported, Chain, Carries, AsSet, One, Store.Snap, SameNodes;
    ghost var h0 := st.Snap();
    var was := StoreKid(st, c, i, new_, temps);
    ghost var node := Rewritten(h0[c], i, new_);
    assert new_ == node.kids[i];
    ChainReady(h0, st.Snap(), Refs(st.vars) + temps, cells, c, tail, s, node, new_);
    DropBeside(st, was, cells, c, tail, s, temps);
  }

  lemma ValueIsRef(h: Heap, root: Cell, tail: seq<Cell>, s: Slot)
    requires Carries(h, root, tail, s)
    ensures s.Ref?
  {}

  lemma ChainInHeap(h: Heap, cells: seq<Cell>, c: Cell, tail: seq<Cell>, s: Slot)
    requires Chain(h, cells, c) && Carries(h, cells[0], tail, s)
    ensures AsSet(cells + tail) <= h.Keys && c in h && s.Ref? && s.cell in h
  {}

  /** A path that leads inside a handle's value is a chain from the handle to the cell written. */
  method Reach(st: Store, x: nat, path: seq<Step>)
    returns (p: Option<(Cell, nat)>, ghost cells: seq<Cell>, ghost at: seq<nat>)
    requires st.Valid() && x < |st.vars| && path != []
    modifies st, st.live
    ensures st.Valid() && fresh(st.live - old(st.live)) && x < |st.vars| == old(|st.vars|)
    ensures var w := Walk(old(st.Denoted())[x], path);
      (p.Some? <==> w.at.Some?) && st.Denoted() == old(st.Denoted())[x := w.tree]
    ensures p.Some? ==> var (c, i) := p.value;
      && c in st.live && i < |c.kids| && Chain(st.Snap(), cells, c)
      && |cells| == |path| && st.vars[x] == Ref(cells[0])
      && st.Owned(x, cells, at) && Some(at) == Walk(old(st.Denoted())[x], path).at
  {
    hide AllRefs, Refs, Tallies, Counted, MeansAt, Means, SlotTrees, Walk, Store.Sound, Minimal, Chain;
    ghost var t := st.Denoted()[x];
    GraftHere(t, Walk(t, path).tree);
    WalkLength(t, path);
    var q;
    q, cells, at := st.Follow(Handle(x), path, x, [], []);
    if q.None? {
      return None, cells, at;
    }
    assert at == Walk(t, path).at.value;
    st.PathChain(x, cells, at);
    ChainFrom(st.Snap(), st.vars[x], cells, at);
    return Some((q.value.cell, q.value.i)), cells, at;
  }

  lemma ChainFrom(h: Heap, root: Slot, cells: seq<Cell>, at: seq<nat>)
    requires at != [] && |cells| == |at| && LinkedFrom(h, root, cells, cells[|at| - 1])
    requires forall j :: 0 <= j < |at| - 1 ==> cells[j] != cells[|at| - 1]
    ensures Chain(h, cells, cells[|at| - 1]) && root == Ref(cells[0])
  {}

  /** Taking the value: a copy of the handle, the handle's own content, or a new array or object that
      holds a copy. */
  method Take(st: Store, x: nat, src: Source, ghost root: Cell) returns (s: Slot, ghost tail: seq<Cell>)
    requires st.Valid() && x < |st.vars| && st.vars[x] == Ref(root) && InScope(src, |st.vars|) && Names(x, src)
    modifies st, st.live
    ensures st.Sound(multiset{} + One(s)) && Carries(st.Snap(), root, tail, s)
    ensures fresh(st.live - old(st.live)) && old(st.live) <= st.live && SameNodes(old(st.Snap()), st.Snap())
    ensures forall e <- tail :: e !in old(st.live)
  {
    hide AllRefs, Refs, Tallies, Counted, MeansAt, Means, SlotTrees;
    RootsLive(st.Snap(), st.vars, multiset{});
    assert st.vars[x] in st.vars;
    tail := [];
    ghost var none: multiset<Cell> := multiset{};
    match src {
      case CopyOf(_) =>
        s := st.vars[x];
        st.Retain(s, none);
      case MoveOf(_, text, bytes) =>
        var rest := st.Drain(st.vars[x], text, bytes);
        assert none + One(rest) == none;
        s := st.SetHandle(x, rest, none);
      case ArrayOf(ys) =>
        var n := Collect(st, x, ArrayShape, ys, root);
        s, tail := Ref(n), [n];
      case ObjectOf(keys, ys) =>
        var n := Collect(st, x, ObjectShape(keys), ys, root);
        s, tail := Ref(n), [n];
    }
  }

  /** A new array or object of copies of handles, `x` among them. */
  method Collect(st: Store, ghost x: nat, shape: Shape, ys: seq<nat>, ghost root: Cell) returns (n: Cell)
    requires st.Valid() && x < |st.vars| && st.vars[x] == Ref(root)
    requires Below(ys, |st.vars|) && x in ys && shape.Fits(|ys|)
    modifies st`live, st.live
    ensures st.Sound(multiset{} + One(Ref(n))) && n !in old(st.live) && st.live == old(st.live) + {n}
    ensures fresh(n) && SameNodes(old(st.Snap()), st.Snap()) && Ref(root) in st.Snap()[n].kids
  {
    hide AllRefs, Refs, Tallies, Counted, MeansAt, Means, SlotTrees;
    var slots := Select(st.vars, ys);
    RootsLive(st.Snap(), st.vars, multiset{});
    forall s | s in slots && s.Ref?
      ensures s.cell in st.live
    {
      var i :| 0 <= i < |slots| && slots[i] == s;
      assert st.vars[ys[i]] in st.vars;
    }
    st.RetainAll(slots, multiset{});
    ghost var h := st.Snap();
    n := st.MakeCell(shape, slots, multiset{});
    ghost var i :| 0 <= i < |ys| && ys[i] == x;
    assert slots[i] == Ref(root);
    assert forall e :: e in h ==> st.Snap()[e] == h[e];
  }

  /** A new array: a clone of the shared one in a slot, or an empty one where there is none. */
  method NewArray(st: Store, was: Slot, ghost temps: multiset<Cell>) returns (a: Cell)
    requires st.Sound(temps) && (was.Ref? ==> was.cell in st.live)
    modifies st`live, st.live
    ensures st.Sound(temps + One(Ref(a))) && fresh(a) && a !in old(st.live) && st.live == old(st.live) + {a}
    ensures SameNodes(old(st.Snap()), st.Snap()) && a.count == 1 && a.shape == ArrayShape
    ensures a.kids == if IsContainer(old(st.Snap()), was, ArrayKind) then old(st.Snap())[was.cell].kids else []
  {
    hide AllRefs, Refs, Tallies, Counted, Store.Sound;
    assert forall e: Cell :: temps + One(Ref(e)) == temps + multiset{e};
    if was.Ref? && st.IsA(was, ArrayKind) {
      var o := was.cell;
      ElementsLive(st, o, temps);
      CountsPositive(st, temps);
      st.RetainAll(o.kids, temps);
      a := st.MakeCell(o.shape, o.kids, temps);
    } else {
      RefsNone([]);
      assert temps + Refs([]) == temps;
      a := st.MakeCell(ArrayShape, [], temps);
    }
    assert a.count == st.Snap()[a].count && a.shape == st.Snap()[a].shape && a.kids == st.Snap()[a].kids;
  }

  /** `setArray`, where the element is no array, and `ensureUniqueArray`, seen from the counts: the
      element is an array with one holder, with the elements it had or none. */
  method ArrayAt(st: Store, c: Cell, i: nat, ghost cells: seq<Cell>, ghost tail: seq<Cell>, ghost s: Slot,
                 ghost temps: multiset<Cell>)
    returns (a: Cell)
    requires st.Sound(temps) && c in st.live && i < |c.kids| && s.Ref? && s.cell in temps
    requires Chain(st.Snap(), cells, c) && Carries(st.Snap(), cells[0], tail, s) && (tail != [] ==> tail[0] != c)
    modifies st`live, st.live
    ensures st.Sound(temps) && Chain(st.Snap(), cells, c) && Carries(st.Snap(), cells[0], tail, s)
    ensures c in st.live && i < |c.kids| && c.kids[i] == Ref(a)
    ensures a in st.live && a.shape.ArrayShape? && a.count == 1
    ensures a.kids == if IsContainer(old(st.Snap()), old(c.kids[i]), ArrayKind)
                      then old(st.Snap())[old(c.kids[i]).cell].kids else []
    ensures fresh(st.live - old(st.live))
  {
    hide AllRefs, Refs, Tallies, Counted, Chain, Carries, Store.Sound;
    ElementLive(st, c, i, temps);
    if c.kids[i].Ref? && st.IsA(c.kids[i], ArrayKind) && c.kids[i].cell.count == 1 {
      return c.kids[i].cell;
    }
    a := NewArray(st, c.kids[i], temps);
    ghost var made := st.Snap();
    ChainStays(old(st.Snap()), st.Snap(), cells, c, tail, s);
    assert c.kids == st.Snap()[c].kids == old(st.Snap())[c].kids;
    PutKid(st, c, i, Ref(a), cells, tail, s, temps);
    ElementLive(st, c, i, temps);
    CountsPositive(st, temps);
    assert a != c && a.kids == st.Snap()[a].kids && a.shape == st.Snap()[a].shape;
  }

  lemma CountsPositive(st: Store, temps: multiset<Cell>)
    requires st.Sound(temps)
    ensures forall c <- st.live :: c.count > 0 && c.shape.Fits(|c.kids|)
  {}

  lemma ChainStays(h: Heap, h': Heap, cells: seq<Cell>, c: Cell, tail: seq<Cell>, s: Slot)
    requires Chain(h, cells, c) && Carries(h, cells[0], tail, s) && h.Keys <= h'.Keys && SameNodes(h, h')
    ensures Chain(h', cells, c) && Carries(h', cells[0], tail, s)
  {}

  lemma ElementsLive(st: Store, c: Cell, temps: multiset<Cell>)
    requires st.Sound(temps) && c in st.live
    ensures forall s <- c.kids :: s.Ref? ==> s.cell in st.live
  {
    hide AllRefs, Refs, Tallies, Counted;
    CountedClosed(st.Snap(), Refs(st.vars) + temps);
    assert c.kids == st.Snap()[c].kids;
  }

  lemma ElementLive(st: Store, c: Cell, i: nat, temps: multiset<Cell>)
    requires st.Sound(temps) && c in st.live && i < |c.kids|
    ensures c.kids[i].Ref? ==> c.kids[i].cell in st.live
  {
    hide AllRefs, Refs, Tallies, Counted, Store.Sound;
    ElementsLive(st, c, temps);
    assert c.kids[i] in c.kids;
  }

  /** `vector::push_back` of a temporary, seen from the counts. */
  method AppendKid(st: Store, a: Cell, s: Slot)
    requires st.Sound(multiset{} + One(s)) && a in st.live && a.shape.ArrayShape?
    modifies a`kids
    ensures st.Sound(multiset{}) && a.kids == old(a.kids) + [s]
  {
    hide AllRefs, Refs, Tallies, Counted;
    ghost var h := st.Snap();
    RefsAppend(a.kids, [s]);
    RefsOne(s);
    ghost var none: multiset<Cell> := multiset{};
    assert Refs(st.vars) + (none + One(s)) == Refs(st.vars) + One(s);
    assert Refs(a.kids + [s]) + none == Refs(a.kids) + One(s);
    Rewired(h, Refs(st.vars), a, a.shape, a.kids + [s], none, One(s));
    a.kids := a.kids + [s];
    assert st.Snap() == h[a := CellState(a.count, a.shape, a.kids)];
    assert Refs(st.vars) + none == Refs(st.vars);
  }

  /** A chain whose last cell holds the value is a loop. */
  lemma LoopClosed(h: Heap, cells: seq<Cell>, c: Cell, tail: seq<Cell>, s: Slot)
    requires Chain(h, cells, c) && Carries(h, cells[0], tail, s) && s in h[c].kids
    ensures IsCycle(h, cells + tail)
  {}

  /** And so is one whose last cell holds an array that holds the value. */
  lemma LongLoopClosed(h: Heap, h': Heap, cells: seq<Cell>, c: Cell, a: Cell, tail: seq<Cell>, s: Slot)
    requires Chain(h, cells, c) && Carries(h, cells[0], tail, s) && Ref(a) in h[c].kids && a in h
    requires h'.Keys == h.Keys && h'[a].kids == h[a].kids + [s]
    requires forall e :: e in h && e != a ==> h'[e].kids == h[e].kids
    ensures IsCycle(h', cells + [a] + tail)
  {}

  /** Copying an element that lies above the place a chain of calls reached. */
  method TakeElement(st: Store, x: nat, looks: seq<Look>, ghost cells: seq<Cell>, ghost at: seq<nat>)
    returns (s: Slot)
    requires st.Valid() && st.Owned(x, cells, at) && x < |st.vars| && |looks| < |cells|
    requires var a := Route(st.Denoted()[x], looks); a.Some? && a.value <= at
    modifies st.live
    ensures st.Sound(multiset{} + One(s)) && s == Ref(cells[|looks|]) && SameNodes(old(st.Snap()), st.Snap())
  {
    hide AllRefs, Refs, Tallies, Counted, MeansAt, Means, SlotTrees, Store.Owned, Store.OnPath;
    var r, from := st.Read(x, looks, x, cells, at);
    st.PathPlace(x, cells, at, |looks|);
    st.SlotLive(from, multiset{});
    s := r.value;
    st.Retain(s, multiset{});
  }

  /** The part of a chain from one of its cells on is a chain. */
  lemma ChainBelow(h: Heap, cells: seq<Cell>, c: Cell, k: nat)
    requires Chain(h, cells, c) && k < |cells|
    ensures cells[k..] != [] && cells[k..][0] == cells[k] && Chain(h, cells[k..], c)
  {
    forall j | 0 <= j < |cells| - k - 1
      ensures Ref(cells[k..][j + 1]) in h[cells[k..][j]].kids
    {
      assert Ref(cells[k + j + 1]) in h[cells[k + j]].kids;
    }
  }

  /** How many calls of the path come before the source. */
  ghost function Depth(src: Source): nat {
    if src.CopyFrom? then |src.looks| else 0
  }

  /** The source of a write that is not legal, after the path: it is, or is a new container that holds,
      a reference to a cell of the chain. */
  method TakeAbove(st: Store, x: nat, path: seq<Step>, action: Action, src: Source, ghost t: Tree, ghost c: Cell,
                   ghost cells: seq<Cell>, ghost at: seq<nat>)
    returns (s: Slot, ghost tail: seq<Cell>)
    requires st.Valid() && x < |st.vars| && st.Owned(x, cells, at) && InScope(src, |st.vars|)
    requires !Outside(x, path, action, src) && (src.CopyFrom? ==> action.PushBack?)
    requires Walk(t, path).at == Some(at) && st.Denoted()[x] == Walk(t, path).tree && |cells| == |path|
    requires Chain(st.Snap(), cells, c) && st.vars[x] == Ref(cells[0])
    modifies st, st.live
    ensures Depth(src) < |cells| && st.Sound(multiset{} + One(s))
    ensures Chain(st.Snap(), cells[Depth(src)..], c) && Carries(st.Snap(), cells[Depth(src)], tail, s)
    ensures fresh(st.live - old(st.live)) && old(st.live) <= st.live && SameNodes(old(st.Snap()), st.Snap())
    ensures forall e <- tail :: e !in old(st.live)
  {
    hide *;
    NotOutside(x, path, action, src);
    ghost var h := st.Snap();
    if src.CopyFrom? {
      AboveMeets(t, path, src.looks);
      s := TakeElement(st, x, src.looks, cells, at);
      tail := [];
    } else {
      s, tail := Take(st, x, src, cells[0]);
    }
    DepthIs(src);
    ChainBelow(h, cells, c, Depth(src));
    ChainTaken(h, st.Snap(), cells[Depth(src)..], c);
    CarriesNone(st.Snap(), cells[Depth(src)]);
  }

  lemma DepthIs(src: Source)
    ensures Depth(src) == if src.CopyFrom? then |src.looks| else 0
  {}

  lemma CarriesNone(h: Heap, c: Cell)
    ensures Carries(h, c, [], Ref(c))
  {}

  lemma AboveMeets(t: Tree, path: seq<Step>, looks: seq<Look>)
    requires Walk(t, path).at.Some? && LiesAbove(looks, path)
    ensures |looks| < |path|
    ensures var w := Walk(t, path); var a := Route(w.tree, looks); a.Some? && a.value <= w.at.value
  {
    AlongFinds(t, path, looks);
    RouteMeets(t, path, looks);
  }

  /** The writes that `Outside` excludes, but for assignments of an element of the handle: a write at a
      path inside a handle whose source takes the whole handle, by copying it, moving it or giving it
      to `setArray` or `setObject`, and a `pushBack` at a path below the element it copies.  They
      complete whenever the path throws nothing, and then leave exact counts and a heap that means
      nothing.  Passing by value protects `v.pushBack(v)`, whose own cell is the shared one; on a
      nested path the shared cell lies above the one that is cloned. */
  method WriteIntoItself(st: Store, x: nat, path: seq<Step>, action: Action, src: Source)
    returns (ok: bool, ghost loop: seq<Cell>)
    requires st.Valid() && x < |st.vars| && InScope(src, |st.vars|)
    requires !Outside(x, path, action, src) && (src.CopyFrom? ==> action.PushBack?)
    modifies st, st.live
    ensures ok <==> Walk(old(st.Denoted())[x], path).at.Some?
    ensures !ok ==>
      st.Valid() && st.Denoted() == old(st.Denoted())[x := Walk(old(st.Denoted())[x], path).tree]
    ensures ok ==> st.Sound(multiset{}) && IsCycle(st.Snap(), loop)
  {
    hide AllRefs, Refs, Tallies, Counted, Walk, Means, SlotTrees, IsCycle, Chain, Carries, Store.Sound, Store.Good,
         Store.Owned, Outside, InScope, LiesAbove, Depth, Names;
    NotOutside(x, path, action, src);
    PathNotEmpty(x, path, src);
    ghost var t := st.Denoted()[x];
    var p, cells, at := Reach(st, x, path);
    if p.None? {
      return false, [];
    }
    var (c, i) := p.value;
    var s, tail := TakeAbove(st, x, path, action, src, t, c, cells, at);
    ghost var links := cells[Depth(src)..];
    assert links[0] == cells[Depth(src)];
    ValueIsRef(st.Snap(), links[0], tail, s);
    match action {
      case Assign =>
        PutKid(st, c, i, s, links, tail, s, multiset{});
        assert st.Snap()[c].kids[i] == s;
        LoopClosed(st.Snap(), links, c, tail, s);
        return true, links + tail;
      case PushBack =>
        var a := ArrayAt(st, c, i, links, tail, s, multiset{} + One(s));
        ghost var h1 := st.Snap();
        assert h1[c].kids[i] == Ref(a);
        AppendKid(st, a, s);
        LongLoopClosed(h1, st.Snap(), links, c, a, tail, s);
        return true, links + [a] + tail;
    }
  }

  lemma PathNotEmpty(x: nat, path: seq<Step>, src: Source)
    requires if src.CopyFrom? then LiesAbove(src.looks, path) else Names(x, src) && path != []
    ensures path != []
  {}

  lemma ChainTaken(h: Heap, h': Heap, cells: seq<Cell>, c: Cell)
    requires Chain(h, cells, c) && h.Keys <= h'.Keys && SameNodes(h, h')
    ensures Chain(h', cells, c)
  {}
}
