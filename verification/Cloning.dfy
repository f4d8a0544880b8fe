/** Which cells a chain of calls clones, and which it makes. */
module Cloning {
  import opened Collections
  import opened Wrappers
  import opened Trees
  import opened Cells
  import opened Meaning
  import opened Semantics

  /** Where a `Value` object sits: a handle, or a slot of a cell's vector or map. */
  datatype Place = Handle(x: nat) | Inside(cell: Cell, i: nat)

  ghost function KidsAfter(kids: seq<Slot>, e: Cell, p: Place, s: Slot): (r: seq<Slot>)
    ensures |r| == |kids|
  {
    if p.Inside? && p.cell == e && p.i < |kids| then kids[p.i := s] else kids
  }

  /** Cells live before and after keep their nodes, but for slot `p`, which now holds `s`. */
  ghost predicate Reslotted(h: Heap, h': Heap, p: Place, s: Slot) {
    forall e :: e in h && e in h' ==>
      h'[e].shape == h[e].shape && h'[e].kids == KidsAfter(h[e].kids, e, p, s)
  }

  lemma ReslottedThen(h0: Heap, h1: Heap, h2: Heap, p: Place, s: Slot)
    requires Reslotted(h0, h1, p, s) && SameNodes(h1, h2) && forall e :: e in h0 && e in h2 ==> e in h1
    ensures Reslotted(h0, h2, p, s)
  {}

  /** `ensureUnique` found the cell `o` at place `p` and left `c` there: `o` itself when it had one
      holder; otherwise a new cell with the same kids, each of which gained a holder, and `o` lost
      one.  Nothing else changes. */
  ghost predicate Unshared(h: Heap, h': Heap, p: Place, o: Cell, c: Cell)
    requires o in h
  {
    if h[o].count == 1 then c == o && h' == h
    else
      && c !in h && h'.Keys == h.Keys + {c} && h'[c] == CellState(1, h[o].shape, h[o].kids)
      && Reslotted(h, h', p, Ref(c))
      && forall e :: e in h ==> h'[e].count == h[e].count + Refs(h[o].kids)[e] - One(Ref(o))[e]
  }

  /** Cloning a shared cell and then installing the clone is an `Unshared` step. */
  lemma ClonedAndInstalled(h: Heap, h1: Heap, h2: Heap, p: Place, o: Cell, c: Cell)
    requires o in h && h[o].count != 1 && c !in h && (p.Inside? ==> p.cell in h)
    requires h1.Keys == h.Keys + {c} && SameNodes(h, h1) && h1[c] == CellState(1, h[o].shape, h[o].kids)
    requires forall e :: e in h ==> h1[e].count == h[e].count + Refs(h[o].kids)[e]
    requires h2.Keys == h1.Keys && Reslotted(h1, h2, p, Ref(c))
    requires forall e :: e in h1 ==> h2[e].count == h1[e].count - One(Ref(o))[e]
    ensures Unshared(h, h2, p, o, c)
  {}

  ghost predicate SameOff(a: CellState, b: CellState, i: nat) {
    && a.shape == b.shape && |a.kids| == |b.kids|
    && forall k :: 0 <= k < |a.kids| && k != i ==> b.kids[k] == a.kids[k]
  }

  // ---- One call on a container -----------------------------------------------------------

  /** Where a call looks in a container. */
  ghost function Index(a: CellState, s: Step): nat {
    match s
    case At(i) => i
    case _ => if a.shape.ObjectShape? then LowerBound(a.shape.keys, s.k) else 0
  }

  ghost predicate Finds(a: CellState, s: Step) {
    Index(a, s) < |a.kids| && (s.At? || (a.shape.ObjectShape? && HasKey(a.shape.keys, s.k)))
  }

  /** What a call makes of the container's node: an absent key is inserted with a null value. */
  ghost function Stepped(a: CellState, s: Step): CellState {
    if s.At? || Finds(a, s) || !a.shape.ObjectShape? || Index(a, s) > |a.kids| then a
    else
      var pos := Index(a, s);
      CellState(a.count, ObjectShape(InsertAt(a.shape.keys, pos, s.k)), InsertAt(a.kids, pos, Atom(Null)))
  }

  ghost function Made(kind: Kind): CellState {
    CellState(1, EmptyShape(kind), [])
  }

  /** Slot `s` refers to a container of the kind the call wants. */
  ghost predicate Opens(h: Heap, s: Slot, step: Step) {
    IsContainer(h, s, step.Kind())
  }

  /** The container a call starts with: the one found, or an empty one. */
  ghost function Opened(h: Heap, s: Slot, step: Step): CellState {
    if Opens(h, s, step) then h[s.cell] else Made(step.Kind())
  }

  /** The place `p`, which held `s`, now refers to the container `on` of the kind wanted: the one
      that was there, unshared, or a new empty one where there was none. */
  ghost predicate Contained(h: Heap, h': Heap, p: Place, s: Slot, kind: Kind, on: Cell) {
    && on in h'
    && if IsContainer(h, s, kind) then Unshared(h, h', p, s.cell, on)
       else
         && on !in h && h'[on] == Made(kind)
         && (forall e :: e in h' ==> e in h || e == on)
         && Reslotted(h, h', p, Ref(on))
  }

  ghost predicate IsContainer(h: Heap, s: Slot, kind: Kind) {
    s.Ref? && s.cell in h && h[s.cell].shape.Kind() == kind
  }

  /** A call at place `p`, which holds `s`, went through container `on`, and may have inserted a key
      there. */
  ghost predicate Entered(h: Heap, h': Heap, p: Place, s: Slot, step: Step, on: Cell) {
    && on in h'
    && if Opens(h, s, step) then
         var a := h[s.cell];
         && h'[on].shape == Stepped(a, step).shape && h'[on].kids == Stepped(a, step).kids
         && Unshared(h, h'[on := CellState(h'[on].count, a.shape, a.kids)], p, s.cell, on)
       else
         && on !in h && h'[on] == Stepped(Made(step.Kind()), step)
         && (forall e :: e in h' ==> e in h || e == on)
         && Reslotted(h, h', p, Ref(on))
  }

  lemma OpensContainer(h: Heap, s: Slot, step: Step)
    ensures Opens(h, s, step) <==> IsContainer(h, s, step.Kind())
  {}

  lemma SteppedKey(a: CellState, s: Step)
    requires !s.At? && a.shape.ObjectShape? && |a.shape.keys| == |a.kids|
    ensures Index(a, s) == LowerBound(a.shape.keys, s.k)
    ensures HasKey(a.shape.keys, s.k) ==> Stepped(a, s) == a
    ensures var pos := LowerBound(a.shape.keys, s.k);
      !HasKey(a.shape.keys, s.k) ==>
        Stepped(a, s) == CellState(a.count, ObjectShape(InsertAt(a.shape.keys, pos, s.k)),
                                   InsertAt(a.kids, pos, Atom(Null)))
  {}

  /** A new cell put in place of what was there. */
  lemma NewInstalled(h: Heap, h1: Heap, h2: Heap, p: Place, c: Cell, kind: Kind)
    requires c !in h && h1 == h[c := Made(kind)] && Reslotted(h1, h2, p, Ref(c))
    requires h2.Keys <= h1.Keys && c in h2 && h2[c].count == 1 && (p.Inside? ==> p.cell != c)
    ensures Reslotted(h, h2, p, Ref(c)) && h2[c] == Made(kind)
    ensures forall e :: e in h2 ==> e in h || e == c
  {}

  lemma SteppedSame(a: CellState, b: CellState, step: Step)
    requires a.shape == b.shape && a.kids == b.kids
    ensures Stepped(a, step).shape == Stepped(b, step).shape && Stepped(a, step).kids == Stepped(b, step).kids
    ensures Index(a, step) == Index(b, step) && Stepped(a, step).count == a.count
  {}

  lemma ContainedThenStepped(h: Heap, hm: Heap, h': Heap, p: Place, s: Slot, step: Step, on: Cell)
    requires Contained(h, hm, p, s, step.Kind(), on) && h' == hm[on := Stepped(hm[on], step)]
    ensures Entered(h, h', p, s, step, on)
    ensures Index(hm[on], step) == Index(Opened(h, s, step), step)
  {
    hide Stepped, Index, Refs;
    if Opens(h, s, step) {
      var a := h[s.cell];
      SteppedSame(hm[on], a, step);
      assert h'[on := CellState(h'[on].count, a.shape, a.kids)] == hm;
    }
  }

  /** `v` was appended to the array at place `p`: to the vector held there, unshared, or to a new
      one. */
  ghost predicate Grown(h: Heap, h': Heap, p: Place, s: Slot, v: Slot, on: Cell) {
    var kids := if IsContainer(h, s, ArrayKind) then h[s.cell].kids else [];
    && on in h' && h'[on].shape == ArrayShape && h'[on].kids == kids + [v]
    && Contained(h, h'[on := CellState(h'[on].count, ArrayShape, kids)], p, s, ArrayKind, on)
  }

  // ---- A chain of calls ------------------------------------------------------------------

  /** The existing containers that a chain of calls from slot `s` goes through. */
  ghost function Met(h: Heap, s: Slot, path: seq<Step>): (was: seq<Cell>)
    ensures |was| <= |path|
    decreases |path|
  {
    if path == [] || !Opens(h, s, path[0]) then []
    else if !Finds(h[s.cell], path[0]) then [s.cell]
    else [s.cell] + Met(h, h[s.cell].kids[Index(h[s.cell], path[0])], path[1..])
  }

  /** The slot a chain of calls ends at, if it throws nothing: one that was there, or a new null. */
  ghost function End(h: Heap, s: Slot, path: seq<Step>): Slot
    decreases |path|
  {
    if path == [] then s
    else if Opens(h, s, path[0]) && Finds(h[s.cell], path[0]) then
      End(h, h[s.cell].kids[Index(h[s.cell], path[0])], path[1..])
    else Atom(Null)
  }

  /** Where the last call of a chain looks in its container. */
  ghost function LastIndex(h: Heap, s: Slot, path: seq<Step>): nat
    requires path != []
    decreases |path|
  {
    if |path| == 1 then Index(Opened(h, s, path[0]), path[0])
    else if Opens(h, s, path[0]) && Finds(h[s.cell], path[0]) then
      LastIndex(h, h[s.cell].kids[Index(h[s.cell], path[0])], path[1..])
    else LastIndex(h, Atom(Null), path[1..])
  }

  lemma ShortChain(h: Heap, s: Slot, path: seq<Step>)
    ensures path == [] ==> End(h, s, path) == s
    ensures |path| == 1 ==> LastIndex(h, s, path) == Index(Opened(h, s, path[0]), path[0])
  {}

  /** How many cells come before the first shared one. */
  ghost function BeforeShared(h: Heap, cells: seq<Cell>): (n: nat)
    ensures n <= |cells|
  {
    if cells == [] || cells[0] !in h || h[cells[0]].count != 1 then 0
    else 1 + BeforeShared(h, cells[1..])
  }

  /** The container that call `j` of a chain finds, or the empty one it makes. */
  ghost function StartNode(h: Heap, was: seq<Cell>, path: seq<Step>, j: nat): CellState
    requires j < |path| && forall c <- was :: c in h
  {
    if j < |was| then h[was[j]] else Made(path[j].Kind())
  }

  /** The calls of a chain went through the containers `now`.  The first `n` of the existing ones,
      `was`, stayed in place, and the others were replaced by one new cell each; the calls after
      those made one new cell each.  The cells are distinct and each refers to the next one where the
      call looked.  Every cell of the chain has the node it had, or that of an empty container, but for
      an inserted key and the slot the chain goes on through.  No other cell is new, and none off the
      chain changed. */
  ghost predicate WentThrough(h: Heap, h': Heap, p: Place, path: seq<Step>, was: seq<Cell>, now: seq<Cell>, n: nat) {
    && n <= |was| <= |now| <= |path|
    && now[..n] == was[..n]
    && (forall c <- was :: c in h)
    && (forall c <- now :: c in h')
    && Distinct(now)
    && NewAre(h, h', now[n..])
    && NodesFollow(h, h', path, was, now)
    && Threaded(h, h', path, was, now)
    && OthersKept(h, h', p, was[..n])
  }

  ghost predicate Distinct(cells: seq<Cell>) {
    forall i, j :: 0 <= i < j < |cells| ==> cells[i] != cells[j]
  }

  /** Each container refers to the next one at the index where the call looked. */
  ghost predicate Threaded(h: Heap, h': Heap, path: seq<Step>, was: seq<Cell>, now: seq<Cell>)
    requires |was| <= |now| <= |path| && (forall c <- was :: c in h) && forall c <- now :: c in h'
  {
    forall j :: 0 <= j < |now| - 1 ==> Holds(h'[now[j]], Index(StartNode(h, was, path, j), path[j]), Ref(now[j + 1]))
  }

  ghost predicate Holds(a: CellState, i: nat, s: Slot) {
    i < |a.kids| && a.kids[i] == s
  }

  ghost predicate NewAre(h: Heap, h': Heap, fresh_: seq<Cell>) {
    && (forall c <- fresh_ :: c !in h)
    && (forall e :: e in h' ==> e in h || e in fresh_)
  }

  ghost predicate NodesFollow(h: Heap, h': Heap, path: seq<Step>, was: seq<Cell>, now: seq<Cell>)
    requires |was| <= |now| <= |path| && (forall c <- was :: c in h) && forall c <- now :: c in h'
  {
    forall j :: 0 <= j < |now| ==> Follows(StartNode(h, was, path, j), h'[now[j]], path[j])
  }

  ghost predicate Follows(a: CellState, b: CellState, s: Step) {
    SameOff(Stepped(a, s), b, Index(a, s))
  }

  /** Cells live before and after, other than those of the chain, keep their nodes, but for the
      slot at place `p`. */
  ghost predicate OthersKept(h: Heap, h': Heap, p: Place, kept: seq<Cell>) {
    forall e :: e in h && e in h' && e !in kept ==>
      if p.Inside? && e == p.cell then SameOff(h[e], h'[e], p.i)
      else h'[e].shape == h[e].shape && h'[e].kids == h[e].kids
  }

  /** A chain of calls clones the containers it meets from the first shared one on, and no other
      cell.  What it ends at is shared afterwards exactly when it was before or a container above
      it was. */
  ghost predicate Minimal(h: Heap, h': Heap, p: Place, s: Slot, path: seq<Step>, now: seq<Cell>) {
    var was := Met(h, s, path);
    var n := BeforeShared(h, was);
    && WentThrough(h, h', p, path, was, now, n)
    && EndShared(h, h', End(h, s, path), n == |was|)
  }

  ghost predicate EndShared(h: Heap, h': Heap, end: Slot, unshared: bool) {
    end.Ref? ==>
      && end.cell in h && end.cell in h'
      && h'[end.cell].shape == h[end.cell].shape && h'[end.cell].kids == h[end.cell].kids
      && (h'[end.cell].count == 1 <==> unshared && h[end.cell].count == 1)
  }

  /** A heap that has a meaning, and a place in it that holds `s`. */
  ghost predicate Setting(h: Heap, den: Interpretation, p: Place, s: Slot) {
    && Means(h, den) && Closed(h) && (forall e :: e in h ==> h[e].count > 0)
    && (s.Ref? ==> s.cell in h)
    && (p.Inside? ==> p.cell in h && s in h[p.cell].kids)
  }

  /** A chain that starts below `top` stays below it, and is the same in a heap that is the same
      there. */
  lemma {:induction false} SameChain(h: Heap, h1: Heap, den: Interpretation, s: Slot, path: seq<Step>, top: nat)
    requires Means(h, den) && Closed(h)
    requires s.Ref? ==> s.cell in h && Height(den[s.cell]) < top
    requires forall e :: e in h && Height(den[e]) < top ==>
      e in h1 && h1[e].shape == h[e].shape && h1[e].kids == h[e].kids
    ensures Met(h1, s, path) == Met(h, s, path) && End(h1, s, path) == End(h, s, path)
    ensures path != [] ==> LastIndex(h1, s, path) == LastIndex(h, s, path)
    ensures forall c <- Met(h, s, path) :: c in h && Height(den[c]) < top
    ensures End(h, s, path).Ref? ==> End(h, s, path).cell in h && Height(den[End(h, s, path).cell]) < top
    decreases |path|
  {
    hide Height;
    if path != [] && Opens(h, s, path[0]) && Finds(h[s.cell], path[0]) {
      var kid := h[s.cell].kids[Index(h[s.cell], path[0])];
      assert kid in h[s.cell].kids;
      if kid.Ref? {
        KidLower(h, den, s.cell, kid.cell);
      }
      SameChain(h, h1, den, kid, path[1..], top);
    } else if path != [] {
      NullEnds(h, h1, path[1..]);
    }
  }

  lemma {:induction false} SameShared(h: Heap, h1: Heap, cells: seq<Cell>)
    requires forall c <- cells :: c in h && c in h1 && h1[c].count == h[c].count
    ensures BeforeShared(h1, cells) == BeforeShared(h, cells)
  {
    if cells != [] {
      SameShared(h, h1, cells[1..]);
    }
  }

  lemma NodesCons(h: Heap, h1: Heap, h2: Heap, path: seq<Step>, was: seq<Cell>, was1: seq<Cell>,
                  c: Cell, rest: seq<Cell>)
    requires path != [] && |was1| <= |rest| < |path| && (forall e <- was1 :: e in h1) && forall e <- rest :: e in h2
    requires NodesFollow(h1, h2, path[1..], was1, rest)
    requires (forall e <- was :: e in h) && (was1 != [] ==> was != []) && |was| <= 1 + |rest|
    requires was != [] ==> was[1..] == was1
    requires forall e <- was1 :: e in h && h1[e].shape == h[e].shape && h1[e].kids == h[e].kids
    requires c in h2 && Follows(StartNode(h, was, path, 0), h2[c], path[0])
    ensures NodesFollow(h, h2, path, was, [c] + rest)
  {
    hide Follows;
    var now := [c] + rest;
    forall j | 0 <= j < |now|
      ensures Follows(StartNode(h, was, path, j), h2[now[j]], path[j])
    {
      if j > 0 {
        var a, b := StartNode(h, was, path, j), StartNode(h1, was1, path[1..], j - 1);
        assert Follows(b, h2[rest[j - 1]], path[1..][j - 1]);
        assert a.shape == b.shape && a.kids == b.kids;
        FollowsSame(a, b, h2[rest[j - 1]], path[j]);
      }
    }
  }

  lemma ThreadCons(h: Heap, h1: Heap, h2: Heap, path: seq<Step>, was: seq<Cell>, was1: seq<Cell>,
                   c: Cell, rest: seq<Cell>)
    requires path != [] && |was1| <= |rest| < |path| && (forall e <- was1 :: e in h1) && forall e <- rest :: e in h2
    requires Threaded(h1, h2, path[1..], was1, rest)
    requires (forall e <- was :: e in h) && (was1 != [] ==> was != []) && |was| <= 1 + |rest|
    requires was != [] ==> was[1..] == was1
    requires forall e <- was1 :: e in h && h1[e].shape == h[e].shape && h1[e].kids == h[e].kids
    requires c in h2
    requires rest != [] ==> Holds(h2[c], Index(StartNode(h, was, path, 0), path[0]), Ref(rest[0]))
    ensures Threaded(h, h2, path, was, [c] + rest)
  {
    hide Holds, Index;
    var now := [c] + rest;
    forall j | 0 <= j < |now| - 1
      ensures Holds(h2[now[j]], Index(StartNode(h, was, path, j), path[j]), Ref(now[j + 1]))
    {
      if j > 0 {
        var a, b := StartNode(h, was, path, j), StartNode(h1, was1, path[1..], j - 1);
        assert Holds(h2[rest[j - 1]], Index(b, path[1..][j - 1]), Ref(rest[j]));
        SteppedSame(a, b, path[j]);
      }
    }
  }

  lemma DistinctCons(c: Cell, cells: seq<Cell>)
    requires Distinct(cells) && c !in cells
    ensures Distinct([c] + cells)
  {}

  /** A cell of the heap that is not on the old part of a chain is not on its new part either. */
  lemma NotOnChain(h: Heap, was: seq<Cell>, now: seq<Cell>, n: nat, c: Cell)
    requires n <= |was| <= |now| && now[..n] == was[..n] && (forall e <- now[n..] :: e !in h)
    requires c in h && c !in was
    ensures c !in now
  {
    forall i | 0 <= i < |now|
      ensures now[i] != c
    {
      assert if i < n then now[i] == now[..n][i] == was[i] else now[i] == now[n..][i - n];
    }
  }

  lemma FollowsSame(a: CellState, b: CellState, c: CellState, s: Step)
    requires a.shape == b.shape && a.kids == b.kids
    ensures Follows(a, c, s) <==> Follows(b, c, s)
  {}

  /** A container held once stays, and the rest of the chain decides. */
  lemma KeptFirst(h: Heap, h1: Heap, h2: Heap, p: Place, o: Cell, path: seq<Step>, was1: seq<Cell>,
                  rest: seq<Cell>, n1: nat)
    requires path != [] && o in h && o in h1 && h1.Keys == h.Keys && SameNodes(h - {o}, h1) && o in h2
    requires h1[o].shape == Stepped(h[o], path[0]).shape && h1[o].kids == Stepped(h[o], path[0]).kids
    requires WentThrough(h1, h2, Inside(o, Index(h[o], path[0])), path[1..], was1, rest, n1)
    requires o !in was1 && (p.Inside? ==> p.cell !in was1 && p.cell != o)
    requires rest != [] ==> Holds(h2[o], Index(h[o], path[0]), Ref(rest[0]))
    ensures WentThrough(h, h2, p, path, [o] + was1, [o] + rest, 1 + n1)
  {
    hide Stepped, Index, NodesFollow, Threaded, Distinct, Holds, OthersKept;
    var was, now := [o] + was1, [o] + rest;
    assert now[1 + n1..] == rest[n1..];
    assert was[..1 + n1] == [o] + was1[..n1] && now[..1 + n1] == [o] + rest[..n1];
    forall e | e in was1
      ensures e in h && h1[e].shape == h[e].shape && h1[e].kids == h[e].kids
    {
      assert e in h - {o};
    }
    HeadOff(h1, h2, o, Index(h[o], path[0]), was1[..n1]);
    NodesCons(h, h1, h2, path, was, was1, o, rest);
    ThreadCons(h, h1, h2, path, was, was1, o, rest);
    NotOnChain(h1, was1, rest, n1, o);
    DistinctCons(o, rest);
    KeptOthers(h, h1, h2, p, o, Index(h[o], path[0]), was1[..n1]);
  }

  lemma HeadOff(h: Heap, h': Heap, o: Cell, i: nat, kept: seq<Cell>)
    requires OthersKept(h, h', Inside(o, i), kept) && o in h && o in h' && o !in kept
    ensures SameOff(h[o], h'[o], i)
  {}

  lemma KeptOthers(h: Heap, h1: Heap, h2: Heap, p: Place, o: Cell, i: nat, kept: seq<Cell>)
    requires o in h && h1.Keys == h.Keys && SameNodes(h - {o}, h1) && OthersKept(h1, h2, Inside(o, i), kept)
    requires p.Inside? ==> p.cell !in kept && p.cell != o
    ensures OthersKept(h, h2, p, [o] + kept)
  {
    forall e | e in h && e in h2 && e !in [o] + kept
      ensures h2[e].shape == h[e].shape && h2[e].kids == h[e].kids
    {
      assert e != o by {
        assert o == ([o] + kept)[0];
      }
      assert e !in kept by {
        assert forall k <- kept :: k in [o] + kept;
      }
      assert e in h - {o};
    }
  }

  /** A shared container, whose kids all gained a holder, is replaced by a clone. */
  lemma ClonedFirst(h: Heap, h1: Heap, h2: Heap, p: Place, o: Cell, c: Cell, path: seq<Step>, was1: seq<Cell>,
                    rest: seq<Cell>)
    requires path != [] && o in h && h[o].count != 1 && c !in h && c in h1 && h1.Keys == h.Keys + {c} && c in h2
    requires Reslotted(h, h1, p, Ref(c)) && (p.Inside? ==> p.cell in h && p.cell !in was1)
    requires h1[c].shape == Stepped(h[o], path[0]).shape && h1[c].kids == Stepped(h[o], path[0]).kids
    requires WentThrough(h1, h2, Inside(c, Index(h[o], path[0])), path[1..], was1, rest, 0)
    requires c !in was1 && (rest != [] ==> Holds(h2[c], Index(h[o], path[0]), Ref(rest[0])))
    ensures WentThrough(h, h2, p, path, [o] + was1, [c] + rest, 0)
  {
    hide Stepped, Index, NodesFollow, Threaded, Distinct, Holds;
    NodesCons(h, h1, h2, path, [o] + was1, was1, c, rest);
    ThreadCons(h, h1, h2, path, [o] + was1, was1, c, rest);
    NotOnChain(h1, was1, rest, 0, c);
    DistinctCons(c, rest);
    assert rest[0..] == rest && ([c] + rest)[0..] == [c] + rest;
  }

  /** Where there was no container a new one is made. */
  lemma MadeFirst(h: Heap, h1: Heap, h2: Heap, p: Place, c: Cell, path: seq<Step>, rest: seq<Cell>)
    requires path != [] && c !in h && c in h1 && c in h2 && forall e :: e in h1 ==> e in h || e == c
    requires Reslotted(h, h1, p, Ref(c)) && h1[c] == Stepped(Made(path[0].Kind()), path[0])
    requires forall e :: e in h && e in h2 ==> e in h1
    requires WentThrough(h1, h2, Inside(c, Index(Made(path[0].Kind()), path[0])), path[1..], [], rest, 0)
    requires rest != [] ==> Holds(h2[c], Index(Made(path[0].Kind()), path[0]), Ref(rest[0]))
    ensures WentThrough(h, h2, p, path, [], [c] + rest, 0)
  {
    hide Stepped, Index, NodesFollow, Made, Threaded, Distinct, Holds;
    NodesCons(h, h1, h2, path, [], [], c, rest);
    ThreadCons(h, h1, h2, path, [], [], c, rest);
    NotOnChain(h1, [], rest, 0, c);
    DistinctCons(c, rest);
    assert rest[0..] == rest && ([c] + rest)[0..] == [c] + rest;
  }

  /** The rest of the containers met after the first call. */
  ghost function MetNext(h: Heap, s: Slot, path: seq<Step>): seq<Cell>
    requires path != []
  {
    if Opens(h, s, path[0]) && Finds(h[s.cell], path[0]) then
      Met(h, h[s.cell].kids[Index(h[s.cell], path[0])], path[1..])
    else []
  }

  /** What `Entered` says when the container was held once, and when it was shared. */
  lemma EnteredOpen(h: Heap, h1: Heap, p: Place, s: Slot, step: Step, c: Cell)
    requires Entered(h, h1, p, s, step, c) && Opens(h, s, step)
    requires p.Inside? ==> p.cell in h && p.cell != s.cell
    ensures var o := s.cell; var a := Stepped(h[o], step);
      && c in h1 && h1[c].shape == a.shape && h1[c].kids == a.kids
      && (h[o].count == 1 ==>
            c == o && h1.Keys == h.Keys && SameNodes(h - {o}, h1) && forall e :: e in h ==> h1[e].count == h[e].count)
      && (h[o].count != 1 ==>
            && c !in h && h1.Keys == h.Keys + {c} && Reslotted(h, h1, p, Ref(c))
            && forall e :: e in h ==> h1[e].count == h[e].count + Refs(h[o].kids)[e] - One(Ref(o))[e])
  {
    hide Stepped, Refs;
    var o, a := s.cell, h[s.cell];
    var hm := h1[c := CellState(h1[c].count, a.shape, a.kids)];
    assert Unshared(h, hm, p, o, c);
    if h[o].count == 1 {
      assert hm == h && hm.Keys == h1.Keys;
      assert forall e :: e in h && e != c ==> hm[e] == h1[e];
      assert hm[c].count == h1[c].count;
    } else {
      assert forall e :: e in h ==> hm[e] == h1[e];
    }
  }

  /** Every kid of a shared container has gained a holder from its clone. */
  lemma GainedHolder(h: Heap, den: Interpretation, h1: Heap, o: Cell, kid: Slot)
    requires Means(h, den) && o in h && kid in h[o].kids && kid.Ref? && kid.cell in h && kid.cell in h1
    requires h[kid.cell].count > 0
    requires forall e :: e in h && e in h1 ==> h1[e].count == h[e].count + Refs(h[o].kids)[e] - One(Ref(o))[e]
    ensures h1[kid.cell].count > 1
  {
    hide Height;
    RefsMember(h[o].kids, kid.cell);
    KidLower(h, den, o, kid.cell);
  }

  /** A call leaves every cell below its container as it is. */
  lemma LowerSame(h: Heap, den: Interpretation, h1: Heap, p: Place, s: Slot, c: Cell, step: Step, e: Cell)
    requires Setting(h, den, p, s) && Entered(h, h1, p, s, step, c) && Opens(h, s, step)
    requires e in h && Height(den[e]) < Height(den[s.cell])
    ensures e in h1 && h1[e].shape == h[e].shape && h1[e].kids == h[e].kids
    ensures e != s.cell && (p.Inside? ==> e != p.cell)
  {
    hide Height, Refs, Stepped, MeansAt;
    if p.Inside? {
      KidLower(h, den, p.cell, s.cell);
    }
    EnteredOpen(h, h1, p, s, step, c);
    assert h[s.cell].count == 1 ==> e in h - {s.cell};
  }

  /** When a call finds its kid, the chain goes on through the same containers. */
  lemma ChainAfter(h: Heap, den: Interpretation, h1: Heap, p: Place, s: Slot, c: Cell, path: seq<Step>, kid: Slot)
    requires path != [] && Setting(h, den, p, s) && Entered(h, h1, p, s, path[0], c)
    requires Opens(h, s, path[0]) && Finds(h[s.cell], path[0])
    requires kid == h[s.cell].kids[Index(h[s.cell], path[0])]
    ensures Met(h1, kid, path[1..]) == Met(h, kid, path[1..])
    ensures End(h1, kid, path[1..]) == End(h, kid, path[1..])
    ensures |path| > 1 ==> LastIndex(h1, kid, path[1..]) == LastIndex(h, kid, path[1..])
    ensures forall e <- Met(h, kid, path[1..]) ::
      && e in h && e in h1 && e != s.cell && (p.Inside? ==> e != p.cell)
      && h1[e].shape == h[e].shape && h1[e].kids == h[e].kids
    ensures End(h, kid, path[1..]).Ref? ==> var e := End(h, kid, path[1..]).cell;
      e in h && e in h1 && h1[e].shape == h[e].shape && h1[e].kids == h[e].kids
    ensures kid in h[s.cell].kids && (kid.Ref? ==> kid.cell in h && kid.cell in h1)
  {
    hide Height, Refs, MeansAt, Entered, Met, End, Counted;
    var o := s.cell;
    assert kid in h[o].kids;
    if kid.Ref? {
      KidLower(h, den, o, kid.cell);
      LowerSame(h, den, h1, p, s, c, path[0], kid.cell);
    }
    forall e | e in h && Height(den[e]) < Height(den[o])
      ensures e in h1 && h1[e].shape == h[e].shape && h1[e].kids == h[e].kids
      ensures e != o && (p.Inside? ==> e != p.cell)
    {
      LowerSame(h, den, h1, p, s, c, path[0], e);
    }
    SameChain(h, h1, den, kid, path[1..], Height(den[o]));
  }

  lemma MetFirst(h: Heap, s: Slot, path: seq<Step>)
    requires path != []
    ensures Met(h, s, path) == if Opens(h, s, path[0]) then [s.cell] + MetNext(h, s, path) else []
    ensures !Opens(h, s, path[0]) ==> MetNext(h, s, path) == []
  {}

  /** The containers still to be met are untouched by the first call. */
  lemma NextUntouched(h: Heap, den: Interpretation, h1: Heap, p: Place, s: Slot, c: Cell, path: seq<Step>)
    requires path != [] && Setting(h, den, p, s) && Entered(h, h1, p, s, path[0], c) && Opens(h, s, path[0])
    ensures forall e <- MetNext(h, s, path) ::
      e in h && e in h1 && e != s.cell && (p.Inside? ==> e != p.cell)
    ensures p.Inside? ==> p.cell != s.cell
  {
    hide Height, Refs, MeansAt, Entered, Met;
    if p.Inside? {
      KidLower(h, den, p.cell, s.cell);
    }
    if Finds(h[s.cell], path[0]) {
      ChainAfter(h, den, h1, p, s, c, path, h[s.cell].kids[Index(h[s.cell], path[0])]);
    }
  }

  lemma StepThrough(h: Heap, den: Interpretation, h1: Heap, h2: Heap, p: Place, s: Slot, c: Cell,
                    path: seq<Step>, rest: seq<Cell>)
    requires path != [] && Setting(h, den, p, s) && Entered(h, h1, p, s, path[0], c) && c in h2
    requires forall e :: e in h && e in h2 ==> e in h1
    requires var was1 := MetNext(h, s, path);
      WentThrough(h1, h2, Inside(c, Index(Opened(h, s, path[0]), path[0])), path[1..], was1, rest,
                  BeforeShared(h1, was1))
    requires rest != [] ==> Holds(h2[c], Index(Opened(h, s, path[0]), path[0]), Ref(rest[0]))
    ensures var was := Met(h, s, path);
      WentThrough(h, h2, p, path, was, [c] + rest, BeforeShared(h, was))
  {
    hide Height, Refs, Means, WentThrough, Stepped, Index, Entered, Unshared, Met, MetNext, Holds;
    var was1 := MetNext(h, s, path);
    MetFirst(h, s, path);
    if Opens(h, s, path[0]) {
      var o := s.cell;
      NextUntouched(h, den, h1, p, s, c, path);
      EnteredOpen(h, h1, p, s, path[0], c);
      assert ([o] + was1)[1..] == was1;
      if h[o].count == 1 {
        SameShared(h, h1, was1);
        KeptFirst(h, h1, h2, p, o, path, was1, rest, BeforeShared(h1, was1));
      } else {
        FirstIsShared(h, den, h1, p, s, c, path);
        ClonedFirst(h, h1, h2, p, o, c, path, was1, rest);
      }
    } else {
      EnteredNew(h, h1, p, s, path[0], c);
      MadeFirst(h, h1, h2, p, c, path, rest);
    }
  }

  lemma EnteredNew(h: Heap, h1: Heap, p: Place, s: Slot, step: Step, c: Cell)
    requires Entered(h, h1, p, s, step, c) && !Opens(h, s, step)
    ensures c !in h && c in h1 && h1[c] == Stepped(Made(step.Kind()), step)
    ensures (forall e :: e in h1 ==> e in h || e == c) && Reslotted(h, h1, p, Ref(c))
  {}

  lemma FirstIsShared(h: Heap, den: Interpretation, h1: Heap, p: Place, s: Slot, c: Cell, path: seq<Step>)
    requires path != [] && Setting(h, den, p, s) && Entered(h, h1, p, s, path[0], c)
    requires Opens(h, s, path[0]) && h[s.cell].count != 1
    ensures BeforeShared(h1, MetNext(h, s, path)) == 0
  {
    hide Height, Refs, MeansAt, Stepped, Entered;
    var was1 := MetNext(h, s, path);
    if was1 != [] {
      var kid := h[s.cell].kids[Index(h[s.cell], path[0])];
      if p.Inside? {
        KidLower(h, den, p.cell, s.cell);
      }
      EnteredOpen(h, h1, p, s, path[0], c);
      ChainAfter(h, den, h1, p, s, c, path, kid);
      GainedHolder(h, den, h1, s.cell, kid);
    }
  }

  /** The kid a call leads to: the one found, or a new null. */
  lemma KidAfter(h: Heap, h1: Heap, p: Place, s: Slot, step: Step, c: Cell)
    requires Entered(h, h1, p, s, step, c)
    ensures var a := Opened(h, s, step); var i := Index(a, step);
      i < |h1[c].kids| ==> h1[c].kids[i] == if Finds(a, step) then a.kids[i] else Atom(Null)
    ensures !Opens(h, s, step) ==> !Finds(Opened(h, s, step), step)
  {}

  lemma {:induction false} NullEnds(h: Heap, h1: Heap, path: seq<Step>)
    ensures Met(h1, Atom(Null), path) == [] && End(h1, Atom(Null), path) == Atom(Null)
    ensures path != [] ==> LastIndex(h1, Atom(Null), path) == LastIndex(h, Atom(Null), path)
  {
    if path != [] {
      NullEnds(h, h1, path[1..]);
    }
  }

  /** One call, and then the rest of the chain. */
  lemma MinimalStep(h: Heap, den: Interpretation, h1: Heap, h2: Heap, p: Place, s: Slot, c: Cell,
                    path: seq<Step>, rest: seq<Cell>)
    requires path != [] && Setting(h, den, p, s) && Entered(h, h1, p, s, path[0], c) && c in h2
    requires forall e :: e in h && e in h2 ==> e in h1
    requires var i := Index(Opened(h, s, path[0]), path[0]);
      i < |h1[c].kids| && Minimal(h1, h2, Inside(c, i), h1[c].kids[i], path[1..], rest)
    requires rest != [] ==> Holds(h2[c], Index(Opened(h, s, path[0]), path[0]), Ref(rest[0]))
    ensures Minimal(h, h2, p, s, path, [c] + rest)
    ensures var kid := h1[c].kids[Index(Opened(h, s, path[0]), path[0])];
      && End(h, s, path) == End(h1, kid, path[1..])
      && (|path| > 1 ==> LastIndex(h, s, path) == LastIndex(h1, kid, path[1..]))
  {
    assert c in h1;
    hide Height, Refs, MeansAt, WentThrough, Stepped, Index, Entered, Unshared, Finds, EndShared, BeforeShared,
         Holds;
    var i := Index(Opened(h, s, path[0]), path[0]);
    var kid := h1[c].kids[i];
    KidAfter(h, h1, p, s, path[0], c);
    if Opens(h, s, path[0]) && Finds(h[s.cell], path[0]) {
      ChainAfter(h, den, h1, p, s, c, path, kid);
      EndStep(h, den, h1, h2, p, s, c, path, kid);
    } else {
      NullEnds(h, h1, path[1..]);
      EndNull(h, h2, End(h, s, path), BeforeShared(h, Met(h, s, path)) == |Met(h, s, path)|);
    }
    StepThrough(h, den, h1, h2, p, s, c, path, rest);
  }

  /** The rest of a chain leaves the slot its first call filled alone. */
  lemma HeadKept(h: Heap, den: Interpretation, h1: Heap, h2: Heap, p: Place, s: Slot, c: Cell,
                 path: seq<Step>, rest: seq<Cell>)
    requires path != [] && Setting(h, den, p, s) && Entered(h, h1, p, s, path[0], c) && p.Inside? && p.cell in h2
    requires var i := Index(Opened(h, s, path[0]), path[0]);
      i < |h1[c].kids| && Minimal(h1, h2, Inside(c, i), h1[c].kids[i], path[1..], rest)
    requires p.cell in h1 && p.cell != c
    ensures h2[p.cell].kids == h1[p.cell].kids
  {
    hide Height, Refs, MeansAt, Stepped, Index, Unshared, Finds, EndShared, BeforeShared, NodesFollow, Threaded;
    var i := Index(Opened(h, s, path[0]), path[0]);
    var kid := h1[c].kids[i];
    KidAfter(h, h1, p, s, path[0], c);
    if Opens(h, s, path[0]) && Finds(h[s.cell], path[0]) {
      ChainAfter(h, den, h1, p, s, c, path, kid);
    } else {
      NullEnds(h, h1, path[1..]);
    }
    assert p.cell !in Met(h1, kid, path[1..]);
  }

  lemma EndNull(h: Heap, h': Heap, end: Slot, unshared: bool)
    requires end == Atom(Null)
    ensures EndShared(h, h', end, unshared)
  {}

  lemma EndStep(h: Heap, den: Interpretation, h1: Heap, h2: Heap, p: Place, s: Slot, c: Cell,
                path: seq<Step>, kid: Slot)
    requires path != [] && Setting(h, den, p, s) && Entered(h, h1, p, s, path[0], c)
    requires Opens(h, s, path[0]) && Finds(h[s.cell], path[0])
    requires kid == h[s.cell].kids[Index(h[s.cell], path[0])]
    requires var was1 := Met(h, kid, path[1..]);
      EndShared(h1, h2, End(h, kid, path[1..]), BeforeShared(h1, was1) == |was1|)
    ensures var was := Met(h, s, path); EndShared(h, h2, End(h, s, path), BeforeShared(h, was) == |was|)
  {
    hide Height, Refs, MeansAt, Stepped, Index, Entered, Unshared, Finds;
    var o, was1, end := s.cell, Met(h, kid, path[1..]), End(h, kid, path[1..]);
    if p.Inside? {
      KidLower(h, den, p.cell, o);
    }
    EnteredOpen(h, h1, p, s, path[0], c);
    ChainAfter(h, den, h1, p, s, c, path, kid);
    assert ([o] + was1)[1..] == was1;
    if end.Ref? {
      if h[o].count == 1 {
        SameShared(h, h1, was1);
      } else if was1 != [] {
        FirstIsShared(h, den, h1, p, s, c, path);
      } else {
        assert path[1..] == [];
        GainedHolder(h, den, h1, o, kid);
      }
    }
  }

  /** The last call of a chain that throws after it opened its container. */
  lemma MinimalThrown(h: Heap, den: Interpretation, h1: Heap, p: Place, s: Slot, c: Cell, path: seq<Step>)
    requires path != [] && Setting(h, den, p, s) && Entered(h, h1, p, s, path[0], c)
    requires Index(Opened(h, s, path[0]), path[0]) >= |h1[c].kids|
    ensures Minimal(h, h1, p, s, path, [c])
  {
    hide Height, Refs, MeansAt, Unshared, Means;
    NothingFound(h, h1, p, s, path[0], c);
    var q := Inside(c, Index(Opened(h, s, path[0]), path[0]));
    NoCalls(h1, q, path[1..]);
    assert MetNext(h, s, path) == [];
    StepThrough(h, den, h1, h1, p, s, c, path, []);
    assert [c] + [] == [c];
  }

  lemma NothingFound(h: Heap, h1: Heap, p: Place, s: Slot, step: Step, c: Cell)
    requires Entered(h, h1, p, s, step, c) && Index(Opened(h, s, step), step) >= |h1[c].kids|
    ensures Opens(h, s, step) ==> !Finds(h[s.cell], step)
  {}

  lemma NoCalls(h: Heap, p: Place, path: seq<Step>)
    ensures WentThrough(h, h, p, path, [], [], 0)
  {}

  lemma MinimalNone(h: Heap, p: Place, s: Slot, path: seq<Step>)
    requires s.Ref? ==> s.cell in h
    requires path == [] || !Opens(h, s, path[0])
    ensures Minimal(h, h, p, s, path, [])
  {}

  // ---- A whole write ---------------------------------------------------------------------

  lemma {:induction false} LastIndexIs(h: Heap, s: Slot, path: seq<Step>)
    requires path != [] && forall c <- Met(h, s, path) :: c in h
    ensures var last := |path| - 1;
      LastIndex(h, s, path) == Index(StartNode(h, Met(h, s, path), path, last), path[last])
    decreases |path|
  {
    hide Index;
    if |path| > 1 {
      if Opens(h, s, path[0]) && Finds(h[s.cell], path[0]) {
        var kid := h[s.cell].kids[Index(h[s.cell], path[0])];
        assert Met(h, s, path) == [s.cell] + Met(h, kid, path[1..]);
        assert forall c <- Met(h, kid, path[1..]) :: c in Met(h, s, path);
        LastIndexIs(h, kid, path[1..]);
      } else {
        NullEnds(h, h, path[1..]);
        LastIndexIs(h, Atom(Null), path[1..]);
      }
    }
  }

  /** A write changed a heap by going through the containers `now`, in place of `was` from the first
      shared one on, storing a value, whose own cell is in `made` if it is new, and for `pushBack`
      growing the array `grown`.  These cells are distinct, and the containers hold one another.  No
      other cell is new, and no other cell changed. */
  ghost predicate Wrote(h: Heap, h': Heap, path: seq<Step>, was: seq<Cell>, now: seq<Cell>, n: nat,
                        made: set<Cell>, grown: seq<Cell>) {
    && n <= |was| <= |now| <= |path|
    && now[..n] == was[..n]
    && (forall c <- was :: c in h)
    && (forall c <- now :: c in h')
    && Distinct(now + grown)
    && (forall c <- now[n..] :: c !in h)
    && (forall c :: c in made ==> c !in h && c in h' && c !in now && c !in grown)
    && (forall e :: e in h' ==> e in h || e in now[n..] || e in made || e in grown)
    && NodesFollow(h, h', path, was, now)
    && Threaded(h, h', path, was, now)
    && forall e :: e in h && e in h' && e !in was[..n] && e !in grown ==>
         h'[e].shape == h[e].shape && h'[e].kids == h[e].kids
  }

  /** Where a chain of calls from handle `x` ends. */
  ghost function EndPlace(h: Heap, x: nat, s: Slot, path: seq<Step>, now: seq<Cell>): Place
    requires |now| == |path|
  {
    if path == [] then Handle(x) else Inside(now[|path| - 1], LastIndex(h, s, path))
  }

  /** Cells other than `grown` keep their nodes, but for slot `p`, which now holds `v`. */
  ghost predicate ReslottedBut(h: Heap, h': Heap, p: Place, v: Slot, grown: seq<Cell>) {
    forall e :: e in h && e in h' && e !in grown ==>
      h'[e].shape == h[e].shape && h'[e].kids == KidsAfter(h[e].kids, e, p, v)
  }

  ghost predicate Evaluated(h1: Heap, h2: Heap, made: set<Cell>) {
    SameNodes(h1, h2) && h2.Keys == h1.Keys + made && made !! h1.Keys
  }

  lemma WroteNodes(h: Heap, h1: Heap, h2: Heap, h3: Heap, x: nat, s: Slot, path: seq<Step>, now: seq<Cell>,
                   v: Slot, grown: seq<Cell>)
    requires |now| == |path| && |Met(h, s, path)| <= |now|
    requires (forall c <- Met(h, s, path) :: c in h) && forall c <- now :: c in h1 && c in h2 && c in h3 && c !in grown
    requires NodesFollow(h, h1, path, Met(h, s, path), now) && SameNodes(h1, h2)
    requires ReslottedBut(h2, h3, EndPlace(h, x, s, path, now), v, grown)
    requires Threaded(h, h1, path, Met(h, s, path), now) && Distinct(now)
    ensures NodesFollow(h, h3, path, Met(h, s, path), now) && Threaded(h, h3, path, Met(h, s, path), now)
  {
    hide Stepped, Index, LastIndex, Met;
    var was := Met(h, s, path);
    forall j | 0 <= j < |now|
      ensures Follows(StartNode(h, was, path, j), h3[now[j]], path[j])
      ensures j < |now| - 1 ==> Holds(h3[now[j]], Index(StartNode(h, was, path, j), path[j]), Ref(now[j + 1]))
    {
      assert Follows(StartNode(h, was, path, j), h1[now[j]], path[j]);
      if j == |path| - 1 {
        LastIndexIs(h, s, path);
      }
    }
  }

  lemma WroteOthers(h: Heap, h1: Heap, h2: Heap, h3: Heap, x: nat, kept: seq<Cell>, p: Place, v: Slot,
                    grown: seq<Cell>, e: Cell)
    requires OthersKept(h, h1, Handle(x), kept) && SameNodes(h1, h2) && ReslottedBut(h2, h3, p, v, grown)
    requires e in h && e in h1 && e in h2 && e in h3 && e !in kept && e !in grown && (p.Inside? ==> p.cell != e)
    ensures h3[e].shape == h[e].shape && h3[e].kids == h[e].kids
  {}

  lemma WroteKeys(h: Heap, h1: Heap, h2: Heap, h3: Heap, fresh_: seq<Cell>, made: set<Cell>, grown: seq<Cell>)
    requires NewAre(h, h1, fresh_) && h2.Keys == h1.Keys + made && forall e :: e in h3 ==> e in h2 || e in grown
    ensures forall e :: e in h3 ==> e in h || e in fresh_ || e in made || e in grown
  {}

  lemma WroteAfter(h: Heap, h1: Heap, h2: Heap, h3: Heap, x: nat, s: Slot, path: seq<Step>, now: seq<Cell>,
                   made: set<Cell>, v: Slot, grown: seq<Cell>)
    requires Minimal(h, h1, Handle(x), s, path, now) && |now| == |path|
    requires Evaluated(h1, h2, made) && made !! h.Keys && forall c :: c in made ==> c in h3 && c !in grown
    requires ReslottedBut(h2, h3, EndPlace(h, x, s, path, now), v, grown)
    requires (forall c <- now :: c in h3 && c !in grown) && |grown| <= 1
    requires (forall e :: e in h3 ==> e in h2 || e in grown) && forall e :: e in h && e in h3 ==> e in h1
    ensures var was := Met(h, s, path); Wrote(h, h3, path, was, now, BeforeShared(h, was), made, grown)
  {
    hide NodesFollow, Threaded, Met, LastIndex, EndShared, BeforeShared, ReslottedBut, SameNodes, OthersKept, Distinct;
    var was := Met(h, s, path);
    var n := BeforeShared(h, was);
    assert WentThrough(h, h1, Handle(x), path, was, now, n);
    WroteNodes(h, h1, h2, h3, x, s, path, now, v, grown);
    WroteKeys(h, h1, h2, h3, now[n..], made, grown);
    DistinctSnoc(now, grown);
    forall e | e in h && e in h3 && e !in was[..n] && e !in grown
      ensures h3[e].shape == h[e].shape && h3[e].kids == h[e].kids
    {
      if path != [] {
        LastOff(was, now, n, e, h);
      }
      WroteOthers(h, h1, h2, h3, x, was[..n], EndPlace(h, x, s, path, now), v, grown, e);
    }
  }

  lemma DistinctSnoc(now: seq<Cell>, grown: seq<Cell>)
    requires Distinct(now) && |grown| <= 1 && forall c <- now :: c !in grown
    ensures Distinct(now + grown)
  {
    forall i, j | 0 <= i < j < |now + grown|
      ensures (now + grown)[i] != (now + grown)[j]
    {
      assert i < |now| && (now + grown)[i] == now[i] && now[i] !in grown;
      if j < |now| {
        assert (now + grown)[j] == now[j];
      } else {
        assert (now + grown)[j] == grown[j - |now|];
      }
    }
  }

  lemma LastOff(was: seq<Cell>, now: seq<Cell>, n: nat, e: Cell, h: Heap)
    requires n <= |was| <= |now| && now != [] && now[..n] == was[..n]
    requires (forall c <- now[n..] :: c !in h) && e in h && e !in was[..n]
    ensures e != now[|now| - 1]
  {}

  lemma GrownOthers(h: Heap, h': Heap, p: Place, s: Slot, v: Slot, on: Cell)
    requires Grown(h, h', p, s, v, on)
    requires p.Inside? ==> p.cell in h && p.i < |h[p.cell].kids| && h[p.cell].kids[p.i] == s
    ensures ReslottedBut(h, h', p, Ref(on), [on])
    ensures forall e :: e in h' ==> e in h || e == on
    ensures on in h <==> IsContainer(h, s, ArrayKind) && h[s.cell].count == 1
    ensures on in h ==> on == s.cell
  {}

  lemma GrownAfter(h: Heap, hm: Heap, h': Heap, p: Place, s: Slot, v: Slot, on: Cell)
    requires Contained(h, hm, p, s, ArrayKind, on)
    requires h' == hm[on := CellState(hm[on].count, hm[on].shape, hm[on].kids + [v])]
    ensures Grown(h, h', p, s, v, on)
  {
    hide Refs, Reslotted;
    var kids := if IsContainer(h, s, ArrayKind) then h[s.cell].kids else [];
    assert hm[on].kids == kids && hm[on].shape == ArrayShape;
    assert h'[on := CellState(h'[on].count, ArrayShape, kids)] == hm;
  }

  /** `pushBack` on a place where the handle's chain ended at `end`, and a value left what was there as
      it is, took a copy of it (`taken`), or moved it out (`moved`).  The vector that was there gained
      an element: in place when it had no other holder then, and otherwise as a clone. */
  ghost predicate Pushed(h: Heap, h': Heap, end: Slot, unshared: bool, taken: bool, moved: bool, v: Slot, on: Cell) {
    var found := IsContainer(h, end, ArrayKind) && !moved;
    && on in h' && h'[on].shape == ArrayShape
    && h'[on].kids == (if found then h[end.cell].kids else []) + [v]
    && (on in h <==> found && unshared && !taken && h[end.cell].count == 1)
    && (on in h ==> on == end.cell)
  }

  lemma PushedAfter(h: Heap, h1: Heap, h2: Heap, h3: Heap, p: Place, end: Slot, there: Slot, made: set<Cell>,
                    unshared: bool, taken: bool, moved: bool, v: Slot, on: Cell)
    requires EndShared(h, h1, end, unshared) && Evaluated(h1, h2, made) && made !! h.Keys
    requires Grown(h2, h3, p, there, v, on) && (moved ==> !there.Ref?) && (!moved ==> there == end)
    requires there.Ref? ==> (h2[there.cell].count == 1 <==> h1[there.cell].count == 1 && !taken)
    requires forall e :: e in h && e in h3 ==> e in h1
    ensures Pushed(h, h3, end, unshared, taken, moved, v, on)
  {}

  /** What a write leaves at its place: the value, or the array the value was pushed on. */
  ghost function InPlace(v: Slot, grown: seq<Cell>): Slot {
    if grown == [] then v else Ref(grown[0])
  }

  /** Every cell that a write made, or changed, is accounted for.  The handle held `s` before and holds
      `here` after; it refers to the first container gone through, and the last one holds what was
      written. */
  ghost predicate Accounted(h: Heap, h': Heap, s: Slot, here: Slot, path: seq<Step>, action: Action, ok: bool,
                            now: seq<Cell>, made: set<Cell>, grown: seq<Cell>, v: Slot) {
    var was := Met(h, s, path);
    && Wrote(h, h', path, was, now, BeforeShared(h, was), made, grown)
    && |made| <= 1 && (ok ==> |now| == |path|)
    && (if ok && action.PushBack? then |grown| == 1 else grown == [])
    && (now != [] ==> here == Ref(now[0]))
    && (ok ==> if path == [] then here == InPlace(v, grown)
               else Holds(h'[now[|now| - 1]], LastIndex(h, s, path), InPlace(v, grown)))
  }

  lemma MinimalEnd(h: Heap, h1: Heap, p: Place, s: Slot, path: seq<Step>, now: seq<Cell>)
    requires Minimal(h, h1, p, s, path, now)
    ensures var was := Met(h, s, path); EndShared(h, h1, End(h, s, path), BeforeShared(h, was) == |was|)
  {}

  lemma AccountedThrown(h: Heap, h1: Heap, x: nat, s: Slot, here: Slot, path: seq<Step>, action: Action,
                        now: seq<Cell>, v: Slot)
    requires Minimal(h, h1, Handle(x), s, path, now) && (now != [] ==> here == Ref(now[0]))
    ensures Accounted(h, h1, s, here, path, action, false, now, {}, [], v)
  {
    assert now + [] == now;
  }

  lemma AccountedAfter(h: Heap, h1: Heap, h2: Heap, h3: Heap, x: nat, s: Slot, here: Slot, path: seq<Step>,
                       action: Action, now: seq<Cell>, p: Place, made: set<Cell>, v: Slot, grown: seq<Cell>)
    requires Minimal(h, h1, Handle(x), s, path, now) && |now| == |path|
    requires if path == [] then p == Handle(x) else p == Inside(now[|now| - 1], LastIndex(h, s, path))
    requires Evaluated(h1, h2, made) && made !! h.Keys && |made| <= 1
    requires forall c :: c in made ==> c in h3 && c !in grown
    requires ReslottedBut(h2, h3, p, InPlace(v, grown), grown)
    requires forall c <- now :: c in h3 && c !in grown
    requires (forall e :: e in h3 ==> e in h2 || e in grown) && forall e :: e in h && e in h3 ==> e in h1
    requires if action.PushBack? then |grown| == 1 else grown == []
    requires now != [] ==> here == Ref(now[0])
    requires match p
      case Handle(_) => here == InPlace(v, grown)
      case Inside(c, i) => c in h3 && Holds(h3[c], i, InPlace(v, grown))
    ensures Accounted(h, h3, s, here, path, action, true, now, made, grown, v)
  {
    hide Wrote, Minimal, ReslottedBut, Evaluated, Met, LastIndex, BeforeShared, Holds, InPlace;
    WroteAfter(h, h1, h2, h3, x, s, path, now, made, InPlace(v, grown), grown);
  }

  /** The second half of a write, from heap `h1` by way of `mid`: the source made `made` at most, and
      the place, which held `loaded` before and `there` after, was assigned to or grown by `v`. */
  ghost predicate Finished(h1: Heap, mid: Heap, h3: Heap, p: Place, action: Action, now: seq<Cell>, made: set<Cell>,
                           grown: seq<Cell>, loaded: Slot, there: Slot, taken: bool, moved: bool, v: Slot) {
    && Evaluated(h1, mid, made) && |made| <= 1 && (forall c :: c in made ==> c in h3)
    && ReslottedBut(mid, h3, p, InPlace(v, grown), grown) && (forall e :: e in h3 ==> e in mid || e in grown)
    && (forall e <- now :: e in h3 && e !in grown)
    && (if action.PushBack? then |grown| == 1 && Grown(mid, h3, p, there, v, grown[0]) else grown == [])
    && (if moved then !there.Ref? else there == loaded)
    && (there.Ref? ==>
          && there.cell in mid && there.cell in h1
          && (mid[there.cell].count == 1 <==> h1[there.cell].count == 1 && !taken))
    && (p.Inside? ==> p.cell in h3 && Holds(h3[p.cell], p.i, InPlace(v, grown)))
  }

  /** A vector that was grown is not a cell the source made. */
  lemma GrownNotMade(h1: Heap, mid: Heap, h3: Heap, p: Place, there: Slot, v: Slot, on: Cell, made: set<Cell>)
    requires Evaluated(h1, mid, made) && Grown(mid, h3, p, there, v, on) && (there.Ref? ==> there.cell in h1)
    ensures on !in made
  {}

  lemma FinishedIs(h1: Heap, mid: Heap, h3: Heap, p: Place, action: Action, now: seq<Cell>, made: set<Cell>,
                   grown: seq<Cell>, loaded: Slot, there: Slot, taken: bool, moved: bool, v: Slot)
    requires Evaluated(h1, mid, made) && |made| <= 1 && forall c :: c in made ==> c in h3
    requires ReslottedBut(mid, h3, p, InPlace(v, grown), grown) && forall e :: e in h3 ==> e in mid || e in grown
    requires forall e <- now :: e in h3 && e !in grown
    requires if action.PushBack? then |grown| == 1 && Grown(mid, h3, p, there, v, grown[0]) else grown == []
    requires if moved then !there.Ref? else there == loaded
    requires there.Ref? ==>
      && there.cell in mid && there.cell in h1
      && (mid[there.cell].count == 1 <==> h1[there.cell].count == 1 && !taken)
    requires p.Inside? ==> p.cell in h3 && Holds(h3[p.cell], p.i, InPlace(v, grown))
    ensures Finished(h1, mid, h3, p, action, now, made, grown, loaded, there, taken, moved, v)
  {}

  lemma AccountedAndPushed(h: Heap, h1: Heap, mid: Heap, h3: Heap, x: nat, s: Slot, here: Slot, path: seq<Step>,
                           action: Action, now: seq<Cell>, p: Place, made: set<Cell>, grown: seq<Cell>, there: Slot,
                           taken: bool, moved: bool, v: Slot)
    requires Minimal(h, h1, Handle(x), s, path, now) && |now| == |path|
    requires if path == [] then p == Handle(x) else p == Inside(now[|now| - 1], LastIndex(h, s, path))
    requires Finished(h1, mid, h3, p, action, now, made, grown, End(h, s, path), there, taken, moved, v)
    requires made !! h.Keys && forall e :: e in h && e in h3 ==> e in h1
    requires (now != [] ==> here == Ref(now[0])) && (path == [] ==> here == InPlace(v, grown))
    ensures Accounted(h, h3, s, here, path, action, true, now, made, grown, v)
    ensures action.PushBack? ==>
      var was := Met(h, s, path);
      |grown| == 1 && Pushed(h, h3, End(h, s, path), BeforeShared(h, was) == |was|, taken, moved, v, grown[0])
  {
    hide Minimal, Pushed, Grown, Evaluated, EndShared, ReslottedBut, Accounted, Met, End, LastIndex, Holds, InPlace;
    if action.PushBack? {
      GrownNotMade(h1, mid, h3, p, there, v, grown[0], made);
    }
    AccountedAfter(h, h1, mid, h3, x, s, here, path, action, now, p, made, v, grown);
    if action.PushBack? {
      MinimalEnd(h, h1, Handle(x), s, path, now);
      var was := Met(h, s, path);
      PushedAfter(h, h1, mid, h3, p, End(h, s, path), there, made, BeforeShared(h, was) == |was|, taken, moved, v,
                  grown[0]);
    }
  }

  // ---- Which cells of a path are cloned ---------------------------------------------------

  /** Element `i` of the container is the one at the index or under the key that the call names. */
  ghost predicate NamedBy(a: CellState, step: Step, i: nat) {
    && i < |a.kids| && a.shape.Fits(|a.kids|)
    && match step
       case At(n) => a.shape.ArrayShape? && i == n
       case Key(k) => a.shape.ObjectShape? && a.shape.keys[i] == k
       case Field(k) => a.shape.ObjectShape? && a.shape.keys[i] == k
  }

  /** The path leads from slot `s` through the containers `chain` to the slot `end`. */
  ghost predicate PathIs(h: Heap, s: Slot, path: seq<Step>, chain: seq<Cell>, end: Slot)
    decreases |path|
  {
    if path == [] then chain == [] && s == end
    else
      && chain != [] && s == Ref(chain[0]) && chain[0] in h
      && exists i: nat :: NamedBy(h[chain[0]], path[0], i) && PathIs(h, h[chain[0]].kids[i], path[1..], chain[1..], end)
  }

  /** The first shared container of the path is number `m`. */
  ghost predicate SharedFrom(h: Heap, chain: seq<Cell>, m: nat) {
    && m <= |chain| && (forall c <- chain :: c in h)
    && (forall j :: 0 <= j < m ==> h[chain[j]].count == 1)
    && (m < |chain| ==> h[chain[m]].count != 1)
  }

  lemma NamedFound(a: CellState, step: Step, i: nat)
    requires NamedBy(a, step, i)
    ensures a.shape.Kind() == step.Kind() && Finds(a, step) && Index(a, step) == i
  {
    if !step.At? {
      KeyPosition(a.shape.keys, i);
    }
  }

  lemma {:induction false} PathMeets(h: Heap, s: Slot, path: seq<Step>, chain: seq<Cell>, end: Slot)
    requires PathIs(h, s, path, chain, end)
    ensures Met(h, s, path) == chain && End(h, s, path) == end
    decreases |path|
  {
    if path != [] {
      var i: nat :| NamedBy(h[chain[0]], path[0], i)
        && PathIs(h, h[chain[0]].kids[i], path[1..], chain[1..], end);
      NamedFound(h[chain[0]], path[0], i);
      PathMeets(h, h[chain[0]].kids[i], path[1..], chain[1..], end);
      assert chain == [chain[0]] + chain[1..];
    }
  }

  lemma {:induction false} SharedFromIs(h: Heap, chain: seq<Cell>, m: nat)
    requires SharedFrom(h, chain, m)
    ensures BeforeShared(h, chain) == m
  {
    if m > 0 {
      forall j | 0 <= j < m - 1
        ensures h[chain[1..][j]].count == 1
      {
        assert chain[1..][j] == chain[j + 1];
      }
      assert m < |chain| ==> chain[1..][m - 1] == chain[m];
      SharedFromIs(h, chain[1..], m - 1);
    }
  }

  /** A write that completes along a path through existing containers leaves those before the first
      shared one in place, and each from there on has a new cell; a path that shares nothing makes no
      cell.  Every other cell keeps its node, but for the vector that `pushBack` grows. */
  lemma ClonedFrom(h: Heap, h': Heap, s: Slot, here: Slot, path: seq<Step>, action: Action, now: seq<Cell>,
                   made: set<Cell>, grown: seq<Cell>, v: Slot, chain: seq<Cell>, end: Slot, m: nat)
    requires Accounted(h, h', s, here, path, action, true, now, made, grown, v)
    requires PathIs(h, s, path, chain, end) && SharedFrom(h, chain, m)
    ensures |now| == |chain| && now[..m] == chain[..m] && forall j :: m <= j < |now| ==> now[j] !in h
    ensures forall e :: e in h' && e !in h ==> e in now[m..] || e in made || e in grown
    ensures forall e :: e in h && e in h' && e !in chain[..m] && e !in grown ==>
      h'[e].shape == h[e].shape && h'[e].kids == h[e].kids
  {
    hide Met, End, BeforeShared, PathIs, SharedFrom, NodesFollow, Threaded, Distinct;
    PathMeets(h, s, path, chain, end);
    SharedFromIs(h, chain, m);
    PathLength(h, s, path, chain, end);
    forall j | m <= j < |now|
      ensures now[j] !in h
    {
      assert now[m..][j - m] == now[j];
    }
  }

  lemma {:induction false} PathLength(h: Heap, s: Slot, path: seq<Step>, chain: seq<Cell>, end: Slot)
    requires PathIs(h, s, path, chain, end)
    ensures |chain| == |path|
    decreases |path|
  {
    if path != [] {
      var i: nat :| NamedBy(h[chain[0]], path[0], i)
        && PathIs(h, h[chain[0]].kids[i], path[1..], chain[1..], end);
      PathLength(h, h[chain[0]].kids[i], path[1..], chain[1..], end);
    }
  }

  // ---- What a write stores ---------------------------------------------------------------

  /** Where a const access finds its element. */
  function LookIn(a: CellState, look: Look): (r: Option<nat>)
    ensures r.Some? ==> r.value < |a.kids|
  {
    match look
    case Element(i) => if a.shape.ArrayShape? && i < |a.kids| then Some(i) else None
    case Member(k) =>
      if a.shape.ObjectShape? && HasKey(a.shape.keys, k) && LowerBound(a.shape.keys, k) < |a.kids|
      then Some(LowerBound(a.shape.keys, k)) else None
  }

  /** The slot a chain of const accesses from slot `s` finds. */
  ghost function Seen(h: Heap, s: Slot, looks: seq<Look>): Option<Slot>
    decreases |looks|
  {
    if looks == [] then Some(s)
    else if !s.Ref? || s.cell !in h then None
    else
      var i := LookIn(h[s.cell], looks[0]);
      if i.None? then None else Seen(h, h[s.cell].kids[i.value], looks[1..])
  }

  /** The slot `v` that a source gives: the very slot that is copied or moved, or a reference to the
      one new cell, which holds copies of the handles. */
  ghost predicate Gives(h: Heap, vars: seq<Slot>, src: Source, v: Slot, made: set<Cell>, h': Heap)
    requires InScope(src, |vars|)
  {
    match src
    case Lit(a) => v == Atom(a) && made == {}
    case CopyOf(y) => v == vars[y] && made == {}
    case CopyFrom(y, looks) => Seen(h, vars[y], looks) == Some(v) && made == {}
    case MoveOf(y, _, _) => v == vars[y] && made == {}
    case ArrayOf(ys) => IsNew(v, made, h', ArrayShape, Select(vars, ys))
    case ObjectOf(keys, ys) => IsNew(v, made, h', ObjectShape(keys), Select(vars, ys))
  }

  ghost predicate IsNew(v: Slot, made: set<Cell>, h': Heap, shape: Shape, kids: seq<Slot>) {
    v.Ref? && made == {v.cell} && v.cell in h' && h'[v.cell].shape == shape && h'[v.cell].kids == kids
  }

  lemma NewIs(h: Heap, c: Cell, shape: Shape, kids: seq<Slot>)
    requires c in h && h[c].shape == shape && h[c].kids == kids
    ensures IsNew(Ref(c), {c}, h, shape, kids)
  {}

  lemma GivesLater(h: Heap, vars: seq<Slot>, src: Source, v: Slot, made: set<Cell>, h1: Heap, h2: Heap)
    requires InScope(src, |vars|) && Gives(h, vars, src, v, made, h1)
    requires forall c :: c in made ==> c in h1 && c in h2 && h2[c].shape == h1[c].shape && h2[c].kids == h1[c].kids
    ensures Gives(h, vars, src, v, made, h2)
  {}

  /** A chain of accesses that starts off a written path stays off it, and sees the same. */
  lemma {:induction false} SeenSame(h: Heap, h1: Heap, kept: seq<Cell>, cells: seq<Cell>, s: Slot, looks: seq<Look>)
    requires OthersKept(h, h1, Handle(0), kept) && Closed(h) && Closed(h1) && forall e <- kept :: e in cells
    requires forall e, k :: e in h1 && e !in cells && k in h1[e].kids && k.Ref? ==> k.cell !in cells
    requires s.Ref? ==> s.cell in h && s.cell in h1 && s.cell !in cells
    ensures Seen(h1, s, looks) == Seen(h, s, looks)
    decreases |looks|
  {
    if looks != [] && s.Ref? {
      var i := LookIn(h[s.cell], looks[0]);
      if i.Some? {
        var kid := h[s.cell].kids[i.value];
        assert kid in h[s.cell].kids && kid in h1[s.cell].kids;
        SeenSame(h, h1, kept, cells, kid, looks[1..]);
      }
    }
  }

  /** A new cell keeps its node while it is stored. */
  lemma MadeKept(h1: Heap, mid: Heap, h3: Heap, p: Place, w: Slot, grown: seq<Cell>, made: set<Cell>)
    requires Evaluated(h1, mid, made) && ReslottedBut(mid, h3, p, w, grown) && (p.Inside? ==> p.cell in h1)
    requires forall c :: c in made ==> c in h3 && c !in grown
    ensures forall c :: c in made ==> c in mid && h3[c].shape == mid[c].shape && h3[c].kids == mid[c].kids
  {}

  lemma GivesOne(h: Heap, vars: seq<Slot>, src: Source, v: Slot, made: set<Cell>, h': Heap)
    requires InScope(src, |vars|) && Gives(h, vars, src, v, made, h')
    ensures |made| <= 1 && (made != {} ==> (src.ArrayOf? || src.ObjectOf?) && v.Ref? && made == {v.cell})
  {}

  lemma GrownHolds(h: Heap, h': Heap, p: Place, s: Slot, v: Slot, on: Cell)
    requires Grown(h, h', p, s, v, on)
    ensures on in h' && v in h'[on].kids
  {}

  lemma GivesSame(h: Heap, h1: Heap, vars: seq<Slot>, vars1: seq<Slot>, x: nat, src: Source, v: Slot, made: set<Cell>,
                  h': Heap)
    requires |vars1| == |vars| && InScope(src, |vars|) && Gives(h1, vars1, src, v, made, h') && Avoids(x, src)
    requires forall y :: 0 <= y < |vars| && y != x ==> vars1[y] == vars[y]
    requires src.CopyFrom? ==> Seen(h1, vars[src.y], src.looks) == Seen(h, vars[src.y], src.looks)
    ensures Gives(h, vars, src, v, made, h')
  {
    match src
    case ArrayOf(ys) => assert Select(vars1, ys) == Select(vars, ys);
    case ObjectOf(_, ys) => assert Select(vars1, ys) == Select(vars, ys);
    case _ =>
  }

  /** The slot `v` that a write stores: what the source gives in the heap before the write, or, when it
      is an element of the written handle, in the heap `walked` that the path leaves. */
  ghost predicate Supplied(h: Heap, vars: seq<Slot>, walked: Heap, vars': seq<Slot>, h': Heap, x: nat, path: seq<Step>,
                           src: Source, now: seq<Cell>, v: Slot, made: set<Cell>)
    requires x < |vars| == |vars'| && InScope(src, |vars|)
  {
    if Avoids(x, src) || path == [] then Gives(h, vars, src, v, made, h')
    else Minimal(h, walked, Handle(x), vars[x], path, now) && Gives(walked, vars', src, v, made, h')
  }

  lemma SuppliedIs(h: Heap, vars: seq<Slot>, h1: Heap, vars1: seq<Slot>, h': Heap, vars': seq<Slot>, x: nat,
                   path: seq<Step>, action: Action, src: Source, now: seq<Cell>, v: Slot, made: set<Cell>)
    requires x < |vars| == |vars'| == |vars1| && InScope(src, |vars|) && Outside(x, path, action, src)
    requires Gives(h1, vars1, src, v, made, h') && Minimal(h, h1, Handle(x), vars[x], path, now)
    requires path == [] ==> h1 == h && vars1 == vars
    requires forall y :: 0 <= y < |vars| && y != x ==> vars1[y] == vars[y]
    requires path != [] ==> vars'[x] == vars1[x]
    requires src.CopyFrom? && src.y != x && path != [] ==>
      Seen(h1, vars[src.y], src.looks) == Seen(h, vars[src.y], src.looks)
    ensures Supplied(h, vars, h1, vars', h', x, path, src, now, v, made)
  {
    hide Minimal, Gives, Seen;
    if path != [] && Avoids(x, src) {
      GivesSame(h, h1, vars, vars1, x, src, v, made, h');
    } else if path != [] {
      GivesHandle(h1, vars1, vars', src, v, made, h');
    }
  }

  lemma GivesHandle(h: Heap, vars: seq<Slot>, vars1: seq<Slot>, src: Source, v: Slot, made: set<Cell>, h': Heap)
    requires |vars1| == |vars| && InScope(src, |vars|) && Gives(h, vars, src, v, made, h') && src.CopyFrom?
    requires vars1[src.y] == vars[src.y]
    ensures Gives(h, vars1, src, v, made, h')
  {}

  lemma EvaluatedNone(h1: Heap, h2: Heap)
    requires h1 == h2 || (SameNodes(h1, h2) && h2.Keys == h1.Keys)
    ensures Evaluated(h1, h2, {})
  {}

  lemma EvaluatedOne(h1: Heap, h2: Heap, c: Cell)
    requires SameNodes(h1, h2) && h2.Keys == h1.Keys + {c} && c !in h1
    ensures Evaluated(h1, h2, {c})
  {}

  lemma EvaluatedKeys(h1: Heap, h2: Heap, made: set<Cell>)
    requires Evaluated(h1, h2, made)
    ensures h2.Keys == h1.Keys + made && made !! h1.Keys
  {}
}
