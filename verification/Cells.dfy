/** The counted cells behind arrays and objects, and the arithmetic of their counts. */
module Cells {
  import opened Collections
  import opened Trees

  /** The control block and the vector or map it owns: what a `shared_ptr` points to. */
  class Cell {
    var count: nat
    var shape: Shape
    var kids: seq<Slot>

    constructor (shape: Shape, kids: seq<Slot>)
      ensures this.count == 1 && this.shape == shape && this.kids == kids
    {
      this.count, this.shape, this.kids := 1, shape, kids;
    }
  }

  /** One `Value`: its tag together with the active alternative of its storage.  `Hollow` is a
      null array or object pointer, as a moved-from handle holds. */
  datatype Slot = Atom(a: Scalar) | Hollow(kind: Kind) | Ref(cell: Cell)

  /** What a cell holds at one moment. */
  datatype CellState = CellState(count: nat, shape: Shape, kids: seq<Slot>)

  type Heap = map<Cell, CellState>

  // ---- How often a cell is referred to -------------------------------------------------

  ghost function One(s: Slot): multiset<Cell> {
    if s.Ref? then multiset{s.cell} else multiset{}
  }

  ghost function Refs(slots: seq<Slot>): multiset<Cell> {
    if slots == [] then multiset{} else One(slots[0]) + Refs(slots[1..])
  }

  /** All references held by slots of live cells. */
  ghost function AllRefs(h: Heap): multiset<Cell> {
    if h == map[] then multiset{}
    else
      var c :| c in h;
      Refs(h[c].kids) + AllRefs(h - {c})
  }

  /** Every count is the number of holders: slots of live cells plus the references in `ext`
      (root handles and temporaries); and nothing refers to a dead cell. */
  ghost predicate Counted(h: Heap, ext: multiset<Cell>) {
    Tallies(h, AllRefs(h), ext)
  }

  ghost predicate Tallies(h: Heap, all: multiset<Cell>, ext: multiset<Cell>) {
    && (forall c :: c in h ==> h[c].count == all[c] + ext[c])
    && (forall c :: c in all ==> c in h)
    && (forall c :: c in ext ==> c in h)
  }

  lemma {:induction false} RefsAppend(a: seq<Slot>, b: seq<Slot>)
    ensures Refs(a + b) == Refs(a) + Refs(b)
  {
    if a == [] {
      assert a + b == b;
    } else {
      assert (a + b)[1..] == a[1..] + b;
      RefsAppend(a[1..], b);
    }
  }

  lemma RefsSplit(s: seq<Slot>, i: nat)
    requires i <= |s|
    ensures Refs(s) == Refs(s[..i]) + Refs(s[i..])
  {
    assert s == s[..i] + s[i..];
    RefsAppend(s[..i], s[i..]);
  }

  lemma RefsNone(s: seq<Slot>)
    requires s == []
    ensures Refs(s) == multiset{}
  {}

  lemma RefsHead(s: seq<Slot>)
    requires s != []
    ensures Refs(s) == One(s[0]) + Refs(s[1..])
  {}

  lemma RefsOne(v: Slot)
    ensures Refs([v]) == One(v)
  {}

  lemma RefsAt(s: seq<Slot>, i: nat)
    requires i < |s|
    ensures Refs(s) == Refs(s[..i]) + One(s[i]) + Refs(s[i + 1..])
  {
    RefsSplit(s, i);
    assert s[i..][1..] == s[i + 1..];
  }

  lemma RefsUpdate(s: seq<Slot>, i: nat, v: Slot)
    requires i < |s|
    ensures Refs(s[i := v]) + One(s[i]) == Refs(s) + One(v)
  {
    RefsAt(s, i);
    RefsAt(s[i := v], i);
    assert s[i := v][..i] == s[..i] && s[i := v][i + 1..] == s[i + 1..];
  }

  lemma RefsInsert(s: seq<Slot>, i: nat, v: Slot)
    requires i <= |s|
    ensures Refs(InsertAt(s, i, v)) == Refs(s) + One(v)
  {
    var r := InsertAt(s, i, v);
    RefsAt(r, i);
    RefsSplit(s, i);
  }

  lemma {:induction false} RefsMember(s: seq<Slot>, c: Cell)
    ensures c in Refs(s) <==> Ref(c) in s
  {
    if s != [] {
      RefsMember(s[1..], c);
      assert s == [s[0]] + s[1..];
    }
  }

  /** A cell referred to from two positions is referred to at least twice. */
  lemma RefsTwice(s: seq<Slot>, i: nat, j: nat)
    requires i < j < |s| && s[i].Ref? && s[i] == s[j]
    ensures Refs(s)[s[i].cell] >= 2
  {
    RefsAt(s, i);
    RefsMember(s[i + 1..], s[i].cell);
    assert s[i + 1..][j - i - 1] == s[j];
  }

  lemma {:induction false} AllRefsAt(h: Heap, c: Cell)
    requires c in h
    ensures AllRefs(h) == Refs(h[c].kids) + AllRefs(h - {c})
    decreases |h|
  {
    hide Refs;
    var d: Cell :| d in h && AllRefs(h) == Refs(h[d].kids) + AllRefs(h - {d});
    if d != c {
      AllRefsAt(h - {d}, c);
      AllRefsAt(h - {c}, d);
      assert h - {c} - {d} == h - {d} - {c};
    }
  }

  lemma AllRefsAdd(h: Heap, c: Cell, st: CellState)
    requires c !in h
    ensures AllRefs(h[c := st]) == AllRefs(h) + Refs(st.kids)
  {
    AllRefsAt(h[c := st], c);
    assert h[c := st] - {c} == h;
  }

  lemma {:induction false} AllRefsMember(h: Heap, d: Cell)
    ensures d in AllRefs(h) <==> exists c :: c in h && Ref(d) in h[c].kids
    decreases |h|
  {
    if h != map[] {
      var c: Cell :| c in h && AllRefs(h) == Refs(h[c].kids) + AllRefs(h - {c});
      RefsMember(h[c].kids, d);
      AllRefsMember(h - {c}, d);
      assert forall e :: e in h <==> e == c || e in h - {c};
    }
  }

  /** Two different holders make at least two references. */
  lemma TwoHolders(h: Heap, a: Cell, b: Cell, d: Cell)
    requires a in h && b in h && a != b
    requires Ref(d) in h[a].kids && Ref(d) in h[b].kids
    ensures AllRefs(h)[d] >= 2
  {
    AllRefsAt(h, a);
    AllRefsAt(h - {a}, b);
    RefsMember(h[a].kids, d);
    RefsMember(h[b].kids, d);
  }

  // ---- The elementary moves keep every count exact -------------------------------------

  ghost function Retain(h: Heap, c: Cell): Heap
    requires c in h
  {
    h[c := h[c].(count := h[c].count + 1)]
  }

  lemma Recounted(h: Heap, c: Cell, n: nat)
    requires c in h
    ensures AllRefs(h[c := h[c].(count := n)]) == AllRefs(h)
  {
    var h' := h[c := h[c].(count := n)];
    AllRefsAt(h, c);
    AllRefsAt(h', c);
    assert h' - {c} == h - {c};
  }

  lemma Retained(h: Heap, ext: multiset<Cell>, c: Cell)
    requires Counted(h, ext) && c in h
    ensures Counted(Retain(h, c), ext + multiset{c})
  {
    Recounted(h, c, h[c].count + 1);
  }

  lemma TallyDropped(h: Heap, all: multiset<Cell>, ext: multiset<Cell>, c: Cell)
    requires Tallies(h, all, ext + multiset{c})
    ensures c in h && h[c].count > 0
    ensures Tallies(h[c := h[c].(count := h[c].count - 1)], all, ext)
  {}

  lemma Dropped(h: Heap, ext: multiset<Cell>, c: Cell)
    requires Counted(h, ext + multiset{c})
    ensures c in h && h[c].count > 0
    ensures Counted(h[c := h[c].(count := h[c].count - 1)], ext)
  {
    hide AllRefs, Refs, Tallies;
    TallyDropped(h, AllRefs(h), ext, c);
    Recounted(h, c, h[c].count - 1);
  }

  lemma TallyFreed(h: Heap, rest: multiset<Cell>, kids: multiset<Cell>, ext: multiset<Cell>, c: Cell)
    requires Tallies(h, kids + rest, ext + multiset{c})
    requires c in h && h[c].count == 1
    ensures Tallies(h - {c}, rest, ext + kids)
    ensures c !in ext && c !in kids + rest
  {}

  /** The last holder of a cell lets go: the cell dies and its kids lose their holder. */
  lemma Freed(h: Heap, ext: multiset<Cell>, c: Cell)
    requires Counted(h, ext + multiset{c})
    requires c in h && h[c].count == 1
    ensures Counted(h - {c}, ext + Refs(h[c].kids))
    ensures c !in ext && c !in AllRefs(h)
  {
    AllRefsAt(h, c);
    TallyFreed(h, AllRefs(h - {c}), Refs(h[c].kids), ext, c);
  }

  /** A new cell, referred to by one temporary, takes over the references of its kids. */
  lemma Added(h: Heap, ext: multiset<Cell>, c: Cell, shape: Shape, kids: seq<Slot>)
    requires Counted(h, ext + Refs(kids)) && c !in h
    ensures Counted(h[c := CellState(1, shape, kids)], ext + multiset{c})
  {
    hide AllRefs, Refs;
    AllRefsAdd(h, c, CellState(1, shape, kids));
  }

  lemma TallyRewired(h: Heap, h': Heap, rest: multiset<Cell>, had: multiset<Cell>, has: multiset<Cell>,
                     lost: multiset<Cell>, won: multiset<Cell>, ext: multiset<Cell>)
    requires Tallies(h, had + rest, ext + won) && has + lost == had + won
    requires h'.Keys == h.Keys && forall c :: c in h ==> h'[c].count == h[c].count
    ensures Tallies(h', has + rest, ext + lost)
  {
    forall c: Cell
      ensures has[c] + lost[c] == had[c] + won[c]
    {
      assert (has + lost)[c] == (had + won)[c];
    }
    forall c | c in has || c in lost
      ensures c in h
    {
      assert c in had || c in won;
      assert c in had + rest || c in ext + won;
    }
  }

  /** Changing a live cell's node turns the references it gains from temporaries into slots,
      and the ones it loses into temporaries. */
  lemma Rewired(h: Heap, ext: multiset<Cell>, c: Cell, shape: Shape, kids: seq<Slot>,
                lost: multiset<Cell>, won: multiset<Cell>)
    requires c in h && Counted(h, ext + won)
    requires Refs(kids) + lost == Refs(h[c].kids) + won
    ensures Counted(h[c := CellState(h[c].count, shape, kids)], ext + lost)
  {
    hide AllRefs, Refs, Tallies;
    var h' := h[c := CellState(h[c].count, shape, kids)];
    AllRefsAt(h, c);
    AllRefsAt(h', c);
    assert h' - {c} == h - {c};
    TallyRewired(h, h', AllRefs(h - {c}), Refs(h[c].kids), Refs(kids), lost, won, ext);
  }
}
