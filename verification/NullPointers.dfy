/** Null container pointers in programs: a reader cannot tell them from empty containers, and the
    printer must not meet them. */
module NullPointers {
  import opened Collections
  import opened Wrappers
  import opened Trees
  import opened Semantics

  // ---- A reader sees value semantics -----------------------------------------------------

  lemma FlatUpdate(ts: seq<Tree>, i: nat, t: Tree)
    requires i < |ts|
    ensures FlatAll(ts[i := t]) == FlatAll(ts)[i := Flat(t)]
  {}

  lemma FlatInsert(ts: seq<Tree>, pos: nat, t: Tree)
    requires pos <= |ts|
    ensures FlatAll(InsertAt(ts, pos, t)) == InsertAt(FlatAll(ts), pos, Flat(t))
  {}

  lemma FlatPromoted(t: Tree, kind: Kind, replace: bool)
    ensures var b := Promoted(t, kind, replace);
      Promoted(Flat(t), kind, replace) == if b.Some? then Some(Flat(b.value)) else None
  {}

  lemma FlatEnterKey(b: Tree, k: string)
    requires IsKind(b, ObjectKind)
    ensures var e := EnterKey(b, k); EnterKey(Flat(b), k) == Entry(Flat(e.tree), e.kid)
  {
    hide LowerBound, Ascending;
    if b.shape.Fits(|b.kids|) && !HasKey(b.shape.keys, k) {
      FlatInsert(b.kids, LowerBound(b.shape.keys, k), Leaf(Null));
    }
  }

  lemma FlatEnter(t: Tree, s: Step)
    ensures var e := Enter(t, s); Enter(Flat(t), s) == Entry(Flat(e.tree), e.kid)
  {
    hide Promoted, EnterKey, Enter;
    EnterParts(t, s);
    EnterParts(Flat(t), s);
    FlatPromoted(t, s.Kind(), s.Key?);
    var b := Promoted(t, s.Kind(), s.Key?);
    if b.Some? && !s.At? {
      FlatEnterKey(b.value, s.k);
    }
  }

  lemma {:induction false} FlatWalk(t: Tree, path: seq<Step>)
    ensures var w := Walk(t, path); Walk(Flat(t), path) == Walked(Flat(w.tree), w.at)
    decreases |path|
  {
    if path != [] {
      var e := Enter(t, path[0]);
      FlatEnter(t, path[0]);
      if e.kid.Some? {
        var i := e.kid.value;
        FlatWalk(e.tree.kids[i], path[1..]);
        FlatUpdate(e.tree.kids, i, Walk(e.tree.kids[i], path[1..]).tree);
      }
    }
  }

  lemma {:induction false} FlatGraft(t: Tree, at: seq<nat>, new_: Tree)
    requires Reaches(t, at)
    ensures Reaches(Flat(t), at) && Sub(Flat(t), at) == Flat(Sub(t, at))
    ensures Graft(Flat(t), at, Flat(new_)) == Flat(Graft(t, at, new_))
  {
    if at != [] {
      FlatGraft(t.kids[at[0]], at[1..], new_);
      FlatUpdate(t.kids, at[0], Graft(t.kids[at[0]], at[1..], new_));
    }
  }

  lemma {:induction false} FlatPeek(t: Tree, looks: seq<Look>)
    ensures var p := Peek(t, looks);
      Peek(Flat(t), looks) == if p.Some? then Some(Flat(p.value)) else None
    decreases |looks|
  {
    if looks != [] {
      assert LookAt(Flat(t), looks[0]) == LookAt(t, looks[0]);
      if LookAt(t, looks[0]).Some? {
        FlatPeek(t.kids[LookAt(t, looks[0]).value], looks[1..]);
      }
    }
  }

  lemma FlatSelect(ts: seq<Tree>, ys: seq<nat>)
    requires Below(ys, |ts|)
    ensures Select(FlatAll(ts), ys) == FlatAll(Select(ts, ys))
  {}

  lemma FlatDrained(t: Tree, text: string, bytes: seq<Byte>)
    ensures Flat(Drained(t, text, bytes, true)) == Drained(Flat(t), text, bytes, false)
  {}

  lemma FlatSource(ts: seq<Tree>, src: Source)
    requires InScope(src, |ts|)
    ensures Readable(FlatAll(ts), src) <==> Readable(ts, src)
    ensures Readable(ts, src) ==> SourceTree(FlatAll(ts), src) == Flat(SourceTree(ts, src))
    ensures AfterSource(FlatAll(ts), src, false) == FlatAll(AfterSource(ts, src, true))
  {
    hide Peek, Drained, Select;
    match src
    case CopyFrom(y, looks) => FlatPeek(ts[y], looks);
    case ArrayOf(ys) => FlatSelect(ts, ys);
    case ObjectOf(_, ys) => FlatSelect(ts, ys);
    case MoveOf(y, text, bytes) =>
      FlatDrained(ts[y], text, bytes);
      FlatUpdate(ts, y, Drained(ts[y], text, bytes, true));
    case _ =>
  }

  lemma FlatPerform(action: Action, t: Tree, v: Tree)
    ensures Perform(action, Flat(t), Flat(v)) == Flat(Perform(action, t, v))
  {}

  lemma FlatStored(ts: seq<Tree>, x: nat, at: seq<nat>, action: Action, src: Source)
    requires x < |ts| && InScope(src, |ts|) && Readable(ts, src)
    requires Reaches(ts[x], at) && (at == [] || !Names(x, src))
    ensures Reaches(Flat(ts[x]), at) && Readable(FlatAll(ts), src)
    ensures Stored(FlatAll(ts), x, at, action, src, false) == FlatAll(Stored(ts, x, at, action, src, true))
  {
    hide Flat, Perform, SourceTree, AfterSource, Readable;
    FlatSource(ts, src);
    var after, v := AfterSource(ts, src, true), SourceTree(ts, src);
    FlatGraft(ts[x], at, v);
    StillReaches(ts, x, at, src);
    var new_ := Perform(action, Sub(after[x], at), v);
    FlatPerform(action, Sub(after[x], at), v);
    FlatGraft(after[x], at, new_);
    FlatUpdate(after, x, Graft(after[x], at, new_));
  }

  lemma StillReaches(ts: seq<Tree>, x: nat, at: seq<nat>, src: Source)
    requires x < |ts| && InScope(src, |ts|)
    requires Reaches(ts[x], at) && (at == [] || !Names(x, src))
    ensures Reaches(AfterSource(ts, src, true)[x], at)
  {}

  lemma FlatWritten(ts: seq<Tree>, x: nat, path: seq<Step>, action: Action, src: Source)
    requires x < |ts| && InScope(src, |ts|) && Outside(x, path, action, src)
    ensures var r := Written(ts, x, path, action, src, true);
      Written(FlatAll(ts), x, path, action, src, false) == (FlatAll(r.0), r.1)
  {
    hide Flat, SourceTree, AfterSource, Readable, Stored, Walk, Scrambled, Reaches;
    if SelfMove(x, path, action, src) {
      FlatScrambled(ts[x], src.leftText, src.leftBytes);
      FlatUpdate(ts, x, Scrambled(ts[x], src.leftText, src.leftBytes));
    } else {
      FlatSource(ts, src);
      var w := Walk(ts[x], path);
      var walked := ts[x := w.tree];
      FlatWalk(ts[x], path);
      FlatUpdate(ts, x, w.tree);
      FlatSource(walked, src);
      if path == [] {
        WalkNone(ts[x]);
      }
      if w.at.Some? && Readable(walked, src) && !(action.Assign? && !Readable(ts, src)) {
        FlatStored(walked, x, w.at.value, action, src);
      }
    }
  }

  lemma FlatScrambled(t: Tree, text: string, bytes: seq<Byte>)
    ensures Flat(Scrambled(t, text, bytes)) == Scrambled(Flat(t), text, bytes)
  {}

  /** Reading after a program that leaves null pointers is reading after the same program in a world
      where a move leaves an empty container. */
  lemma {:induction false} FlatRun(ts: seq<Tree>, cs: seq<Command>)
    requires LegalRun(|ts|, cs)
    ensures EffectOfRun(FlatAll(ts), cs, false) == FlatAll(EffectOfRun(ts, cs, true))
    decreases |cs|
  {
    if cs != [] {
      FlatEffect(ts, cs[0]);
      FlatRun(Effect(ts, cs[0], true), cs[1..]);
    }
  }

  lemma FlatEffect(ts: seq<Tree>, c: Command)
    requires Legal(|ts|, c)
    ensures Effect(FlatAll(ts), c, false) == FlatAll(Effect(ts, c, true))
  {
    hide Written, Walk;
    match c
    case Declare =>
    case Call(x, path) =>
      FlatWalk(ts[x], path);
      FlatUpdate(ts, x, Walk(ts[x], path).tree);
    case Write(x, path, action, src) => FlatWritten(ts, x, path, action, src);
  }

  // ---- Where null pointers can be --------------------------------------------------------

  /** Null pointers are at most in the handle itself, not below it. */
  ghost predicate Shallow(t: Tree) {
    NullFree(t) || t.Vacant?
  }

  ghost predicate AllShallow(ts: seq<Tree>) {
    forall y :: 0 <= y < |ts| ==> Shallow(ts[y])
  }

  /** The source uses no handle that holds a null pointer now. */
  ghost predicate UsesNoNull(ts: seq<Tree>, src: Source)
    requires InScope(src, |ts|)
  {
    match src
    case Lit(_) => true
    case CopyOf(y) => !ts[y].Vacant?
    case CopyFrom(y, _) => !ts[y].Vacant?
    case MoveOf(y, _, _) => !ts[y].Vacant?
    case ArrayOf(ys) => forall i :: 0 <= i < |ys| ==> !ts[ys[i]].Vacant?
    case ObjectOf(_, ys) => forall i :: 0 <= i < |ys| ==> !ts[ys[i]].Vacant?
  }

  /** No statement of the program uses a moved-from container as its source. */
  ghost predicate UsesNoNullIn(ts: seq<Tree>, cs: seq<Command>)
    requires LegalRun(|ts|, cs)
    decreases |cs|
  {
    cs != [] ==>
      && (cs[0].Write? ==> UsesNoNull(ts, cs[0].source))
      && UsesNoNullIn(Effect(ts, cs[0], true), cs[1..])
  }

  lemma PromotedNullFree(t: Tree, kind: Kind, replace: bool)
    requires Shallow(t) && Promoted(t, kind, replace).Some?
    ensures NullFree(Promoted(t, kind, replace).value)
  {}

  lemma EnterKeyNullFree(b: Tree, k: string)
    requires IsKind(b, ObjectKind) && NullFree(b)
    ensures NullFree(EnterKey(b, k).tree)
  {
    hide LowerBound, Ascending;
    if b.shape.Fits(|b.kids|) && !HasKey(b.shape.keys, k) {
      var pos := LowerBound(b.shape.keys, k);
      forall t | t in InsertAt(b.kids, pos, Leaf(Null))
        ensures NullFree(t)
      {
        InsertMembers(b.kids, pos, Leaf(Null), t);
      }
    }
  }

  lemma EnterShallow(t: Tree, s: Step)
    requires Shallow(t)
    ensures Shallow(Enter(t, s).tree) && (Enter(t, s).kid.Some? ==> NullFree(Enter(t, s).tree))
  {
    hide Promoted, EnterKey, Enter, NullFree;
    EnterParts(t, s);
    var b := Promoted(t, s.Kind(), s.Key?);
    if b.Some? {
      PromotedNullFree(t, s.Kind(), s.Key?);
      if !s.At? {
        EnterKeyNullFree(b.value, s.k);
      }
    }
  }

  lemma {:induction false} WalkShallow(t: Tree, path: seq<Step>)
    requires Shallow(t)
    ensures Shallow(Walk(t, path).tree)
    ensures path != [] && Walk(t, path).at.Some? ==> NullFree(Walk(t, path).tree)
    ensures NullFree(t) ==> NullFree(Walk(t, path).tree)
    decreases |path|
  {
    if path != [] {
      var e := Enter(t, path[0]);
      EnterShallow(t, path[0]);
      if e.kid.Some? {
        WalkShallow(e.tree.kids[e.kid.value], path[1..]);
      }
    }
  }

  lemma {:induction false} GraftNullFree(t: Tree, at: seq<nat>, new_: Tree)
    requires Reaches(t, at) && NullFree(new_) && (at == [] || NullFree(t))
    ensures NullFree(Graft(t, at, new_))
    ensures NullFree(t) ==> NullFree(Sub(t, at))
  {
    if at != [] {
      GraftNullFree(t.kids[at[0]], at[1..], new_);
    }
  }

  lemma {:induction false} PeekNullFree(t: Tree, looks: seq<Look>)
    requires NullFree(t) && Peek(t, looks).Some?
    ensures NullFree(Peek(t, looks).value)
    decreases |looks|
  {
    if looks != [] {
      PeekNullFree(t.kids[LookAt(t, looks[0]).value], looks[1..]);
    }
  }

  lemma SourceNullFree(ts: seq<Tree>, src: Source)
    requires InScope(src, |ts|) && Readable(ts, src) && AllShallow(ts) && UsesNoNull(ts, src)
    ensures NullFree(SourceTree(ts, src)) && AllShallow(AfterSource(ts, src, true))
  {
    if src.CopyFrom? {
      PeekNullFree(ts[src.y], src.looks);
    }
  }

  lemma PerformNullFree(action: Action, t: Tree, v: Tree)
    requires Shallow(t) && NullFree(v)
    ensures NullFree(Perform(action, t, v))
  {}

  lemma StoredShallow(ts: seq<Tree>, x: nat, at: seq<nat>, action: Action, src: Source)
    requires x < |ts| && InScope(src, |ts|) && Readable(ts, src)
    requires Reaches(ts[x], at) && (at == [] || (!Names(x, src) && NullFree(ts[x])))
    requires AllShallow(ts) && UsesNoNull(ts, src)
    ensures AllShallow(Stored(ts, x, at, action, src, true))
  {
    hide Perform, SourceTree, NullFree, Readable, UsesNoNull;
    SourceNullFree(ts, src);
    StillReaches(ts, x, at, src);
    var after, v := AfterSource(ts, src, true), SourceTree(ts, src);
    assert Shallow(after[x]);
    if at == [] {
      GraftHere(after[x], v);
    } else {
      GraftNullFree(after[x], at, v);
    }
    PerformNullFree(action, Sub(after[x], at), v);
    GraftNullFree(after[x], at, Perform(action, Sub(after[x], at), v));
  }

  lemma EffectShallow(ts: seq<Tree>, c: Command)
    requires Legal(|ts|, c) && AllShallow(ts) && (c.Write? ==> UsesNoNull(ts, c.source))
    ensures AllShallow(Effect(ts, c, true))
  {
    hide NullFree, Walk, Stored, Readable, SourceTree;
    match c
    case Declare =>
      LeafNullFree(Null);
    case Call(x, path) => WalkShallow(ts[x], path);
    case Write(x, path, action, src) =>
      WalkShallow(ts[x], path);
      if SelfMove(x, path, action, src) {
        ScrambledShallow(ts[x], src.leftText, src.leftBytes);
      } else {
        var w := Walk(ts[x], path);
        var walked := ts[x := w.tree];
        if path == [] {
          WalkNone(ts[x]);
          assert walked == ts;
        }
        if w.at.Some? && Readable(walked, src) {
          StoredShallow(walked, x, w.at.value, action, src);
        }
      }
  }

  lemma LeafNullFree(a: Scalar)
    ensures NullFree(Leaf(a))
  {}

  lemma ScrambledShallow(t: Tree, text: string, bytes: seq<Byte>)
    requires Shallow(t)
    ensures Shallow(Scrambled(t, text, bytes))
  {}

  /** After a program that uses no moved-from container as a source, every handle is free of null
      pointers, unless it holds one itself because it was moved from and not written since. */
  lemma {:induction false} RunShallow(ts: seq<Tree>, cs: seq<Command>)
    requires LegalRun(|ts|, cs) && AllShallow(ts) && UsesNoNullIn(ts, cs)
    ensures AllShallow(EffectOfRun(ts, cs, true))
    decreases |cs|
  {
    if cs != [] {
      EffectShallow(ts, cs[0]);
      RunShallow(Effect(ts, cs[0], true), cs[1..]);
    }
  }

  // ---- A null pointer inside a handle that was not moved from ----------------------------

  /** `x = array(); y = std::move(x); z.pushBack(x);` with handles 0, 1 and 2. */
  const MOVED_THEN_PUSHED: seq<Command> := [
    Declare, Declare, Declare,
    Write(0, [], Assign, ArrayOf([])),
    Write(1, [], Assign, MoveOf(0, "", [])),
    Write(2, [], PushBack, CopyOf(0))]

  lemma RunStep(ts: seq<Tree>, cs: seq<Command>, i: nat, nulls: bool)
    requires i < |cs| && LegalRun(|ts|, cs[i..])
    ensures Legal(|ts|, cs[i]) && LegalRun(|Effect(ts, cs[i], nulls)|, cs[i + 1..])
    ensures EffectOfRun(ts, cs[i..], nulls) == EffectOfRun(Effect(ts, cs[i], nulls), cs[i + 1..], nulls)
  {}

  lemma WriteHere(ts: seq<Tree>, x: nat, action: Action, src: Source, nulls: bool)
    requires x < |ts| && InScope(src, |ts|) && Avoids(x, src) && Readable(ts, src)
    ensures Effect(ts, Write(x, [], action, src), nulls)
         == AfterSource(ts, src, nulls)[x := Perform(action, ts[x], SourceTree(ts, src))]
  {
    WalkNone(ts[x]);
    assert ts[x := ts[x]] == ts;
  }

  ghost function Gone(nulls: bool): Tree {
    if nulls then Vacant(ArrayKind) else Empty(ArrayKind)
  }

  lemma ThreeDeclared(nulls: bool)
    ensures var n := Leaf(Null);
      Effect([], Declare, nulls) == [n] && Effect([n], Declare, nulls) == [n, n]
      && Effect([n, n], Declare, nulls) == [n, n, n]
  {}

  lemma ArrayMade(nulls: bool)
    ensures var n := Leaf(Null);
      Effect([n, n, n], Write(0, [], Assign, ArrayOf([])), nulls) == [Empty(ArrayKind), n, n]
  {}

  lemma ArrayMoved(nulls: bool)
    ensures var n := Leaf(Null);
      Effect([Empty(ArrayKind), n, n], Write(1, [], Assign, MoveOf(0, "", [])), nulls)
      == [Gone(nulls), Empty(ArrayKind), n]
  {}

  lemma NullPushed(nulls: bool)
    ensures var ts := [Gone(nulls), Empty(ArrayKind), Leaf(Null)];
      Effect(ts, Write(2, [], PushBack, CopyOf(0)), nulls) == ts[2 := Branch(ArrayShape, [Gone(nulls)])]
  {
    var ts := [Gone(nulls), Empty(ArrayKind), Leaf(Null)];
    WriteHere(ts, 2, PushBack, CopyOf(0), nulls);
    assert Promoted(Leaf(Null), ArrayKind, true).value.kids + [Gone(nulls)] == [Gone(nulls)];
  }

  lemma MovedThenPushed(nulls: bool)
    ensures LegalRun(0, MOVED_THEN_PUSHED)
    ensures EffectOfRun([], MOVED_THEN_PUSHED, nulls)
         == [Gone(nulls), Empty(ArrayKind), Branch(ArrayShape, [Gone(nulls)])]
  {
    var cs := MOVED_THEN_PUSHED;
    MovedThenPushedLegal();
    hide LegalRun, Effect, EffectOfRun, Gone;
    var n := Leaf(Null);
    assert cs[0..] == cs && cs[6..] == [];
    ThreeDeclared(nulls);
    RunStep([], cs, 0, nulls);
    RunStep([n], cs, 1, nulls);
    RunStep([n, n], cs, 2, nulls);
    ArrayMade(nulls);
    RunStep([n, n, n], cs, 3, nulls);
    ArrayMoved(nulls);
    RunStep([Empty(ArrayKind), n, n], cs, 4, nulls);
    NullPushed(nulls);
    var ts := [Gone(nulls), Empty(ArrayKind), n];
    RunStep(ts, cs, 5, nulls);
    RunNone(ts[2 := Branch(ArrayShape, [Gone(nulls)])], nulls);
  }

  lemma RunNone(ts: seq<Tree>, nulls: bool)
    ensures LegalRun(|ts|, []) && EffectOfRun(ts, [], nulls) == ts
  {}

  lemma MovedThenPushedLegal()
    ensures LegalRun(0, MOVED_THEN_PUSHED)
  {}

  /** So a handle that was not moved from cannot be printed, although it reads as an array of one
      empty array. */
  lemma NotMovedFromYetNull()
    ensures LegalRun(0, MOVED_THEN_PUSHED)
    ensures var exact, read := EffectOfRun([], MOVED_THEN_PUSHED, true), EffectOfRun([], MOVED_THEN_PUSHED, false);
      && |exact| == |read| == 3 && !exact[2].Vacant? && !NullFree(exact[2])
      && read[2] == Branch(ArrayShape, [Empty(ArrayKind)])
  {
    MovedThenPushed(true);
    MovedThenPushed(false);
    assert Vacant(ArrayKind) in [Vacant(ArrayKind)];
  }
}
