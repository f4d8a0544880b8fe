/** What a program may rely on when it reads through its handles what it wrote through them. */
module ReadWrite {
  import opened Collections
  import opened Wrappers
  import opened Trees
  import opened Semantics

  ghost predicate Keyed(t: Tree) {
    IsKind(t, ObjectKind) && t.shape.Fits(|t.kids|)
  }

  /** An object as the map it stands for. */
  ghost function Entries(t: Tree): map<string, Tree>
    requires Keyed(t)
  {
    map k | k in t.shape.keys :: ValueUnder(t, k)
  }

  ghost function ValueUnder(t: Tree, k: string): Tree
    requires Keyed(t) && k in t.shape.keys
  {
    LowerBoundFinds(t.shape.keys, k);
    t.kids[LowerBound(t.shape.keys, k)]
  }

  lemma EntryAt(t: Tree, i: nat)
    requires Keyed(t) && i < |t.kids|
    ensures t.shape.keys[i] in Entries(t) && Entries(t)[t.shape.keys[i]] == t.kids[i]
  {
    KeyPosition(t.shape.keys, i);
  }

  /** A map with an object's keys and, at each of them, its value is what the object stands for. */
  lemma EntriesAre(t: Tree, m: map<string, Tree>)
    requires Keyed(t) && (forall k :: k in m <==> k in t.shape.keys)
    requires forall i :: 0 <= i < |t.kids| && t.shape.keys[i] in m ==> m[t.shape.keys[i]] == t.kids[i]
    ensures Entries(t) == m
  {
    forall k | k in m
      ensures Entries(t)[k] == m[k]
    {
      var i :| 0 <= i < |t.kids| && t.shape.keys[i] == k;
      EntryAt(t, i);
    }
  }

  /** `object[k] = v` is assignment to a map, whether or not the key was there; and before the
      assignment the reference is to the value under the key, or to null. */
  lemma KeyAccess(t: Tree, k: string, v: Tree)
    requires Keyed(t)
    ensures var e := EnterKey(t, k);
      && e.kid.Some?
      && e.tree.kids[e.kid.value] == (if k in Entries(t) then Entries(t)[k] else Leaf(Null))
      && var t' := Branch(e.tree.shape, e.tree.kids[e.kid.value := v]);
         Keyed(t') && Entries(t') == Entries(t)[k := v]
  {
    var keys, pos := t.shape.keys, LowerBound(t.shape.keys, k);
    var e := EnterKey(t, k);
    var t' := Branch(e.tree.shape, e.tree.kids[pos := v]);
    LowerBoundFinds(keys, k);
    if HasKey(keys, k) {
      KeyUpdated(t, t', k, v);
    } else {
      InsertAscending(keys, k);
      KeyInserted(t, t', k, v);
    }
  }

  lemma KeyUpdated(t: Tree, t': Tree, k: string, v: Tree)
    requires Keyed(t) && HasKey(t.shape.keys, k)
    requires t' == Branch(t.shape, t.kids[LowerBound(t.shape.keys, k) := v])
    ensures Entries(t') == Entries(t)[k := v]
  {
    var keys, pos := t.shape.keys, LowerBound(t.shape.keys, k);
    forall i | 0 <= i < |keys|
      ensures Entries(t)[k := v][keys[i]] == t'.kids[i]
    {
      EntryAt(t, i);
      KeyPosition(keys, i);
    }
    EntriesAre(t', Entries(t)[k := v]);
  }

  lemma KeyInserted(t: Tree, t': Tree, k: string, v: Tree)
    requires Keyed(t) && k !in t.shape.keys && Keyed(t')
    requires var pos := LowerBound(t.shape.keys, k);
      && t'.shape.keys == InsertAt(t.shape.keys, pos, k)
      && t'.kids == InsertAt(t.kids, pos, Leaf(Null))[pos := v]
    ensures Entries(t') == Entries(t)[k := v]
  {
    hide LowerBound, Ascending, InsertAt;
    var keys, pos := t.shape.keys, LowerBound(t.shape.keys, k);
    var m := Entries(t)[k := v];
    InsertShifts(keys, pos, k);
    InsertShifts(t.kids, pos, Leaf(Null));
    forall i | 0 <= i < |t'.kids|
      ensures t'.shape.keys[i] in m && m[t'.shape.keys[i]] == t'.kids[i]
    {
      if i != pos {
        EntryAt(t, if i < pos then i else i - 1);
      }
    }
    forall key
      ensures key in t'.shape.keys <==> key == k || key in keys
    {
      InsertMembers(keys, pos, k, key);
    }
    EntriesAre(t', m);
  }

  // ---- What single calls and accesses give -----------------------------------------------

  ghost predicate IsNothing(t: Tree, kind: Kind) {
    t == Leaf(Null) || t == Vacant(kind)
  }

  /** An object with one entry, which is null, and the reference to it. */
  ghost function OneNull(k: string): Entry {
    Entry(Branch(ObjectShape([k]), [Leaf(Null)]), Some(0))
  }

  /** A call returns a reference to the entry under `k`, having made it null if there was none, and
      leaves every other entry. */
  ghost predicate RefersTo(e: Entry, t: Tree, k: string)
    requires Keyed(t)
  {
    && Keyed(e.tree) && e.kid.Some? && e.kid.value < |e.tree.kids| && e.tree.shape.keys[e.kid.value] == k
    && Entries(e.tree) == if k in Entries(t) then Entries(t) else Entries(t)[k := Leaf(Null)]
  }

  lemma KeyRefers(t: Tree, k: string)
    requires Keyed(t)
    ensures RefersTo(EnterKey(t, k), t, k)
  {
    var keys := t.shape.keys;
    LowerBoundFinds(keys, k);
    var v := if k in keys then ValueUnder(t, k) else Leaf(Null);
    KeyAccess(t, k, v);
    var e := EnterKey(t, k);
    assert e.tree.kids[e.kid.value := v] == e.tree.kids;
    assert k in keys ==> Entries(t)[k := v] == Entries(t);
  }

  /** `asObject()[k]` takes null, and a null object pointer, for an empty object; it throws exactly on
      a value of another type, which it leaves alone. */
  lemma FieldCall(t: Tree, k: string)
    ensures var e := Enter(t, Field(k));
      && (e.kid.None? <==> !Keyed(t) && !IsNothing(t, ObjectKind))
      && (e.kid.None? ==> e.tree == t)
      && (IsNothing(t, ObjectKind) ==> e == OneNull(k))
      && (Keyed(t) ==> RefersTo(e, t, k))
  {
    NewKey(k);
    if Keyed(t) {
      KeyRefers(t, k);
    }
  }

  /** `operator[](k)` does not throw: it replaces whatever is no object. */
  lemma KeyCall(t: Tree, k: string)
    ensures var e := Enter(t, Key(k));
      && (!IsKind(t, ObjectKind) ==> e == OneNull(k))
      && (Keyed(t) ==> RefersTo(e, t, k))
      && (t.WellFormed() ==> e.kid.Some?)
  {
    NewKey(k);
    if Keyed(t) {
      KeyRefers(t, k);
    }
  }

  /** `asArray().at(i)` takes null, and a null array pointer, for an empty array, which it leaves when it
      throws; it never changes an array, and leaves a value of another type alone. */
  lemma AtCall(t: Tree, i: nat)
    ensures var e := Enter(t, At(i));
      if IsKind(t, ArrayKind) then e == Entry(t, if i < |t.kids| then Some(i) else None)
      else e == Entry(if IsNothing(t, ArrayKind) then Branch(ArrayShape, []) else t, None)
  {}

  lemma NewKey(k: string)
    ensures EnterKey(Branch(ObjectShape([]), []), k) == OneNull(k)
  {
    assert InsertAt([], 0, k) == [k] && InsertAt([], 0, Leaf(Null)) == [Leaf(Null)];
  }

  /** Const accesses find the entry of a map and the element of a vector, and throw on anything else; a
      null pointer is an empty container. */
  lemma PeekSays(t: Tree, look: Look, rest: seq<Look>)
    requires t.WellFormed()
    ensures Peek(t, []) == Some(t)
    ensures Peek(t, [look] + rest) ==
      match look
      case Member(k) => if IsKind(t, ObjectKind) && k in Entries(t) then Peek(Entries(t)[k], rest) else None
      case Element(i) => if IsKind(t, ArrayKind) && i < |t.kids| then Peek(t.kids[i], rest) else None
  {
    assert ([look] + rest)[1..] == rest;
    if look.Member? && IsKind(t, ObjectKind) {
      LowerBoundFinds(t.shape.keys, look.k);
    }
  }

  /** Declaring a handle makes it null; a call whose result is dropped leaves what the call made. */
  lemma DeclareAndCall(trees: seq<Tree>, x: nat, s: Step, nulls: bool)
    ensures Effect(trees, Declare, nulls) == trees + [Leaf(Null)]
    ensures x < |trees| ==>
      && Effect(trees, Call(x, []), nulls) == trees
      && Effect(trees, Call(x, [s]), nulls) == trees[x := Enter(trees[x], s).tree]
  {
    if x < |trees| {
      var e := Enter(trees[x], s);
      assert [s][1..] == [];
      if e.kid.Some? {
        WalkNone(e.tree.kids[e.kid.value]);
        assert e.tree.kids[e.kid.value := e.tree.kids[e.kid.value]] == e.tree.kids;
      }
    }
  }

  /** A new array holds copies of the named handles in order, and a new object holds them under its
      keys; any other source gives one value. */
  lemma SourceSays(trees: seq<Tree>, src: Source)
    requires InScope(src, |trees|) && Readable(trees, src)
    ensures var v := SourceTree(trees, src);
      match src
      case Lit(a) => v == Leaf(a)
      case CopyOf(y) => v == trees[y]
      case CopyFrom(y, looks) => Peek(trees[y], looks) == Some(v)
      case MoveOf(y, _, _) => v == trees[y]
      case ArrayOf(ys) =>
        IsKind(v, ArrayKind) && |v.kids| == |ys| && forall i :: 0 <= i < |ys| ==> v.kids[i] == trees[ys[i]]
      case ObjectOf(keys, ys) =>
        Keyed(v) && Entries(v).Keys == (set k | k in keys)
        && forall i :: 0 <= i < |ys| ==> Entries(v)[keys[i]] == trees[ys[i]]
  {
    if src.ObjectOf? {
      var v := SourceTree(trees, src);
      forall i | 0 <= i < |src.ys|
        ensures src.keys[i] in Entries(v) && Entries(v)[src.keys[i]] == trees[src.ys[i]]
      {
        EntryAt(v, i);
      }
    }
  }

  /** Moving handle `y` to handle `x` gives `x` what `y` denoted and leaves in `y` a null pointer where a
      container was, something unspecified where a string or blob was, and anything else as it was. */
  lemma MoveLeaves(trees: seq<Tree>, x: nat, y: nat, text: string, bytes: seq<Byte>)
    requires x < |trees| && y < |trees| && x != y
    ensures var r := Effect(trees, Write(x, [], Assign, MoveOf(y, text, bytes)), true);
      && |r| == |trees| && r[x] == trees[y]
      && (forall z :: 0 <= z < |r| && z != x && z != y ==> r[z] == trees[z])
      && match trees[y]
         case Branch(ArrayShape, _) => r[y] == Vacant(ArrayKind)
         case Branch(ObjectShape(_), _) => r[y] == Vacant(ObjectKind)
         case Leaf(Text(_)) => r[y] == Leaf(Text(text))
         case Leaf(Binary(_)) => r[y] == Leaf(Binary(bytes))
         case _ => r[y] == trees[y]
  {
    WalkNone(trees[x]);
    assert trees[x := trees[x]] == trees;
  }

  /** Moving a handle to itself leaves a string or blob unspecified, and keeps anything else. */
  lemma SelfMoveLeaves(trees: seq<Tree>, x: nat, text: string, bytes: seq<Byte>, nulls: bool)
    requires x < |trees|
    ensures var r := Effect(trees, Write(x, [], Assign, MoveOf(x, text, bytes)), nulls);
      && |r| == |trees| && (forall z :: 0 <= z < |r| && z != x ==> r[z] == trees[z])
      && match trees[x]
         case Leaf(Text(_)) => r[x] == Leaf(Text(text))
         case Leaf(Binary(_)) => r[x] == Leaf(Binary(bytes))
         case _ => r[x] == trees[x]
  {}

  lemma EnterKeyAgain(b: Tree, k: string, v: Tree)
    requires IsKind(b, ObjectKind) && EnterKey(b, k).kid.Some?
    ensures var e := EnterKey(b, k); var t' := Branch(e.tree.shape, e.tree.kids[e.kid.value := v]);
      IsKind(t', ObjectKind) && EnterKey(t', k) == Entry(t', e.kid)
  {
    hide LowerBound;
    var keys, pos := b.shape.keys, LowerBound(b.shape.keys, k);
    LowerBoundFinds(keys, k);
    if !HasKey(keys, k) {
      InsertAscending(keys, k);
      KeyPosition(InsertAt(keys, pos, k), pos);
    }
  }

  /** Making a call again changes nothing and reaches the same kid, whatever was stored there. */
  lemma EnterAgain(t: Tree, s: Step, v: Tree)
    requires Enter(t, s).kid.Some?
    ensures var e := Enter(t, s); var t' := Branch(e.tree.shape, e.tree.kids[e.kid.value := v]);
      Enter(t', s) == Entry(t', e.kid)
  {
    hide EnterKey;
    EnterParts(t, s);
    var b := Promoted(t, if s.At? then ArrayKind else ObjectKind, s.Key?).value;
    if !s.At? {
      EnterKeyAgain(b, s.k, v);
    }
  }

  /** Following a chain of calls again after storing `v` at its end finds `v`, and changes
      nothing. */
  lemma {:induction false} WalkAgain(t: Tree, path: seq<Step>, v: Tree)
    requires Walk(t, path).at.Some?
    ensures var w := Walk(t, path); var t' := Graft(w.tree, w.at.value, v);
      && Walk(t', path) == Walked(t', w.at)
      && Reaches(t', w.at.value) && Sub(t', w.at.value) == v
    decreases |path|
  {
    var w := Walk(t, path);
    GraftGraft(w.tree, w.at.value, v, v);
    if path != [] {
      var e := Enter(t, path[0]);
      var i := e.kid.value;
      var rest := Walk(e.tree.kids[i], path[1..]);
      var sub := Graft(rest.tree, rest.at.value, v);
      assert w.at.value[1..] == rest.at.value && w.tree.kids[i := sub] == e.tree.kids[i := sub];
      EnterAgain(t, path[0], sub);
      WalkAgain(e.tree.kids[i], path[1..], v);
    }
  }

  /** The trees a write's source is read from: those from before an assignment, and those the path
      leaves for `pushBack`. */
  ghost function SourceTrees(trees: seq<Tree>, x: nat, path: seq<Step>, action: Action): (r: seq<Tree>)
    requires x < |trees|
    ensures |r| == |trees|
  {
    if action.Assign? then trees else trees[x := Walk(trees[x], path).tree]
  }

  /** The elements a value keeps when another is appended: none if it is no array, or is the one that
      is moved. */
  ghost function Kept(t: Tree, x: nat, src: Source): seq<Tree> {
    if IsKind(t, ArrayKind) && !(src.MoveOf? && src.y == x) then t.kids else []
  }

  /** After a statement that writes and throws nothing, following the path again changes nothing
      more, and finds the source's value, or the array found there before with that value appended;
      every other handle, unless it was moved from, is as before.  One that throws leaves what the calls
      of its path did, or nothing when the source of an assignment throws first. */
  lemma WriteReadsBack(trees: seq<Tree>, x: nat, path: seq<Step>, action: Action, src: Source, nulls: bool)
    requires x < |trees| && InScope(src, |trees|) && Outside(x, path, action, src)
    requires !SelfMove(x, path, action, src)
    ensures var r := Written(trees, x, path, action, src, nulls);
      r.1 <==> Walk(trees[x], path).at.Some? && Readable(SourceTrees(trees, x, path, action), src)
    ensures var r := Written(trees, x, path, action, src, nulls);
      var w, again := Walk(trees[x], path), Walk(r.0[x], path);
      r.1 ==>
        && again.tree == r.0[x] && again.at == w.at && w.at.Some?
        && var v := SourceTree(SourceTrees(trees, x, path, action), src);
           Sub(again.tree, w.at.value) ==
             if action.Assign? then v
             else Branch(ArrayShape, Kept(Sub(w.tree, w.at.value), x, src) + [v])
    ensures var r := Written(trees, x, path, action, src, nulls);
      !r.1 ==> r.0 == if action.Assign? && !Readable(trees, src) then trees
                      else trees[x := Walk(trees[x], path).tree]
    ensures Avoids(x, src) || path == [] ==>
      var seen := SourceTrees(trees, x, path, action);
      && (Readable(seen, src) <==> Readable(trees, src))
      && (Readable(trees, src) ==> SourceTree(seen, src) == SourceTree(trees, src))
    ensures var r := Written(trees, x, path, action, src, nulls);
      forall y :: 0 <= y < |trees| && y != x && !(src.MoveOf? && src.y == y) ==> r.0[y] == trees[y]
  {
    hide Walk, SourceTree, Readable, Perform;
    var w := Walk(trees[x], path);
    var walked := trees[x := w.tree];
    if path == [] {
      WalkNone(trees[x]);
      assert walked == trees;
    } else if Avoids(x, src) {
      SourceUntouched(trees, x, w.tree, src);
    }
    if w.at.Some? && Readable(walked, src) {
      var after := AfterSource(walked, src, nulls);
      var t, v := Sub(after[x], w.at.value), SourceTree(walked, src);
      PerformKeeps(action, Sub(w.tree, w.at.value), t, x, src, v);
      if path == [] {
        WalkNone(Perform(action, t, v));
      } else {
        WalkAgain(trees[x], path, Perform(action, t, v));
      }
    }
  }

  lemma PerformKeeps(action: Action, was: Tree, t: Tree, x: nat, src: Source, v: Tree)
    requires if src.MoveOf? && src.y == x then !IsKind(t, ArrayKind) || t.kids == [] else t == was
    ensures Perform(action, t, v)
         == if action.Assign? then v else Branch(ArrayShape, Kept(was, x, src) + [v])
  {}

  lemma SourceUntouched(trees: seq<Tree>, x: nat, t: Tree, src: Source)
    requires x < |trees| && InScope(src, |trees|) && Avoids(x, src)
    ensures Readable(trees[x := t], src) <==> Readable(trees, src)
    ensures Readable(trees, src) ==> SourceTree(trees[x := t], src) == SourceTree(trees, src)
  {}

  /** Passing a source by value is storing it in a temporary first, and that needs no condition on
      the source: `v[path] = Value(v)` puts the tree that `v` had into `v`. */
  lemma ThroughTemporary(trees: seq<Tree>, x: nat, path: seq<Step>, src: Source, nulls: bool,
                         text: string, bytes: seq<Byte>)
    requires x < |trees| && InScope(src, |trees|) && Readable(trees, src)
    ensures var n := |trees|; var v := SourceTree(trees, src); var after := AfterSource(trees, src, nulls);
      var run := [Declare, Write(n, [], Assign, src), Write(x, path, Assign, MoveOf(n, text, bytes))];
      var w := Walk(after[x], path);
      && LegalRun(n, run)
      && EffectOfRun(trees, run, nulls) ==
         if w.at.None? then after[x := w.tree] + [v]
         else after[x := Graft(w.tree, w.at.value, v)] + [Drained(v, text, bytes, nulls)]
  {
    hide *;
    var n := |trees|;
    var c1, c2 := Write(n, [], Assign, src), Write(x, path, Assign, MoveOf(n, text, bytes));
    SourceInMore(trees, src, nulls);
    LegalInTurn(n, x, path, src, text, bytes);
    RunThree(trees, Declare, c1, c2, nulls);
    HandleSet(trees, src, nulls);
    StoredFrom(AfterSource(trees, src, nulls), SourceTree(trees, src), x, path, nulls, text, bytes);
  }

  lemma LegalInTurn(n: nat, x: nat, path: seq<Step>, src: Source, text: string, bytes: seq<Byte>)
    requires x < n && InScope(src, n)
    ensures Legal(n, Declare) && Legal(n + 1, Write(n, [], Assign, src))
    ensures Legal(n + 1, Write(x, path, Assign, MoveOf(n, text, bytes)))
  {}

  lemma RunThree(trees: seq<Tree>, a: Command, b: Command, c: Command, nulls: bool)
    requires a.Declare? && b.Write? && c.Write?
    requires Legal(|trees| + 1, b) && Legal(|trees| + 1, c)
    ensures LegalRun(|trees|, [a, b, c])
    ensures EffectOfRun(trees, [a, b, c], nulls)
         == Effect(Effect(Effect(trees, a, nulls), b, nulls), c, nulls)
  {
    hide Legal, Written;
    assert [a, b, c][1..] == [b, c] && [b, c][1..] == [c] && [c][1..] == [];
    LegalDeclare(|trees|, a);
    var t1 := Effect(trees, a, nulls);
    var t2 := Effect(t1, b, nulls);
    assert LegalRun(|trees| + 1, [c]);
    assert [b, c][0] == b && LegalRun(|trees| + 1, [b, c]);
    assert EffectOfRun(t2, [c], nulls) == Effect(t2, c, nulls);
  }

  lemma LegalDeclare(n: nat, c: Command)
    requires c.Declare?
    ensures Legal(n, c)
  {}

  /** Declaring a handle and giving it its first value. */
  lemma HandleSet(trees: seq<Tree>, src: Source, nulls: bool)
    requires InScope(src, |trees|) && InScope(src, |trees| + 1) && Readable(trees, src)
    ensures var c := Write(|trees|, [], Assign, src);
      && Legal(|trees|, Declare) && Legal(|trees| + 1, c)
      && Effect(Effect(trees, Declare, nulls), c, nulls)
      == AfterSource(trees, src, nulls) + [SourceTree(trees, src)]
  {
    hide SourceTree, AfterSource, Walk, Readable;
    var n, t1 := |trees|, trees + [Leaf(Null)];
    SourceInMore(trees, src, nulls);
    WalkNone(Leaf(Null));
    assert t1[n := Leaf(Null)] == t1;
  }

  lemma StoredFrom(after: seq<Tree>, v: Tree, x: nat, path: seq<Step>, nulls: bool, text: string, bytes: seq<Byte>)
    requires x < |after|
    ensures var c := Write(x, path, Assign, MoveOf(|after|, text, bytes)); var w := Walk(after[x], path);
      && Legal(|after| + 1, c)
      && Effect(after + [v], c, nulls) ==
         if w.at.None? then after[x := w.tree] + [v]
         else after[x := Graft(w.tree, w.at.value, v)] + [Drained(v, text, bytes, nulls)]
  {}

  /** One more handle changes no source that does not name it. */
  lemma SourceInMore(trees: seq<Tree>, src: Source, nulls: bool)
    requires InScope(src, |trees|) && Readable(trees, src)
    ensures var more := trees + [Leaf(Null)];
      && InScope(src, |more|) && Readable(more, src)
      && SourceTree(more, src) == SourceTree(trees, src)
      && AfterSource(more, src, nulls) == AfterSource(trees, src, nulls) + [Leaf(Null)]
  {}
}
