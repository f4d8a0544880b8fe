/** The value semantics the handles are meant to have: every handle owns an immutable tree,
    copying copies the tree, and a write replaces a subtree of one handle. */
module Semantics {
  import opened Collections
  import opened Wrappers
  import opened Trees

  /** One call in a chain such as `v["a"].asObject()["b"].asArray().at(2)`. */
  datatype Step =
    | Key(k: string)    // operator[](k): anything but an object is replaced by an empty object
    | Field(k: string)  // asObject()[k]: null becomes an object, any other type throws
    | At(i: nat)        // asArray().at(i): null becomes an array, any other type throws
  {
    function Kind(): Kind {
      if At? then ArrayKind else ObjectKind
    }
  }

  /** One call in a chain of const accesses: `asObject().at(k)` or `asArray().at(i)`. */
  datatype Look = Member(k: string) | Element(i: nat)

  /** Where the value that a write stores comes from. */
  datatype Source =
    | Lit(a: Scalar)
    | CopyOf(y: nat)
    | CopyFrom(y: nat, looks: seq<Look>)  // through const accesses
    | MoveOf(y: nat, leftText: string, leftBytes: seq<Byte>)  // a moved-from string is unspecified
    | ArrayOf(ys: seq<nat>)               // with Assign: setArray, whose argument follows the path
    | ObjectOf(keys: seq<string>, ys: seq<nat>)  // with Assign: setObject

  datatype Action = Assign | PushBack

  /** A statement of a program over handles, which are numbered in order of declaration.  `Call`
      follows a chain and drops the reference it returns. */
  datatype Command =
    | Declare
    | Call(x: nat, path: seq<Step>)
    | Write(x: nat, path: seq<Step>, action: Action, source: Source)

  /** A call's effect on the value it is made on, and the kid it returns a reference to; no kid
      when the call throws. */
  datatype Entry = Entry(tree: Tree, kid: Option<nat>)

  ghost function Enter(t: Tree, s: Step): (e: Entry)
    ensures e.kid.Some? ==> e.tree.Branch? && e.kid.value < |e.tree.kids|
    ensures t.WellFormed() ==> e.tree.WellFormed()
  {
    var b := Promoted(t, s.Kind(), s.Key?);
    if b.None? then Entry(t, None) else EnterBranch(b.value, s)
  }

  /** The second half of a call: reaching into the container. */
  ghost function EnterBranch(b: Tree, s: Step): (e: Entry)
    requires IsKind(b, s.Kind())
    ensures e.kid.Some? ==> e.tree.Branch? && e.kid.value < |e.tree.kids|
    ensures b.WellFormed() ==> e.tree.WellFormed()
  {
    match s
    case At(i) => Entry(b, if i < |b.kids| then Some(i) else None)
    case Key(k) => EnterKey(b, k)
    case Field(k) => EnterKey(b, k)
  }

  /** The container a value is or becomes: null and a null pointer of the right kind turn into an
      empty one, and any other value only if `replace` lets it be replaced. */
  ghost function Promoted(t: Tree, kind: Kind, replace: bool): (b: Option<Tree>)
    ensures b.Some? ==> IsKind(b.value, kind) && (t.WellFormed() ==> b.value.WellFormed())
    ensures replace ==> b.Some?
  {
    if IsKind(t, kind) then Some(t)
    else if replace || t == Leaf(Null) || t == Vacant(kind) then Some(Empty(kind))
    else None
  }

  /** `std::map::operator[]`: an absent key is inserted in order, with a null value.  (A branch
      whose keys do not match its kids is no map; no handle denotes one.) */
  ghost function EnterKey(t: Tree, k: string): (e: Entry)
    requires IsKind(t, ObjectKind)
    ensures e.kid.Some? ==> e.tree.Branch? && e.kid.value < |e.tree.kids|
    ensures t.WellFormed() ==> e.tree.WellFormed() && e.kid.Some?
  {
    var keys, pos := t.shape.keys, LowerBound(t.shape.keys, k);
    if !t.shape.Fits(|t.kids|) then Entry(t, None)
    else if HasKey(keys, k) then Entry(t, Some(pos))
    else
      InsertAscending(keys, k);
      Entry(Branch(ObjectShape(InsertAt(keys, pos, k)), InsertAt(t.kids, pos, Leaf(Null))), Some(pos))
  }

  datatype Walked = Walked(tree: Tree, at: Option<seq<nat>>)

  /** A chain of calls: the tree it leaves, and the index path of the value it reaches. */
  ghost function Walk(t: Tree, path: seq<Step>): (w: Walked)
    ensures w.at.Some? ==> Reaches(w.tree, w.at.value)
    decreases |path|
  {
    if path == [] then Walked(t, Some([]))
    else
      var e := Enter(t, path[0]);
      if e.kid.None? then Walked(e.tree, None)
      else
        var i := e.kid.value;
        var w := Walk(e.tree.kids[i], path[1..]);
        Walked(Branch(e.tree.shape, e.tree.kids[i := w.tree]),
               if w.at.None? then None else Some([i] + w.at.value))
  }

  ghost function Perform(action: Action, t: Tree, v: Tree): Tree {
    match action
    case Assign => v
    case PushBack => Branch(ArrayShape, Promoted(t, ArrayKind, true).value.kids + [v])
  }

  /** What a moved-from handle denotes: a container handle keeps a null pointer, which `nulls` says
      to tell apart from an empty container. */
  ghost function Drained(t: Tree, leftText: string, leftBytes: seq<Byte>, nulls: bool): Tree {
    match t
    case Branch(shape, _) => if nulls then Vacant(shape.Kind()) else Empty(shape.Kind())
    case Leaf(_) => Scrambled(t, leftText, leftBytes)
    case Vacant(_) => t
  }

  /** What a handle denotes after being moved to itself: a string or blob is unspecified, and
      anything else, a container pointer too, is kept. */
  ghost function Scrambled(t: Tree, leftText: string, leftBytes: seq<Byte>): Tree {
    match t
    case Leaf(Text(_)) => Leaf(Text(leftText))
    case Leaf(Binary(_)) => Leaf(Binary(leftBytes))
    case _ => t
  }

  /** What a chain of const accesses finds; nothing when it throws. */
  ghost function Peek(t: Tree, looks: seq<Look>): Option<Tree>
    decreases |looks|
  {
    if looks == [] then Some(t)
    else
      var i := LookAt(t, looks[0]);
      if i.None? then None else Peek(t.kids[i.value], looks[1..])
  }

  /** The index path along which a chain of const accesses goes. */
  ghost function Route(t: Tree, looks: seq<Look>): (r: Option<seq<nat>>)
    ensures r.Some? <==> Peek(t, looks).Some?
    ensures r.Some? ==> |r.value| == |looks|
    decreases |looks|
  {
    if looks == [] then Some([])
    else
      var i := LookAt(t, looks[0]);
      if i.None? then None
      else
        var rest := Route(t.kids[i.value], looks[1..]);
        if rest.None? then None else Some([i.value] + rest.value)
  }

  ghost function LookAt(t: Tree, look: Look): (r: Option<nat>)
    ensures r.Some? ==> t.Branch? && r.value < |t.kids|
  {
    match look
    case Element(i) => if IsKind(t, ArrayKind) && i < |t.kids| then Some(i) else None
    case Member(k) =>
      if IsKind(t, ObjectKind) && t.shape.Fits(|t.kids|) && HasKey(t.shape.keys, k)
      then Some(LowerBound(t.shape.keys, k)) else None
  }

  predicate Below(ys: seq<nat>, n: nat) {
    forall i :: 0 <= i < |ys| ==> ys[i] < n
  }

  ghost predicate InScope(src: Source, n: nat) {
    match src
    case Lit(_) => true
    case CopyOf(y) => y < n
    case CopyFrom(y, _) => y < n
    case MoveOf(y, _, _) => y < n
    case ArrayOf(ys) => Below(ys, n)
    case ObjectOf(keys, ys) => |keys| == |ys| && Ascending(keys) && Below(ys, n)
  }

  /** Whether evaluating the source throws nothing. */
  ghost predicate Readable(trees: seq<Tree>, src: Source)
    requires InScope(src, |trees|)
  {
    src.CopyFrom? ==> Peek(trees[src.y], src.looks).Some?
  }

  ghost function SourceTree(trees: seq<Tree>, src: Source): Tree
    requires InScope(src, |trees|) && Readable(trees, src)
  {
    match src
    case Lit(a) => Leaf(a)
    case CopyOf(y) => trees[y]
    case CopyFrom(y, looks) => Peek(trees[y], looks).value
    case MoveOf(y, _, _) => trees[y]
    case ArrayOf(ys) => Branch(ArrayShape, Select(trees, ys))
    case ObjectOf(keys, ys) => Branch(ObjectShape(keys), Select(trees, ys))
  }

  function Select<T>(ts: seq<T>, ys: seq<nat>): (r: seq<T>)
    requires Below(ys, |ts|)
    ensures |r| == |ys| && forall i :: 0 <= i < |ys| ==> r[i] == ts[ys[i]]
  {
    seq(|ys|, i requires 0 <= i < |ys| => ts[ys[i]])
  }

  ghost function AfterSource(trees: seq<Tree>, src: Source, nulls: bool): (r: seq<Tree>)
    requires InScope(src, |trees|)
    ensures |r| == |trees|
  {
    match src
    case MoveOf(y, text, bytes) => trees[y := Drained(trees[y], text, bytes, nulls)]
    case _ => trees
  }

  /** A source may name the written handle only when the handle itself, and not a place inside it,
      is written; and an element of it only as the argument of `pushBack`, and only if the element
      does not lie above the place that is grown. */
  ghost predicate Outside(x: nat, path: seq<Step>, action: Action, src: Source) {
    if Avoids(x, src) then true
    else if src.CopyFrom? then action.PushBack? && !LiesAbove(src.looks, path)
    else path == []
  }

  /** The access finds the kid that the call returns. */
  ghost predicate Alike(look: Look, s: Step) {
    match s
    case At(i) => look == Element(i)
    case Key(k) => look == Member(k)
    case Field(k) => look == Member(k)
  }

  /** The accesses go along a chain of calls. */
  ghost predicate Along(looks: seq<Look>, path: seq<Step>) {
    |looks| <= |path| && forall j :: 0 <= j < |looks| ==> Alike(looks[j], path[j])
  }

  /** The accesses end at a container that the chain of calls goes through. */
  ghost predicate LiesAbove(looks: seq<Look>, path: seq<Step>) {
    Along(looks, path) && |looks| < |path|
  }

  ghost predicate Avoids(x: nat, src: Source) {
    !Names(x, src) && (src.CopyFrom? ==> src.y != x)
  }

  /** The source takes the whole value of the handle. */
  ghost predicate Names(x: nat, src: Source) {
    match src
    case Lit(_) => false
    case CopyOf(y) => y == x
    case CopyFrom(y, looks) => false
    case MoveOf(y, _, _) => y == x
    case ArrayOf(ys) => x in ys
    case ObjectOf(_, ys) => x in ys
  }

  /** The source copies or moves what the written place holds. */
  ghost predicate Takes(x: nat, path: seq<Step>, src: Source) {
    Names(x, src) || (src.CopyFrom? && src.y == x && |src.looks| == |path| && Along(src.looks, path))
  }

  /** `v = std::move(v)`. */
  ghost predicate SelfMove(x: nat, path: seq<Step>, action: Action, src: Source) {
    src.MoveOf? && src.y == x && path == [] && action.Assign?
  }

  /** What a write does to the trees of all handles, and whether it completes: `false` when a call
      throws, which leaves the effect of the calls before it.  The const accesses of an assignment come
      before the path.  Whatever is copied, moved or built, for an assignment too, is so after the
      path: `operator=` copies what it refers to, and the arguments of `pushBack`, `setArray` and
      `setObject` follow the path they are called on.  (A new value on the right of `=` is built before
      the path: that is a statement of its own, which sets a temporary.) */
  ghost function Written(trees: seq<Tree>, x: nat, path: seq<Step>, action: Action, src: Source, nulls: bool)
    : (r: (seq<Tree>, bool))
    requires x < |trees| && InScope(src, |trees|) && Outside(x, path, action, src)
    ensures |r.0| == |trees|
  {
    if SelfMove(x, path, action, src) then
      (trees[x := Scrambled(trees[x], src.leftText, src.leftBytes)], true)
    else if action.Assign? && !Readable(trees, src) then (trees, false)
    else
      var w := Walk(trees[x], path);
      var walked := trees[x := w.tree];
      if w.at.None? || !Readable(walked, src) then (walked, false)
      else (Stored(walked, x, w.at.value, action, src, nulls), true)
  }

  /** The second half of a write: the source is evaluated and stored at the place reached. */
  ghost function Stored(trees: seq<Tree>, x: nat, at: seq<nat>, action: Action, src: Source, nulls: bool)
    : (r: seq<Tree>)
    requires x < |trees| && InScope(src, |trees|) && Readable(trees, src)
    requires Reaches(trees[x], at) && (at == [] || !Names(x, src))
    ensures |r| == |trees|
  {
    var after := AfterSource(trees, src, nulls);
    after[x := Graft(after[x], at, Perform(action, Sub(after[x], at), SourceTree(trees, src)))]
  }

  /** The write moves a value to itself, or its source throws before the path is followed. */
  ghost predicate Skips(trees: seq<Tree>, x: nat, path: seq<Step>, action: Action, src: Source)
    requires InScope(src, |trees|)
  {
    SelfMove(x, path, action, src) || (action.Assign? && !Readable(trees, src))
  }

  /** A source may be evaluated while the value at index path `at` is about to be written: it reads no
      container on the way there. */
  ghost predicate Clear(trees: seq<Tree>, x: nat, at: seq<nat>, src: Source)
    requires x < |trees|
  {
    && (at == [] || !Names(x, src))
    && (src.CopyFrom? && src.y == x ==>
          var a := Route(trees[x], src.looks); a.Some? && a.value <= at ==> a.value == at)
  }

  /** The source copies or moves the value at index path `at`. */
  ghost predicate TakesAt(trees: seq<Tree>, x: nat, at: seq<nat>, src: Source)
    requires x < |trees|
  {
    Names(x, src) || (src.CopyFrom? && src.y == x && Route(trees[x], src.looks) == Some(at))
  }

  lemma ClearCases(trees: seq<Tree>, x: nat, at: seq<nat>, src: Source)
    requires x < |trees| && Clear(trees, x, at, src)
    ensures match src
      case Lit(_) => !TakesAt(trees, x, at, src)
      case CopyOf(y) => (at == [] || x != y) && (TakesAt(trees, x, at, src) <==> x == y)
      case CopyFrom(y, looks) =>
        && (TakesAt(trees, x, at, src) <==> y == x && Route(trees[x], looks) == Some(at))
        && var a := Route(trees[x], looks); y == x && a.Some? && a.value <= at ==> a.value == at
      case MoveOf(y, _, _) =>
        (at == [] || x != y) && (TakesAt(trees, x, at, src) <==> x == y) && (Names(x, src) <==> x == y)
      case ArrayOf(ys) => (at == [] || x !in ys) && (TakesAt(trees, x, at, src) <==> x in ys)
      case ObjectOf(_, ys) => (at == [] || x !in ys) && (TakesAt(trees, x, at, src) <==> x in ys)
  {}

  lemma OutsideHere(x: nat, path: seq<Step>, action: Action, src: Source)
    requires Outside(x, path, action, src)
    ensures path == [] || (!Names(x, src) && (src.MoveOf? ==> src.y != x))
    ensures src.CopyFrom? && src.y == x ==> !LiesAbove(src.looks, path)
    ensures Avoids(x, src) || path == [] || (src.CopyFrom? && src.y == x && action.PushBack?)
  {}

  /** The statements that are not legal: a write inside a handle whose source takes the handle, a
      `pushBack` below the element it copies, and an assignment of an element of the handle. */
  lemma NotOutside(x: nat, path: seq<Step>, action: Action, src: Source)
    requires !Outside(x, path, action, src)
    ensures if src.CopyFrom? then src.y == x && (action.PushBack? ==> LiesAbove(src.looks, path))
            else Names(x, src) && path != []
  {}

  /** A write in three steps: the path, the source, and the store. */
  lemma WrittenSteps(trees: seq<Tree>, x: nat, path: seq<Step>, action: Action, src: Source, nulls: bool)
    requires x < |trees| && InScope(src, |trees|) && Outside(x, path, action, src)
    requires !SelfMove(x, path, action, src) && (action.Assign? ==> Readable(trees, src))
    ensures var w := Walk(trees[x], path); var walked := trees[x := w.tree];
      && (w.at.Some? && path == [] ==> w.at.value == [])
      && Written(trees, x, path, action, src, nulls) ==
         if w.at.None? || !Readable(walked, src) then (walked, false)
         else (Stored(walked, x, w.at.value, action, src, nulls), true)
  {}

  lemma StoredIs(trees: seq<Tree>, x: nat, at: seq<nat>, action: Action, src: Source, nulls: bool)
    requires x < |trees| && InScope(src, |trees|) && Readable(trees, src)
    requires Reaches(trees[x], at) && Clear(trees, x, at, src)
    ensures var after := AfterSource(trees, src, nulls);
      && Reaches(after[x], at)
      && Stored(trees, x, at, action, src, nulls)
         == after[x := Graft(after[x], at, Perform(action, Sub(after[x], at), SourceTree(trees, src)))]
  {}

  ghost predicate Legal(n: nat, c: Command) {
    match c
    case Declare => true
    case Call(x, _) => x < n
    case Write(x, path, action, src) => x < n && InScope(src, n) && Outside(x, path, action, src)
  }

  ghost function Effect(trees: seq<Tree>, c: Command, nulls: bool): seq<Tree>
    requires Legal(|trees|, c)
  {
    match c
    case Declare => trees + [Leaf(Null)]
    case Call(x, path) => trees[x := Walk(trees[x], path).tree]
    case Write(x, path, action, src) => Written(trees, x, path, action, src, nulls).0
  }

  /** A program is legal when every statement names handles declared before it, and the sources of its
      writes are allowed. */
  ghost predicate LegalRun(n: nat, cs: seq<Command>)
    decreases |cs|
  {
    cs == [] || (Legal(n, cs[0]) && LegalRun(if cs[0].Declare? then n + 1 else n, cs[1..]))
  }

  ghost function EffectOfRun(trees: seq<Tree>, cs: seq<Command>, nulls: bool): seq<Tree>
    requires LegalRun(|trees|, cs)
    decreases |cs|
  {
    if cs == [] then trees else EffectOfRun(Effect(trees, cs[0], nulls), cs[1..], nulls)
  }

  lemma PerformPush(t: Tree, v: Tree)
    ensures var b := Promoted(t, ArrayKind, true);
      b.Some? && b.value.Branch? && Perform(PushBack, t, v) == Branch(ArrayShape, b.value.kids + [v])
  {}

  lemma EnterParts(t: Tree, s: Step)
    ensures var b := Promoted(t, s.Kind(), s.Key?);
      && (b.None? ==> Enter(t, s) == Entry(t, None))
      && (b.Some? ==> b.value.Branch? && IsKind(b.value, s.Kind()) && Enter(t, s) == EnterBranch(b.value, s))
  {}

  lemma {:induction false} WalkLength(t: Tree, path: seq<Step>)
    ensures Walk(t, path).at.Some? ==> |Walk(t, path).at.value| == |path|
    decreases |path|
  {
    if path != [] {
      var e := Enter(t, path[0]);
      if e.kid.Some? {
        WalkLength(e.tree.kids[e.kid.value], path[1..]);
      }
    }
  }

  lemma WalkNone(t: Tree)
    ensures Walk(t, []) == Walked(t, Some([]))
  {}

  /** Taking a chain of calls one call at a time: after the first call, the rest of the chain
      starts from the kid it returned. */
  lemma WalkStep(t: Tree, at: seq<nat>, path: seq<Step>)
    requires Reaches(t, at) && path != []
    ensures var e := Enter(Sub(t, at), path[0]); var w := Walk(Sub(t, at), path);
      if e.kid.None? then w == Walked(e.tree, None)
      else
        var i := e.kid.value; var t1 := Graft(t, at, e.tree);
        && Reaches(t1, at + [i]) && Sub(t1, at + [i]) == e.tree.kids[i]
        && var w1 := Walk(e.tree.kids[i], path[1..]);
           && Graft(t1, at + [i], w1.tree) == Graft(t, at, w.tree)
           && w.at == (if w1.at.None? then None else Some([i] + w1.at.value))
  {
    var e := Enter(Sub(t, at), path[0]);
    if e.kid.Some? {
      var i := e.kid.value;
      var t1 := Graft(t, at, e.tree);
      var w1 := Walk(e.tree.kids[i], path[1..]);
      GraftGraft(t, at, e.tree, Branch(e.tree.shape, e.tree.kids[i := w1.tree]));
      ReachesSnoc(t1, at, i);
      GraftSnoc(t1, at, i, w1.tree);
    }
  }

  /** An access to what a call left finds the kid that the call returned, or another one. */
  lemma AlikeMeets(t: Tree, s: Step, v: Tree, look: Look)
    requires Enter(t, s).kid.Some?
    ensures var e := Enter(t, s); var j := LookAt(Branch(e.tree.shape, e.tree.kids[e.kid.value := v]), look);
      j.Some? ==> (j == e.kid <==> Alike(look, s))
  {
    hide EnterKey, LookAt, Promoted;
    EnterParts(t, s);
    var b := Promoted(t, s.Kind(), s.Key?).value;
    if s.At? {
      ElementMeets(b.kids[s.i := v], s.i, look);
    } else {
      KeyMeets(b, s.k, v, look);
    }
  }

  lemma ElementMeets(kids: seq<Tree>, i: nat, look: Look)
    ensures var j := LookAt(Branch(ArrayShape, kids), look); j.Some? ==> (j == Some(i) <==> look == Element(i))
  {}

  lemma KeyMeets(b: Tree, k: string, v: Tree, look: Look)
    requires IsKind(b, ObjectKind) && EnterKey(b, k).kid.Some?
    ensures var e := EnterKey(b, k); var j := LookAt(Branch(e.tree.shape, e.tree.kids[e.kid.value := v]), look);
      j.Some? ==> (j == e.kid <==> look == Member(k))
  {
    hide LowerBound, Ascending, InsertAt;
    var keys, pos := b.shape.keys, LowerBound(b.shape.keys, k);
    if !HasKey(keys, k) {
      InsertAscending(keys, k);
      KeyPosition(InsertAt(keys, pos, k), pos);
    }
  }

  /** An access alike to a call that was made finds something. */
  lemma AlikeFinds(t: Tree, s: Step, v: Tree, look: Look)
    requires Enter(t, s).kid.Some? && Alike(look, s)
    ensures var e := Enter(t, s); LookAt(Branch(e.tree.shape, e.tree.kids[e.kid.value := v]), look).Some?
  {
    hide EnterKey, Promoted;
    EnterParts(t, s);
    if !s.At? {
      KeyFinds(Promoted(t, s.Kind(), s.Key?).value, s.k, v);
    }
  }

  lemma KeyFinds(b: Tree, k: string, v: Tree)
    requires IsKind(b, ObjectKind) && EnterKey(b, k).kid.Some?
    ensures var e := EnterKey(b, k); LookAt(Branch(e.tree.shape, e.tree.kids[e.kid.value := v]), Member(k)).Some?
  {
    hide LowerBound, Ascending, InsertAt;
    var keys, pos := b.shape.keys, LowerBound(b.shape.keys, k);
    if !HasKey(keys, k) {
      InsertAscending(keys, k);
      KeyPosition(InsertAt(keys, pos, k), pos);
    }
  }

  /** Const accesses along a chain of calls that threw nothing do not throw. */
  lemma {:induction false} AlongFinds(t: Tree, path: seq<Step>, looks: seq<Look>)
    requires Walk(t, path).at.Some? && Along(looks, path)
    ensures Route(Walk(t, path).tree, looks).Some?
    decreases |path|
  {
    hide Enter, LookAt, Peek;
    if looks != [] {
      var e := Enter(t, path[0]);
      var i := e.kid.value;
      var rest := Walk(e.tree.kids[i], path[1..]);
      AlongNext(looks, path);
      AlikeFinds(t, path[0], rest.tree, looks[0]);
      AlikeMeets(t, path[0], rest.tree, looks[0]);
      AlongFinds(e.tree.kids[i], path[1..], looks[1..]);
    }
  }

  /** Const accesses to a tree that a chain of calls left meet the path of the chain exactly when they
      name the same elements. */
  lemma {:induction false} RouteMeets(t: Tree, path: seq<Step>, looks: seq<Look>)
    requires Walk(t, path).at.Some? && Route(Walk(t, path).tree, looks).Some?
    ensures var w := Walk(t, path); Route(w.tree, looks).value <= w.at.value <==> Along(looks, path)
    decreases |path|
  {
    hide Enter, LookAt, Peek;
    if looks != [] && path != [] {
      var e, w := Enter(t, path[0]), Walk(t, path);
      var i := e.kid.value;
      var rest := Walk(e.tree.kids[i], path[1..]);
      AlikeMeets(t, path[0], rest.tree, looks[0]);
      AlongNext(looks, path);
      if Alike(looks[0], path[0]) {
        RouteMeets(e.tree.kids[i], path[1..], looks[1..]);
      }
    }
  }

  lemma AlongNext(looks: seq<Look>, path: seq<Step>)
    requires looks != [] && path != []
    ensures Along(looks, path) <==> Alike(looks[0], path[0]) && Along(looks[1..], path[1..])
  {
    hide Alike;
    var l, p := looks[1..], path[1..];
    assert forall j :: 0 <= j < |l| && |l| <= |p| ==> (Alike(l[j], p[j]) <==> Alike(looks[j + 1], path[j + 1]));
    assert forall j :: 0 < j < |looks| <= |path| ==> (Alike(looks[j], path[j]) <==> Alike(l[j - 1], p[j - 1]));
  }

  /** What `Outside` and `Takes` say of names holds of the index paths after the chain of calls. */
  lemma PathClear(trees: seq<Tree>, t: Tree, x: nat, path: seq<Step>, action: Action, src: Source)
    requires x < |trees| && InScope(src, |trees|) && Outside(x, path, action, src)
    requires Walk(t, path).at.Some? && trees[x] == Walk(t, path).tree
    ensures var at := Walk(t, path).at.value;
      Clear(trees, x, at, src) && (Readable(trees, src) ==> (TakesAt(trees, x, at, src) <==> Takes(x, path, src)))
  {
    WalkLength(t, path);
    if src.CopyFrom? && src.y == x && Readable(trees, src) {
      RouteMeets(t, path, src.looks);
    }
  }
}
