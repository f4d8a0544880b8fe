/** The plain values that every part of the model agrees on: scalars, and immutable trees of
    arrays and objects.  A `Value` handle denotes such a tree. */
module Trees {
  import opened Collections

  type Int64 = i: int | -0x8000_0000_0000_0000 <= i < 0x8000_0000_0000_0000
  type UInt64 = i: int | 0 <= i < 0x1_0000_0000_0000_0000
  type Byte = i: int | 0 <= i < 0x100

  /** The non-container alternatives of the storage variant.  A double is its IEEE 754 bit
      pattern; characters of a string stand for bytes. */
  datatype Scalar =
    | Null
    | Bool(b: bool)
    | Int(i: Int64)
    | Double(bits: UInt64)
    | Text(s: string)
    | Binary(bytes: seq<Byte>)
    | DateTime(ticks: int)

  /** A double is finite when its exponent field is not all ones. */
  predicate Finite(bits: UInt64) {
    bits / 0x10_0000_0000_0000 % 0x800 != 0x7FF
  }

  datatype Kind = ArrayKind | ObjectKind

  /** An object keeps its keys, in the order `std::map` iterates, beside its values. */
  datatype Shape = ArrayShape | ObjectShape(keys: seq<string>) {
    function Kind(): Kind {
      if ArrayShape? then ArrayKind else ObjectKind
    }

    predicate Fits(n: nat) {
      ObjectShape? ==> |keys| == n && Ascending(keys)
    }
  }

  /** `Vacant` is a null array or object pointer, as a move leaves behind.  Reading it gives the empty
      container of its kind. */
  datatype Tree = Leaf(a: Scalar) | Branch(shape: Shape, kids: seq<Tree>) | Vacant(kind: Kind) {
    predicate WellFormed() {
      Branch? ==> shape.Fits(|kids|) && forall k <- kids :: k.WellFormed()
    }
  }

  function EmptyShape(kind: Kind): Shape {
    if kind.ArrayKind? then ArrayShape else ObjectShape([])
  }

  function Empty(kind: Kind): Tree {
    Branch(EmptyShape(kind), [])
  }

  predicate IsKind(t: Tree, kind: Kind) {
    t.Branch? && t.shape.Kind() == kind
  }

  // ---- Null pointers -------------------------------------------------------------------

  /** The tree a reader sees: null pointers give empty containers. */
  function Flat(t: Tree): Tree {
    match t
    case Leaf(_) => t
    case Branch(shape, kids) => Branch(shape, FlatAll(kids))
    case Vacant(kind) => Empty(kind)
  }

  function FlatAll(ts: seq<Tree>): (r: seq<Tree>)
    ensures |r| == |ts|
    ensures forall i :: 0 <= i < |ts| ==> r[i] == Flat(ts[i])
  {
    seq(|ts|, i requires 0 <= i < |ts| => Flat(ts[i]))
  }

  predicate NullFree(t: Tree) {
    match t
    case Leaf(_) => true
    case Branch(_, kids) => forall k <- kids :: NullFree(k)
    case Vacant(_) => false
  }

  /** A reader sees the tree itself exactly when no null pointer is in it. */
  lemma {:induction false} FlatSame(t: Tree)
    ensures Flat(t) == t <==> NullFree(t)
    ensures NullFree(Flat(t))
  {
    if t.Branch? {
      forall i | 0 <= i < |t.kids|
        ensures Flat(t.kids[i]) == t.kids[i] <==> NullFree(t.kids[i])
        ensures NullFree(Flat(t.kids[i]))
      {
        FlatSame(t.kids[i]);
      }
      assert FlatAll(t.kids) == t.kids <==> forall i :: 0 <= i < |t.kids| ==> Flat(t.kids[i]) == t.kids[i];
    }
  }

  // ---- Height -------------------------------------------------------------------------

  ghost function Height(t: Tree): nat {
    match t
    case Leaf(_) => 0
    case Branch(_, kids) => 1 + MaxHeight(kids)
    case Vacant(_) => 0
  }

  ghost function MaxHeight(ts: seq<Tree>): nat {
    if ts == [] then 0
    else
      var rest := MaxHeight(ts[1..]);
      if Height(ts[0]) < rest then rest else Height(ts[0])
  }

  lemma {:induction false} MemberHeight(ts: seq<Tree>, i: nat)
    requires i < |ts|
    ensures Height(ts[i]) <= MaxHeight(ts)
  {
    if i > 0 {
      MemberHeight(ts[1..], i - 1);
    }
  }

  lemma KidHeight(t: Tree, i: nat)
    requires t.Branch? && i < |t.kids|
    ensures Height(t.kids[i]) < Height(t)
  {
    MemberHeight(t.kids, i);
  }

  // ---- Keys in order ------------------------------------------------------------------

  /** `std::string::operator<`. */
  predicate Before(a: string, b: string) {
    b != [] && (a == [] || a[0] < b[0] || (a[0] == b[0] && Before(a[1..], b[1..])))
  }

  predicate Ascending(keys: seq<string>) {
    forall i, j :: 0 <= i < j < |keys| ==> Before(keys[i], keys[j])
  }

  lemma {:induction false} BeforeTransitive(a: string, b: string, c: string)
    requires Before(a, b) && Before(b, c)
    ensures Before(a, c)
  {
    if a != [] && a[0] == b[0] == c[0] {
      BeforeTransitive(a[1..], b[1..], c[1..]);
    }
  }

  lemma {:induction false} BeforeTotal(a: string, b: string)
    ensures a == b || Before(a, b) || Before(b, a)
    ensures !(Before(a, b) && Before(b, a))
    ensures a == b ==> !Before(a, b)
  {
    if a != [] && b != [] && a[0] == b[0] {
      BeforeTotal(a[1..], b[1..]);
      assert a == [a[0]] + a[1..] && b == [b[0]] + b[1..];
    }
  }

  /** At position `n` the strings part: `a` ends there and `b` does not, or `a` has the smaller
      character. */
  ghost predicate PartsAt(a: string, b: string, n: nat) {
    && n <= |a| && n < |b| && a[..n] == b[..n]
    && (n < |a| ==> a[n] < b[n])
  }

  /** The order is lexicographic: the first difference decides, and a proper prefix comes first. */
  lemma {:induction false} BeforeIsLexicographic(a: string, b: string)
    ensures Before(a, b) <==> exists n: nat :: PartsAt(a, b, n)
  {
    if a == [] || b == [] || a[0] != b[0] {
      assert Before(a, b) ==> PartsAt(a, b, 0);
      assert forall n: nat :: PartsAt(a, b, n) && n > 0 ==> a[..n][0] == b[..n][0];
    } else {
      BeforeIsLexicographic(a[1..], b[1..]);
      forall n: nat | n < |b|
        ensures PartsAt(a, b, n + 1) <==> PartsAt(a[1..], b[1..], n)
      {
        PartsNext(a, b, n);
      }
      if Before(a, b) {
        var n: nat :| PartsAt(a[1..], b[1..], n);
        assert PartsAt(a, b, n + 1);
      }
      if n: nat :| PartsAt(a, b, n) {
        assert n > 0;
        assert PartsAt(a[1..], b[1..], n - 1) by {
          PartsNext(a, b, n - 1);
        }
      }
    }
  }

  lemma PartsNext(a: string, b: string, n: nat)
    requires a != [] && b != [] && a[0] == b[0]
    ensures PartsAt(a, b, n + 1) <==> PartsAt(a[1..], b[1..], n)
  {
    if n < |a| && n < |b| {
      assert a[..n + 1] == [a[0]] + a[1..][..n] && b[..n + 1] == [b[0]] + b[1..][..n];
      assert a[..n + 1][1..] == a[1..][..n] && b[..n + 1][1..] == b[1..][..n];
    }
  }

  /** The position `std::map::lower_bound` finds. */
  function LowerBound(keys: seq<string>, k: string): (pos: nat)
    ensures pos <= |keys|
    ensures forall i :: 0 <= i < pos ==> Before(keys[i], k)
    ensures pos < |keys| ==> !Before(keys[pos], k)
  {
    if keys == [] || !Before(keys[0], k) then 0 else 1 + LowerBound(keys[1..], k)
  }

  predicate HasKey(keys: seq<string>, k: string) {
    var pos := LowerBound(keys, k);
    pos < |keys| && keys[pos] == k
  }

  /** In an ascending key list, looking at the lower bound decides membership. */
  lemma LowerBoundFinds(keys: seq<string>, k: string)
    requires Ascending(keys)
    ensures HasKey(keys, k) <==> k in keys
  {
    var pos := LowerBound(keys, k);
    forall i | 0 <= i < |keys| && keys[i] == k
      ensures i == pos
    {
      BeforeTotal(k, k);
    }
  }

  /** In an ascending key list each key has one position. */
  lemma KeyPosition(keys: seq<string>, i: nat)
    requires Ascending(keys) && i < |keys|
    ensures LowerBound(keys, keys[i]) == i && HasKey(keys, keys[i])
  {
    LowerBoundFinds(keys, keys[i]);
    BeforeTotal(keys[i], keys[i]);
  }

  /** Inserting an absent key at its lower bound keeps the keys strictly ascending. */
  lemma InsertAscending(keys: seq<string>, k: string)
    requires Ascending(keys) && !HasKey(keys, k)
    ensures Ascending(InsertAt(keys, LowerBound(keys, k), k))
  {
    var pos := LowerBound(keys, k);
    var r := InsertAt(keys, pos, k);
    forall i, j | 0 <= i < j < |r|
      ensures Before(r[i], r[j])
    {
      if pos < |keys| {
        BeforeTotal(keys[pos], k);
      }
      if i == pos && pos + 1 < j {
        BeforeTransitive(k, keys[pos], keys[j - 1]);
      }
    }
  }

  // ---- Reading and replacing the subtree at an index path ------------------------------

  ghost predicate Reaches(t: Tree, at: seq<nat>) {
    at == [] || (t.Branch? && at[0] < |t.kids| && Reaches(t.kids[at[0]], at[1..]))
  }

  ghost function Sub(t: Tree, at: seq<nat>): Tree
    requires Reaches(t, at)
  {
    if at == [] then t else Sub(t.kids[at[0]], at[1..])
  }

  ghost function Graft(t: Tree, at: seq<nat>, new_: Tree): Tree
    requires Reaches(t, at)
  {
    if at == [] then new_
    else Branch(t.shape, t.kids[at[0] := Graft(t.kids[at[0]], at[1..], new_)])
  }

  /** Extending a path by one step reads one level deeper. */
  lemma {:induction false} ReachesSnoc(t: Tree, at: seq<nat>, i: nat)
    requires Reaches(t, at)
    ensures Reaches(t, at + [i]) <==> Sub(t, at).Branch? && i < |Sub(t, at).kids|
    ensures Reaches(t, at + [i]) ==> Sub(t, at + [i]) == Sub(t, at).kids[i]
  {
    if at == [] {
      assert (at + [i])[1..] == [];
    } else {
      assert (at + [i])[1..] == at[1..] + [i];
      ReachesSnoc(t.kids[at[0]], at[1..], i);
    }
  }

  /** Replacing at a longer path replaces one kid at the shorter one. */
  lemma {:induction false} GraftSnoc(t: Tree, at: seq<nat>, i: nat, new_: Tree)
    requires Reaches(t, at) && Reaches(t, at + [i])
    ensures Sub(t, at).Branch? && i < |Sub(t, at).kids|
    ensures Graft(t, at + [i], new_)
         == Graft(t, at, Branch(Sub(t, at).shape, Sub(t, at).kids[i := new_]))
  {
    ReachesSnoc(t, at, i);
    if at == [] {
      assert (at + [i])[1..] == [];
    } else {
      assert (at + [i])[1..] == at[1..] + [i];
      GraftSnoc(t.kids[at[0]], at[1..], i, new_);
    }
  }

  /** What a graft put in place is what is read there, and a second graft overrides it. */
  lemma {:induction false} GraftGraft(t: Tree, at: seq<nat>, a: Tree, b: Tree)
    requires Reaches(t, at)
    ensures Reaches(Graft(t, at, a), at)
    ensures Sub(Graft(t, at, a), at) == a
    ensures Graft(Graft(t, at, a), at, b) == Graft(t, at, b)
    ensures Graft(t, at, Sub(t, at)) == t
  {
    if at != [] {
      GraftGraft(t.kids[at[0]], at[1..], a, b);
      assert t.kids[at[0] := t.kids[at[0]]] == t.kids;
    }
  }

  lemma GraftHere(t: Tree, new_: Tree)
    ensures Reaches(t, []) && Sub(t, []) == t && Graft(t, [], new_) == new_
  {}
}
