/** JSON trees as `nlohmann::json` holds them, and their translation to and from values. */
module Json {
  import opened Collections
  import opened Trees

  /** Signed, unsigned and floating numbers are separate kinds.  An object keeps its keys in
      ascending order beside its values. */
  datatype Json =
    | JNull
    | JBool(b: bool)
    | JInt(i: Int64)
    | JUint(u: UInt64)
    | JFloat(bits: UInt64)
    | JStr(s: string)
    | JArr(items: seq<Json>)
    | JObj(keys: seq<string>, items: seq<Json>)
  {
    predicate WellFormed() {
      match this
      case JArr(items) => forall j <- items :: j.WellFormed()
      case JObj(keys, items) => |keys| == |items| && Ascending(keys) && forall j <- items :: j.WellFormed()
      case _ => true
    }
  }

  /** What `parse` returns for the text `dump` writes: text does not tell a non-negative signed
      number from an unsigned one, and a non-finite float is written as null. */
  function Reparse(j: Json): Json {
    match j
    case JInt(i) => if i >= 0 then JUint(i) else j
    case JFloat(bits) => if Finite(bits) then j else JNull
    case JArr(items) => JArr(ReparseAll(items))
    case JObj(keys, items) => JObj(keys, ReparseAll(items))
    case _ => j
  }

  function ReparseAll(js: seq<Json>): (r: seq<Json>)
    ensures |r| == |js|
    ensures forall i :: 0 <= i < |js| ==> r[i] == Reparse(js[i])
  {
    seq(|js|, i requires 0 <= i < |js| => Reparse(js[i]))
  }

  // ---- Values to JSON and back -----------------------------------------------------------

  function ToJson(t: Tree): Json {
    match t
    case Leaf(a) => ScalarToJson(a)
    case Branch(ArrayShape, kids) => JArr(AllToJson(kids))
    case Branch(ObjectShape(keys), kids) => JObj(keys, AllToJson(kids))
    case Vacant(kind) => NoItems(kind)
  }

  /** What the loop over a null container builds: the const accessors give an empty one. */
  function NoItems(kind: Kind): Json {
    if kind.ArrayKind? then JArr([]) else JObj([], [])
  }

  function AllToJson(ts: seq<Tree>): (r: seq<Json>)
    ensures |r| == |ts|
    ensures forall i :: 0 <= i < |ts| ==> r[i] == ToJson(ts[i])
  {
    seq(|ts|, i requires 0 <= i < |ts| => ToJson(ts[i]))
  }

  function ScalarToJson(a: Scalar): Json {
    match a
    case Null => JNull
    case Bool(b) => JBool(b)
    case Int(i) => JInt(i)
    case Double(bits) => JFloat(bits)
    case Text(s) => JStr(s)
    case Binary(_) => JNull
    case DateTime(_) => JNull
  }

  /** The cast from `uint64_t` to `int64_t`. */
  function Wrap64(u: UInt64): Int64 {
    if u < 0x8000_0000_0000_0000 then u else u - 0x1_0000_0000_0000_0000
  }

  function ToValue(j: Json): Tree {
    match j
    case JNull => Leaf(Null)
    case JBool(b) => Leaf(Bool(b))
    case JInt(i) => Leaf(Int(i))
    case JUint(u) => Leaf(Int(Wrap64(u)))
    case JFloat(bits) => Leaf(Double(bits))
    case JStr(s) => Leaf(Text(s))
    case JArr(items) => Branch(ArrayShape, AllToValue(items))
    case JObj(keys, items) => Branch(ObjectShape(keys), AllToValue(items))
  }

  function AllToValue(js: seq<Json>): (r: seq<Tree>)
    ensures |r| == |js|
    ensures forall i :: 0 <= i < |js| ==> r[i] == ToValue(js[i])
  {
    seq(|js|, i requires 0 <= i < |js| => ToValue(js[i]))
  }

  /** The recursive `valueToJson`, which fills an array or an object in a loop. */
  method ValueToJson(t: Tree) returns (j: Json)
    requires t.WellFormed()
    ensures j == ToJson(t)
  {
    match t {
      case Leaf(a) => j := ScalarToJson(a);
      case Branch(ArrayShape, kids) =>
        var items: seq<Json> := [];
        for i := 0 to |kids|
          invariant items == AllToJson(kids)[..i]
        {
          var item := ValueToJson(kids[i]);
          items := items + [item];
        }
        j := JArr(items);
      case Branch(ObjectShape(keys), kids) =>
        var obj := JObj([], []);
        for i := 0 to |kids|
          invariant obj == JObj(keys[..i], AllToJson(kids)[..i])
        {
          var item := ValueToJson(kids[i]);
          AppendsLast(keys, i);
          obj := Assigned(obj, keys[i], item);
        }
        j := obj;
      case Vacant(kind) => j := NoItems(kind);
    }
  }

  /** The recursive `jsonToValue`, which fills a vector or a map in a loop. */
  method JsonToValue(j: Json) returns (t: Tree)
    requires j.WellFormed()
    ensures t == ToValue(j)
  {
    match j {
      case JNull => t := Leaf(Null);
      case JBool(b) => t := Leaf(Bool(b));
      case JInt(i) => t := Leaf(Int(i));
      case JUint(u) => t := Leaf(Int(Wrap64(u)));
      case JFloat(bits) => t := Leaf(Double(bits));
      case JStr(s) => t := Leaf(Text(s));
      case JArr(items) =>
        var arr: seq<Tree> := [];
        for i := 0 to |items|
          invariant arr == AllToValue(items)[..i]
        {
          var el := JsonToValue(items[i]);
          arr := arr + [el];
        }
        assert AllToValue(items)[..|items|] == AllToValue(items);
        t := Branch(ArrayShape, arr);
      case JObj(keys, items) =>
        var names: seq<string>, vals: seq<Tree> := [], [];
        for i := 0 to |items|
          invariant names == keys[..i] && vals == AllToValue(items)[..i]
        {
          var val := JsonToValue(items[i]);
          AppendsLast(keys, i);
          var pos := LowerBound(names, keys[i]);
          if !HasKey(names, keys[i]) {
            names, vals := InsertAt(names, pos, keys[i]), InsertAt(vals, pos, val);
          }
        }
        assert keys[..|items|] == keys && AllToValue(items)[..|items|] == AllToValue(items);
        t := Branch(ObjectShape(names), vals);
    }
  }

  /** `obj[key] = value` on a JSON object: `std::map` assignment. */
  function Assigned(obj: Json, key: string, value: Json): (r: Json)
    requires obj.JObj? && |obj.keys| == |obj.items|
    ensures r.JObj? && |r.keys| == |r.items|
  {
    var pos := LowerBound(obj.keys, key);
    if HasKey(obj.keys, key) then JObj(obj.keys, obj.items[pos := value])
    else JObj(InsertAt(obj.keys, pos, key), InsertAt(obj.items, pos, value))
  }

  /** A key above all present ones goes to the end. */
  lemma AppendsLast(keys: seq<string>, i: nat)
    requires Ascending(keys) && i < |keys|
    ensures LowerBound(keys[..i], keys[i]) == i && !HasKey(keys[..i], keys[i])
  {}

  /** Values read from proper JSON are proper. */
  lemma {:induction false} ToValueWellFormed(j: Json)
    requires j.WellFormed()
    ensures ToValue(j).WellFormed()
  {
    if j.JArr? || j.JObj? {
      forall k | k in AllToValue(j.items)
        ensures k.WellFormed()
      {
        var i :| 0 <= i < |j.items| && k == ToValue(j.items[i]);
        ToValueWellFormed(j.items[i]);
      }
    }
  }

  // ---- What a round trip keeps -----------------------------------------------------------

  /** On the wire blobs, dates and non-finite doubles become null, and null containers empty ones, at
      any depth. */
  function Normal(t: Tree): Tree {
    match t
    case Leaf(a) => Leaf(if Carried(a) then a else Null)
    case Branch(shape, kids) => Branch(shape, NormalAll(kids))
    case Vacant(kind) => Empty(kind)
  }

  function NormalAll(ts: seq<Tree>): (r: seq<Tree>)
    ensures |r| == |ts|
    ensures forall i :: 0 <= i < |ts| ==> r[i] == Normal(ts[i])
  {
    seq(|ts|, i requires 0 <= i < |ts| => Normal(ts[i]))
  }

  predicate Carried(a: Scalar) {
    match a
    case Double(bits) => Finite(bits)
    case Binary(_) => false
    case DateTime(_) => false
    case _ => true
  }

  predicate AllCarried(t: Tree) {
    match t
    case Leaf(a) => Carried(a)
    case Branch(_, kids) => forall k <- kids :: AllCarried(k)
    case Vacant(_) => false
  }

  /** Printing a value as JSON, parsing the text and reading the value back normalises it. */
  lemma {:induction false} RoundTrip(t: Tree)
    ensures ToValue(Reparse(ToJson(t))) == Normal(t)
  {
    if t.Branch? {
      forall i | 0 <= i < |t.kids|
        ensures ToValue(Reparse(ToJson(t.kids[i]))) == Normal(t.kids[i])
      {
        RoundTrip(t.kids[i]);
      }
      assert AllToValue(ReparseAll(AllToJson(t.kids))) == NormalAll(t.kids);
    }
  }

  /** Normalising is the identity exactly on the values the wire carries. */
  lemma {:induction false} NormalIdentity(t: Tree)
    ensures Normal(t) == t <==> AllCarried(t)
  {
    if t.Branch? {
      forall i | 0 <= i < |t.kids|
        ensures Normal(t.kids[i]) == t.kids[i] <==> AllCarried(t.kids[i])
      {
        NormalIdentity(t.kids[i]);
      }
      assert NormalAll(t.kids) == t.kids <==> forall i :: 0 <= i < |t.kids| ==> Normal(t.kids[i]) == t.kids[i];
    }
  }

  lemma {:induction false} NormalCarried(t: Tree)
    ensures AllCarried(Normal(t))
  {
    if t.Branch? {
      forall k | k in NormalAll(t.kids)
        ensures AllCarried(k)
      {
        var i :| 0 <= i < |t.kids| && k == Normal(t.kids[i]);
        NormalCarried(t.kids[i]);
      }
    }
  }

  /** A second round trip changes nothing. */
  lemma {:induction false} NormalIdempotent(t: Tree)
    ensures Normal(Normal(t)) == Normal(t)
  {
    NormalCarried(t);
    NormalIdentity(Normal(t));
  }

  // ---- Numbers of 64 bits ----------------------------------------------------------------

  predicate Congruent(i: int, u: int) {
    (i - u) % 0x1_0000_0000_0000_0000 == 0
  }

  /** An unsigned number becomes the one signed number congruent to it modulo 2^64. */
  lemma WrapCongruent(u: UInt64, i: Int64)
    ensures ToValue(JUint(u)) == Leaf(Int(i)) <==> Congruent(i, u)
  {}

  predicate IsNumber(j: Json) {
    j.JInt? || j.JUint?
  }

  function NumberOf(j: Json): int
    requires IsNumber(j)
  {
    if j.JInt? then j.i else j.u
  }

  /** The same tree, where integers need only have the same value. */
  predicate SameNumbers(a: Json, b: Json)
    decreases a
  {
    match a
    case JArr(items) => b.JArr? && SameAll(items, b.items)
    case JObj(keys, items) => b.JObj? && keys == b.keys && SameAll(items, b.items)
    case JInt(_) => IsNumber(b) && NumberOf(a) == NumberOf(b)
    case JUint(_) => IsNumber(b) && NumberOf(a) == NumberOf(b)
    case _ => a == b
  }

  predicate SameAll(a: seq<Json>, b: seq<Json>)
    decreases a
  {
    |a| == |b| && forall i :: 0 <= i < |a| ==> SameNumbers(a[i], b[i])
  }

  /** No unsigned number of the tree needs the 64th bit. */
  predicate FitsSigned(j: Json) {
    match j
    case JUint(u) => u < 0x8000_0000_0000_0000
    case JArr(items) => forall x <- items :: FitsSigned(x)
    case JObj(_, items) => forall x <- items :: FitsSigned(x)
    case _ => true
  }

  /** Reading JSON into a value and writing it back keeps every number, at every depth, exactly
      when each unsigned one is below 2^63. */
  lemma {:induction false} NumbersKept(j: Json)
    ensures SameNumbers(ToJson(ToValue(j)), j) <==> FitsSigned(j)
  {
    match j
    case JArr(items) => NumbersKeptAll(items);
    case JObj(_, items) => NumbersKeptAll(items);
    case _ =>
  }

  lemma {:induction false} NumbersKeptAll(items: seq<Json>)
    ensures SameAll(AllToJson(AllToValue(items)), items) <==> forall x <- items :: FitsSigned(x)
  {
    var back := AllToJson(AllToValue(items));
    forall i | 0 <= i < |items|
      ensures SameNumbers(back[i], items[i]) <==> FitsSigned(items[i])
    {
      NumbersKept(items[i]);
    }
    if SameAll(back, items) {
      forall x | x in items
        ensures FitsSigned(x)
      {
        var i :| 0 <= i < |items| && items[i] == x;
        assert SameNumbers(back[i], items[i]);
      }
    } else {
      var i :| 0 <= i < |items| && !SameNumbers(back[i], items[i]);
      assert items[i] in items;
    }
  }

  // ---- What a document says of a value ---------------------------------------------------

  /** The document says what the value is, part by part; null stands for a blob or a date, and an empty
      container for a null pointer. */
  ghost predicate Says(j: Json, t: Tree)
    decreases t
  {
    match t
    case Leaf(Null) => j == JNull
    case Leaf(Bool(b)) => j == JBool(b)
    case Leaf(Int(i)) => IsNumber(j) && NumberOf(j) == i
    case Leaf(Double(bits)) => j == JFloat(bits)
    case Leaf(Text(s)) => j == JStr(s)
    case Leaf(Binary(_)) => j == JNull
    case Leaf(DateTime(_)) => j == JNull
    case Branch(ArrayShape, kids) => j.JArr? && SaysEach(j.items, kids)
    case Branch(ObjectShape(keys), kids) => j.JObj? && j.keys == keys && SaysEach(j.items, kids)
    case Vacant(ArrayKind) => j == JArr([])
    case Vacant(ObjectKind) => j == JObj([], [])
  }

  ghost predicate SaysEach(items: seq<Json>, kids: seq<Tree>)
    decreases kids
  {
    |items| == |kids| && forall i :: 0 <= i < |kids| ==> Says(items[i], kids[i])
  }

  /** Writing a value gives a document that says it. */
  lemma {:induction false} WrittenSays(t: Tree)
    ensures Says(ToJson(t), t)
  {
    if t.Branch? {
      forall i | 0 <= i < |t.kids|
        ensures Says(ToJson(t.kids[i]), t.kids[i])
      {
        WrittenSays(t.kids[i]);
      }
    }
  }

  /** Reading a document gives the value that it says, exactly when no unsigned number needs the 64th
      bit. */
  lemma {:induction false} ReadSays(j: Json)
    ensures Says(j, ToValue(j)) <==> FitsSigned(j)
  {
    match j
    case JArr(items) => ReadSaysEach(items);
    case JObj(_, items) => ReadSaysEach(items);
    case _ =>
  }

  lemma {:induction false} ReadSaysEach(items: seq<Json>)
    ensures SaysEach(items, AllToValue(items)) <==> forall x <- items :: FitsSigned(x)
  {
    var kids := AllToValue(items);
    forall i | 0 <= i < |items|
      ensures Says(items[i], kids[i]) <==> FitsSigned(items[i])
    {
      ReadSays(items[i]);
    }
    if SaysEach(items, kids) {
      forall x | x in items
        ensures FitsSigned(x)
      {
        var i :| 0 <= i < |items| && items[i] == x;
        assert Says(items[i], kids[i]);
      }
    } else {
      var i :| 0 <= i < |items| && !Says(items[i], kids[i]);
      assert items[i] in items;
    }
  }

  // ---- Fields of JSON objects ------------------------------------------------------------

  predicate IsObject(j: Json) {
    j.JObj? && |j.keys| == |j.items| && Ascending(j.keys)
  }

  predicate Contains(j: Json, key: string) {
    IsObject(j) && key in j.keys
  }

  function Field(j: Json, key: string): Json
    requires Contains(j, key)
  {
    LowerBoundFinds(j.keys, key);
    j.items[LowerBound(j.keys, key)]
  }

  /** Assigning a field sets it, keeps every other field, and keeps the object proper. */
  lemma AssignedField(obj: Json, key: string, value: Json, k: string)
    requires IsObject(obj)
    ensures var r := Assigned(obj, key, value);
      && IsObject(r)
      && (Contains(r, k) <==> k == key || Contains(obj, k))
      && (k == key ==> Field(r, k) == value)
      && (k != key && Contains(obj, k) ==> Field(r, k) == Field(obj, k))
  {
    LowerBoundFinds(obj.keys, key);
    LowerBoundFinds(obj.keys, k);
    if HasKey(obj.keys, key) {
      assert obj.keys[LowerBound(obj.keys, key)] == key;
    } else {
      InsertedField(obj, key, value, k);
    }
  }

  lemma InsertedField(obj: Json, key: string, value: Json, k: string)
    requires IsObject(obj) && !HasKey(obj.keys, key)
    ensures var r := Assigned(obj, key, value);
      && IsObject(r)
      && (Contains(r, k) <==> k == key || Contains(obj, k))
      && (k == key ==> Field(r, k) == value)
      && (k != key && Contains(obj, k) ==> Field(r, k) == Field(obj, k))
  {
    hide LowerBound, Ascending, HasKey;
    var pos := LowerBound(obj.keys, key);
    var r := Assigned(obj, key, value);
    InsertAscending(obj.keys, key);
    InsertMembers(obj.keys, pos, key, k);
    assert r == JObj(InsertAt(obj.keys, pos, key), InsertAt(obj.items, pos, value));
    if k == key {
      KeyPosition(r.keys, pos);
    } else if k in obj.keys {
      InsertedOther(obj.keys, obj.items, pos, key, value, k);
    }
  }

  lemma InsertedOther(keys: seq<string>, items: seq<Json>, pos: nat, key: string, value: Json, k: string)
    requires pos <= |keys| == |items| && k in keys && Ascending(keys) && Ascending(InsertAt(keys, pos, key))
    ensures LowerBound(keys, k) < |keys| && LowerBound(InsertAt(keys, pos, key), k) <= |keys|
    ensures InsertAt(items, pos, value)[LowerBound(InsertAt(keys, pos, key), k)] == items[LowerBound(keys, k)]
  {
    hide Ascending;
    LowerBoundFinds(keys, k);
    var i := LowerBound(keys, k);
    InsertShifts(keys, pos, key);
    InsertShifts(items, pos, value);
    KeyPosition(InsertAt(keys, pos, key), Shifted(i, pos));
  }

  /** A parsed object has the same fields, each parsed. */
  lemma ReparseField(j: Json, k: string)
    requires IsObject(j)
    ensures IsObject(Reparse(j))
    ensures Contains(Reparse(j), k) <==> Contains(j, k)
    ensures Contains(j, k) ==> Field(Reparse(j), k) == Reparse(Field(j, k))
  {
    if Contains(j, k) {
      LowerBoundFinds(j.keys, k);
    }
  }
}
