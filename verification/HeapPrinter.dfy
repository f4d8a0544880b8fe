/** `toString` and `writeToStream`, walking the counted cells. */
module HeapPrinter {
  import opened Wrappers
  import opened Trees
  import opened Cells
  import opened Cloning
  import opened Meaning
  import opened Semantics
  import opened NullPointers
  import opened Printer
  import opened ValueStore

  /** `toString` of the value in a slot.  Printing a container dereferences its pointer unchecked,
      so there is a text exactly when the tree denoted has no null pointer; it is the text of that
      tree.  Each call descends to a lower tree, so printing ends on every heap that has a meaning. */
  method ToString(st: Store, s: Slot, other: Scalar -> string) returns (r: Option<string>)
    requires st.Valid() && (s.Ref? ==> s.cell in st.live)
    ensures r.Some? <==> NullFree(SlotTree(s, st.den))
    ensures r.Some? ==> r.value == Print(SlotTree(s, st.den), other)
    decreases Height(SlotTree(s, st.den)), 1
  {
    match s {
      case Atom(a) => r := Some(ScalarText(a, other));
      case Hollow(_) => r := None;
      case Ref(c) =>
        CellOf(st, c);
        match c.shape {
          case ArrayShape => r := WriteArray(st, c, other);
          case ObjectShape(_) => r := WriteObject(st, c, other);
        }
    }
  }

  lemma CellOf(st: Store, c: Cell)
    requires st.Valid() && c in st.live
    ensures c in st.den
  {}

  lemma KidsOf(st: Store, c: Cell)
    requires st.Valid() && c in st.live
    ensures c in st.den && st.den[c] == Branch(c.shape, SlotTrees(c.kids, st.den)) && c.shape.Fits(|c.kids|)
    ensures forall i :: 0 <= i < |c.kids| ==>
      && (c.kids[i].Ref? ==> c.kids[i].cell in st.live)
      && Height(SlotTree(c.kids[i], st.den)) < Height(st.den[c])
  {
    hide AllRefs, Refs, Tallies, Counted, Height;
    st.CellMeaning(c, multiset{});
    st.LiveKids(c, multiset{});
    forall i | 0 <= i < |c.kids|
      ensures c.kids[i].Ref? ==> c.kids[i].cell in st.live
      ensures Height(SlotTree(c.kids[i], st.den)) < Height(st.den[c])
    {
      KidHeight(st.den[c], i);
      assert c.kids[i] in c.kids;
    }
  }

  lemma AllNullFree(shape: Shape, kids: seq<Tree>)
    ensures NullFree(Branch(shape, kids)) <==> forall i :: 0 <= i < |kids| ==> NullFree(kids[i])
  {}

  /** The array branch of `writeToStream`. */
  method WriteArray(st: Store, c: Cell, other: Scalar -> string) returns (r: Option<string>)
    requires st.Valid() && c in st.live && c in st.den && c.shape.ArrayShape?
    ensures r.Some? <==> NullFree(st.den[c])
    ensures r.Some? ==> r.value == Print(st.den[c], other)
    decreases Height(st.den[c]), 0
  {
    hide AllRefs, Refs, Tallies, Counted, Height, ScalarText, Means, SlotTrees, Store.Good, NullFree, Elements;
    KidsOf(st, c);
    ghost var kids := SlotTrees(c.kids, st.den);
    AllNullFree(c.shape, kids);
    ElementsNone(other);
    var os := "[";
    for i := 0 to |c.kids|
      invariant os == "[" + Elements(kids[..i], other)
      invariant forall j :: 0 <= j < i ==> NullFree(kids[j])
    {
      if i > 0 {
        os := os + ",";
      }
      var sub := ToString(st, c.kids[i], other);
      if sub.None? {
        assert !NullFree(kids[i]);
        return None;
      }
      ElementsSnoc(kids[..i], kids[i], other);
      assert kids[..i + 1] == kids[..i] + [kids[i]];
      os := os + sub.value;
    }
    assert kids[..|c.kids|] == kids;
    return Some(os + "]");
  }

  lemma ElementsNone(other: Scalar -> string)
    ensures Elements([], other) == "" && Members([], [], other) == ""
  {}

  /** The object branch of `writeToStream`. */
  method WriteObject(st: Store, c: Cell, other: Scalar -> string) returns (r: Option<string>)
    requires st.Valid() && c in st.live && c in st.den && c.shape.ObjectShape?
    ensures r.Some? <==> NullFree(st.den[c])
    ensures r.Some? ==> r.value == Print(st.den[c], other)
    decreases Height(st.den[c]), 0
  {
    hide AllRefs, Refs, Tallies, Counted, Height, Escape, ScalarText, Means, SlotTrees, Store.Good, NullFree,
         Members, Before;
    KidsOf(st, c);
    ghost var kids := SlotTrees(c.kids, st.den);
    AllNullFree(c.shape, kids);
    ElementsNone(other);
    var keys := c.shape.keys;
    var os, first := "{", true;
    for i := 0 to |c.kids|
      invariant first == (i == 0)
      invariant os == "{" + Members(keys[..i], kids[..i], other)
      invariant forall j :: 0 <= j < i ==> NullFree(kids[j])
    {
      if !first {
        os := os + ",";
      }
      first := false;
      var key := EscapeString(keys[i]);
      var sub := ToString(st, c.kids[i], other);
      if sub.None? {
        assert !NullFree(kids[i]);
        return None;
      }
      MembersSnoc(keys[..i], kids[..i], keys[i], kids[i], other);
      assert keys[..i + 1] == keys[..i] + [keys[i]] && kids[..i + 1] == kids[..i] + [kids[i]];
      os := os + ("\"" + key + "\":" + sub.value);
    }
    assert keys[..|c.kids|] == keys && kids[..|c.kids|] == kids;
    return Some(os + "}");
  }

  // ---- Printing after a program ----------------------------------------------------------

  /** After any legal program, printing a handle succeeds exactly when the program put no null pointer
      into what the handle denotes; the text is that of the handle's value. */
  method PrintAfter(cs: seq<Command>, x: nat, other: Scalar -> string) returns (r: Option<string>)
    requires LegalRun(0, cs) && x < |EffectOfRun([], cs, true)|
    ensures r.Some? <==> NullFree(EffectOfRun([], cs, true)[x])
    ensures r.Some? ==>
      x < |EffectOfRun([], cs, false)| && r.value == Print(EffectOfRun([], cs, false)[x], other)
  {
    hide EffectOfRun, Print, NullFree, Store.Good, SlotTrees;
    var st := new Store();
    assert st.Denoted() == [];
    st.Run(cs);
    FlatRun([], cs);
    assert FlatAll([]) == [];
    st.SlotLive(Handle(x), multiset{}) by {
      st.ValidIsGood();
    }
    r := ToString(st, st.vars[x], other);
    FlatSame(st.Denoted()[x]);
  }

  /** When the program uses no moved-from container as a source, every handle prints that does not
      itself hold a null pointer, because it was moved from and not written since. */
  lemma CleanProgramsPrint(cs: seq<Command>, x: nat)
    requires LegalRun(0, cs) && UsesNoNullIn([], cs) && x < |EffectOfRun([], cs, true)|
    ensures NullFree(EffectOfRun([], cs, true)[x]) <==> !EffectOfRun([], cs, true)[x].Vacant?
  {
    RunShallow([], cs);
  }
}
