/** Facts about sequences and sets. */
module Collections {
  function InsertAt<T>(s: seq<T>, pos: nat, v: T): (r: seq<T>)
    requires pos <= |s|
    ensures |r| == |s| + 1 && r[pos] == v
    ensures r[..pos] == s[..pos] && r[pos + 1..] == s[pos..]
  {
    s[..pos] + [v] + s[pos..]
  }

  /** Where an element of a sequence is after an insertion at `pos`. */
  function Shifted(i: nat, pos: nat): nat {
    if i < pos then i else i + 1
  }

  lemma InsertShifts<T>(s: seq<T>, pos: nat, v: T)
    requires pos <= |s|
    ensures forall i :: 0 <= i < |s| ==> InsertAt(s, pos, v)[Shifted(i, pos)] == s[i]
    ensures forall i :: 0 <= i < pos ==> InsertAt(s, pos, v)[i] == s[i]
    ensures forall i :: pos < i <= |s| ==> InsertAt(s, pos, v)[i] == s[i - 1]
  {}

  lemma InsertMembers<T>(s: seq<T>, pos: nat, v: T, x: T)
    requires pos <= |s|
    ensures x in InsertAt(s, pos, v) <==> x == v || x in s
  {}

  lemma SubsetSize<T>(a: set<T>, b: set<T>)
    requires a <= b
    ensures |a| <= |b|
    ensures a != b ==> |a| < |b|
  {
    assert b == a + (b - a);
  }

  lemma PrefixSnoc<T>(a: seq<T>, c: T, b: seq<T>)
    requires a + [c] <= b
    ensures |a| < |b| && b[|a|] == c && b[|a|..] == [c] + b[|a| + 1..] && forall e <- a :: e in b
  {
    forall i | 0 <= i < |a|
      ensures a[i] in b
    {
      assert b[i] == (a + [c])[i];
    }
    assert b[|a|] == (a + [c])[|a|];
  }
}
