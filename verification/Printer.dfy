/** The text `toString` writes for a tree, and a decoder that recovers the tree from it. */
module Printer {
  import opened Wrappers
  import opened Trees

  // ---- Escaping ------------------------------------------------------------------------

  function EscapeChar(c: char): string {
    match c
    case '\"' => "\\\""
    case '\\' => "\\\\"
    case '\n' => "\\n"
    case '\r' => "\\r"
    case '\t' => "\\t"
    case _ => [c]
  }

  function Escape(s: string): string {
    if s == [] then [] else EscapeChar(s[0]) + Escape(s[1..])
  }

  lemma {:induction false} EscapeAppend(a: string, b: string)
    ensures Escape(a + b) == Escape(a) + Escape(b)
  {
    if a == [] {
      assert a + b == b;
    } else {
      assert (a + b)[1..] == a[1..] + b;
      EscapeAppend(a[1..], b);
    }
  }

  /** `escapeString`. */
  method EscapeString(s: string) returns (out: string)
    ensures out == Escape(s)
  {
    out := "";
    for i := 0 to |s|
      invariant out == Escape(s[..i])
    {
      assert s[..i + 1] == s[..i] + [s[i]];
      EscapeAppend(s[..i], [s[i]]);
      match s[i] {
        case '\"' => out := out + "\\\"";
        case '\\' => out := out + "\\\\";
        case '\n' => out := out + "\\n";
        case '\r' => out := out + "\\r";
        case '\t' => out := out + "\\t";
        case c => out := out + [c];
      }
    }
    assert s[..|s|] == s;
  }

  /** The position of the first quote that no backslash escapes. */
  function FirstQuote(s: string, i: nat): Option<nat>
    decreases |s| - i
  {
    if i >= |s| then None
    else if s[i] == '\"' then Some(i)
    else FirstQuote(s, if s[i] == '\\' then i + 2 else i + 1)
  }

  /** The character that a backslash and `c` stand for, among the escapes the printer uses. */
  function UnescapeChar(c: char): Option<char> {
    match c
    case '\"' => Some('\"')
    case '\\' => Some('\\')
    case 'n' => Some('\n')
    case 'r' => Some('\r')
    case 't' => Some('\t')
    case _ => None
  }

  /** The content of a string up to its closing quote, and what follows the quote. */
  function ReadString(s: string): (r: Option<(string, string)>)
    ensures r.Some? ==> |r.value.1| < |s|
  {
    if s == [] then None
    else if s[0] == '\"' then Some(([], s[1..]))
    else if s[0] != '\\' then Prepend(s[0], ReadString(s[1..]))
    else if |s| < 2 || UnescapeChar(s[1]).None? then None
    else Prepend(UnescapeChar(s[1]).value, ReadString(s[2..]))
  }

  function Prepend(c: char, r: Option<(string, string)>): Option<(string, string)> {
    if r.None? then None else Some(([c] + r.value.0, r.value.1))
  }

  /** Scanning an escaped string, a quote and any tail for the first unescaped quote stops exactly
      at the end of the escaped string. */
  lemma {:induction false} QuoteEndsString(done: string, s: string, tail: string)
    ensures FirstQuote(done + (Escape(s) + "\"" + tail), |done|) == Some(|done| + |Escape(s)|)
    decreases |s|
  {
    var text := done + (Escape(s) + "\"" + tail);
    if s != [] {
      var head := EscapeChar(s[0]);
      assert text == (done + head) + (Escape(s[1..]) + "\"" + tail);
      QuoteEndsString(done + head, s[1..], tail);
      assert text[|done|] == head[0];
    }
  }

  lemma ReadUnescaped(c: char, rest: string)
    requires c != '\"' && c != '\\'
    ensures ReadString([c] + rest) == Prepend(c, ReadString(rest))
  {
    assert ([c] + rest)[1..] == rest;
  }

  lemma ReadPair(c: char, rest: string)
    requires UnescapeChar(c).Some?
    ensures ReadString(['\\', c] + rest) == Prepend(UnescapeChar(c).value, ReadString(rest))
  {
    assert (['\\', c] + rest)[2..] == rest;
  }

  lemma ReadEscapedChar(c: char, rest: string)
    ensures ReadString(EscapeChar(c) + rest) == Prepend(c, ReadString(rest))
  {
    hide ReadString, Prepend;
    var e := EscapeChar(c);
    if e == [c] {
      ReadUnescaped(c, rest);
    } else {
      assert e == ['\\', e[1]];
      ReadPair(e[1], rest);
    }
  }

  /** Unescaping what was escaped gives the string back, and the tail is untouched. */
  lemma {:induction false} ReadEscaped(s: string, tail: string)
    ensures ReadString(Escape(s) + "\"" + tail) == Some((s, tail))
  {
    var text := Escape(s) + "\"" + tail;
    if s == [] {
      assert text[1..] == tail;
    } else {
      var rest := Escape(s[1..]) + "\"" + tail;
      ReadEscaped(s[1..], tail);
      ReadEscapedChar(s[0], rest);
      assert text == EscapeChar(s[0]) + rest;
      assert s == [s[0]] + s[1..];
    }
  }

  // ---- What section 7 of RFC 8259 allows between quotes ----------------------------------

  predicate IsHex(c: char) {
    '0' <= c <= '9' || 'a' <= c <= 'f' || 'A' <= c <= 'F'
  }

  /** The characters between the quotes of a JSON string. */
  predicate JsonChars(s: string) {
    s == [] ||
    if s[0] != '\\' then s[0] != '\"' && s[0] >= ' ' && JsonChars(s[1..])
    else
      |s| >= 2 &&
      if s[1] == 'u' then |s| >= 6 && (forall i :: 2 <= i < 6 ==> IsHex(s[i])) && JsonChars(s[6..])
      else s[1] in "\"\\/bfnrt" && JsonChars(s[2..])
  }

  lemma EscapeCharIsJson(c: char, rest: string)
    ensures JsonChars(EscapeChar(c) + rest) <==> (c >= ' ' || c in "\n\r\t") && JsonChars(rest)
  {}

  /** The printer writes JSON string content exactly when every control character of the string is
      a newline, a carriage return or a tab; it copies the other ones unescaped. */
  lemma {:induction false} EscapeIsJson(s: string)
    ensures JsonChars(Escape(s)) <==> forall c <- s :: c >= ' ' || c in "\n\r\t"
  {
    if s != [] {
      EscapeIsJson(s[1..]);
      EscapeCharIsJson(s[0], Escape(s[1..]));
      assert s == [s[0]] + s[1..];
    }
  }

  // ---- Numbers ---------------------------------------------------------------------------

  function DigitChar(d: nat): char
    requires d < 10
  {
    '0' + d as char
  }

  function Digits(n: nat): (s: string)
    ensures s != []
  {
    if n < 10 then [DigitChar(n)] else Digits(n / 10) + [DigitChar(n % 10)]
  }

  function IntText(i: int): string {
    if i < 0 then "-" + Digits(-i) else Digits(i)
  }

  predicate IsDigit(c: char) {
    '0' <= c <= '9'
  }

  /** Reads decimal digits onto `n` as far as they go. */
  function ReadDigits(n: nat, s: string): (r: (nat, string))
    ensures |r.1| <= |s|
    decreases |s|
  {
    if s == [] || !IsDigit(s[0]) then (n, s)
    else ReadDigits(10 * n + (s[0] - '0') as nat, s[1..])
  }

  function ReadInt(s: string): (r: Option<(Int64, string)>)
    ensures r.Some? ==> |r.value.1| < |s|
  {
    var digits := if s != [] && s[0] == '-' then s[1..] else s;
    if digits == [] || !IsDigit(digits[0]) then None
    else
      var (n, rest) := ReadDigits((digits[0] - '0') as nat, digits[1..]);
      var i: int := if s[0] == '-' then -(n as int) else n;
      if -0x8000_0000_0000_0000 <= i < 0x8000_0000_0000_0000 then Some((i, rest)) else None
  }

  predicate StartsWithDigit(s: string) {
    s != [] && IsDigit(s[0])
  }

  lemma {:induction false} ReadDigitsPrinted(n: nat, tail: string)
    ensures ReadDigits(0, Digits(n) + tail) == ReadDigits(n, tail)
    ensures IsDigit(Digits(n)[0])
  {
    if n >= 10 {
      var last := [DigitChar(n % 10)];
      ReadDigitsPrinted(n / 10, last + tail);
      assert Digits(n) + tail == Digits(n / 10) + (last + tail);
      assert (last + tail)[1..] == tail;
      assert Digits(n)[0] == Digits(n / 10)[0];
    } else {
      assert (Digits(n) + tail)[1..] == tail;
    }
  }

  /** The decimal text of a number: digits only, no leading zero, and reading them gives the number. */
  lemma {:induction false} DigitsAreDecimal(n: nat)
    ensures forall c <- Digits(n) :: IsDigit(c)
    ensures if n == 0 then Digits(n) == "0" else Digits(n)[0] != '0'
    ensures ReadDigits(0, Digits(n)) == (n, "")
  {
    if n >= 10 {
      DigitsAreDecimal(n / 10);
      assert Digits(n)[0] == Digits(n / 10)[0];
    }
    ReadDigitsPrinted(n, "");
    assert Digits(n) + "" == Digits(n);
  }

  lemma ReadIntPrinted(i: Int64, tail: string)
    requires !StartsWithDigit(tail)
    ensures ReadInt(IntText(i) + tail) == Some((i, tail))
  {
    hide Digits;
    var m: int := i;
    var n: nat := if m < 0 then -m else m;
    var text := IntText(i) + tail;
    var digits := Digits(n) + tail;
    ReadDigitsPrinted(n, tail);
    assert i < 0 ==> text[1..] == digits;
    assert ReadDigits(0, digits) == ReadDigits((digits[0] - '0') as nat, digits[1..]);
  }

  // ---- Values ----------------------------------------------------------------------------

  /** A blob is printed as a string that tells its size. */
  function BinaryMark(size: nat): string {
    "<binary:" + Digits(size) + " bytes>"
  }

  /** The text of a scalar; `other` gives the text of doubles and dates, which this model does not
      spell out. */
  function ScalarText(a: Scalar, other: Scalar -> string): string {
    match a
    case Null => "null"
    case Bool(b) => if b then "true" else "false"
    case Int(i) => IntText(i)
    case Text(s) => "\"" + Escape(s) + "\""
    case Binary(bytes) => "\"" + BinaryMark(|bytes|) + "\""
    case Double(_) => other(a)
    case DateTime(_) => other(a)
  }

  function Print(t: Tree, other: Scalar -> string): string {
    match t
    case Leaf(a) => ScalarText(a, other)
    case Branch(ArrayShape, kids) => "[" + Elements(kids, other) + "]"
    case Branch(ObjectShape(keys), kids) => "{" + Members(keys, kids, other) + "}"
    case Vacant(_) => ""  // a null pointer has no text: printing it is an error
  }

  function Elements(kids: seq<Tree>, other: Scalar -> string): string {
    if kids == [] then ""
    else if |kids| == 1 then Print(kids[0], other)
    else Print(kids[0], other) + "," + Elements(kids[1..], other)
  }

  function Member(key: string, text: string): string {
    "\"" + Escape(key) + "\":" + text
  }

  function Members(keys: seq<string>, kids: seq<Tree>, other: Scalar -> string): string
    decreases kids
  {
    if keys == [] || kids == [] then ""
    else if |kids| == 1 then Member(keys[0], Print(kids[0], other))
    else Member(keys[0], Print(kids[0], other)) + "," + Members(keys[1..], kids[1..], other)
  }

  /** The text grows at its end as the printing loop appends elements. */
  lemma {:induction false} ElementsSnoc(kids: seq<Tree>, t: Tree, other: Scalar -> string)
    ensures Elements(kids + [t], other) == Elements(kids, other) + (if kids == [] then "" else ",") + Print(t, other)
  {
    hide Print;
    var r := kids + [t];
    if kids == [] {
      assert r == [t];
    } else {
      assert r[1..] == kids[1..] + [t];
      ElementsSnoc(kids[1..], t, other);
      if |kids| == 1 {
        assert r[1..] == [t];
      }
    }
  }

  lemma {:induction false} MembersSnoc(keys: seq<string>, kids: seq<Tree>, k: string, t: Tree,
                                       other: Scalar -> string)
    requires |keys| == |kids|
    ensures Members(keys + [k], kids + [t], other)
         == Members(keys, kids, other) + (if kids == [] then "" else ",") + Member(k, Print(t, other))
    decreases kids
  {
    hide Print, Member;
    var ks, ts := keys + [k], kids + [t];
    if kids == [] {
      assert ks == [k] && ts == [t];
    } else {
      assert ks[1..] == keys[1..] + [k] && ts[1..] == kids[1..] + [t];
      MembersSnoc(keys[1..], kids[1..], k, t, other);
      if |kids| == 1 {
        assert ks[1..] == [k] && ts[1..] == [t];
      }
    }
  }

  /** The kinds whose text determines the value. */
  predicate Lossless(t: Tree) {
    match t
    case Leaf(a) => a.Null? || a.Bool? || a.Int? || a.Text?
    case Branch(shape, kids) =>
      (shape.ObjectShape? ==> |shape.keys| == |kids|) && forall k <- kids :: Lossless(k)
    case Vacant(_) => false
  }

  // ---- The decoder -----------------------------------------------------------------------

  function ReadWord(s: string, word: string, t: Tree): (r: Option<(Tree, string)>)
    requires word != ""
    ensures r.Some? ==> |r.value.1| < |s|
  {
    if |word| <= |s| && s[..|word|] == word then Some((t, s[|word|..])) else None
  }

  function ReadValue(s: string): (r: Option<(Tree, string)>)
    ensures r.Some? ==> |r.value.1| < |s|
    decreases |s|, 1
  {
    if s == [] then None
    else
      match s[0]
      case 'n' => ReadWord(s, "null", Leaf(Null))
      case 't' => ReadWord(s, "true", Leaf(Bool(true)))
      case 'f' => ReadWord(s, "false", Leaf(Bool(false)))
      case '\"' =>
        var r := ReadString(s[1..]);
        if r.None? then None else Some((Leaf(Text(r.value.0)), r.value.1))
      case '[' =>
        if |s| >= 2 && s[1] == ']' then Some((Branch(ArrayShape, []), s[2..]))
        else
          var r := ReadElements(s[1..]);
          if r.None? then None else Some((Branch(ArrayShape, r.value.0), r.value.1))
      case '{' =>
        if |s| >= 2 && s[1] == '}' then Some((Branch(ObjectShape([]), []), s[2..]))
        else
          var r := ReadMembers(s[1..]);
          if r.None? then None else Some((Branch(ObjectShape(r.value.0), r.value.1), r.value.2))
      case _ =>
        var r := ReadInt(s);
        if r.None? then None else Some((Leaf(Int(r.value.0)), r.value.1))
  }

  function ReadElements(s: string): (r: Option<(seq<Tree>, string)>)
    ensures r.Some? ==> |r.value.1| < |s|
    decreases |s|, 2
  {
    var v := ReadValue(s);
    if v.None? || v.value.1 == [] then None
    else if v.value.1[0] == ']' then Some(([v.value.0], v.value.1[1..]))
    else if v.value.1[0] != ',' then None
    else
      var rest := ReadElements(v.value.1[1..]);
      if rest.None? then None else Some(([v.value.0] + rest.value.0, rest.value.1))
  }

  function ReadMembers(s: string): (r: Option<(seq<string>, seq<Tree>, string)>)
    ensures r.Some? ==> |r.value.2| < |s|
    decreases |s|, 2
  {
    if s == [] || s[0] != '\"' then None
    else
      var k := ReadString(s[1..]);
      if k.None? || k.value.1 == [] || k.value.1[0] != ':' then None
      else
        var v := ReadValue(k.value.1[1..]);
        if v.None? || v.value.1 == [] then None
        else if v.value.1[0] == '}' then Some(([k.value.0], [v.value.0], v.value.1[1..]))
        else if v.value.1[0] != ',' then None
        else
          var rest := ReadMembers(v.value.1[1..]);
          if rest.None? then None
          else Some(([k.value.0] + rest.value.0, [v.value.0] + rest.value.1, rest.value.2))
  }

  // ---- The decoder undoes the printer ----------------------------------------------------

  predicate SafeTail(t: Tree, tail: string) {
    t.Leaf? && t.a.Int? ==> !StartsWithDigit(tail)
  }

  lemma IntTextHead(i: Int64)
    ensures IntText(i) != "" && (IsDigit(IntText(i)[0]) || IntText(i)[0] == '-')
  {
    var m: int := i;
    ReadDigitsPrinted(if m < 0 then -m else m, "");
  }

  /** No value's text begins with a closing bracket. */
  lemma PrintHead(t: Tree, other: Scalar -> string)
    requires Lossless(t)
    ensures Print(t, other) != "" && Print(t, other)[0] != ']'
  {
    if t.Leaf? && t.a.Int? {
      IntTextHead(t.a.i);
    }
  }

  lemma ReadWordPrinted(word: string, t: Tree, tail: string)
    requires word != ""
    ensures ReadWord(word + tail, word, t) == Some((t, tail))
  {}

  lemma ReadText(s: string, tail: string)
    ensures ReadValue("\"" + Escape(s) + "\"" + tail) == Some((Leaf(Text(s)), tail))
  {
    var text := "\"" + Escape(s) + "\"" + tail;
    assert text[1..] == Escape(s) + "\"" + tail;
    ReadEscaped(s, tail);
  }

  lemma ReadLeaf(a: Scalar, tail: string, other: Scalar -> string)
    requires Lossless(Leaf(a)) && SafeTail(Leaf(a), tail)
    ensures ReadValue(ScalarText(a, other) + tail) == Some((Leaf(a), tail))
  {
    match a
    case Null => ReadWordPrinted("null", Leaf(a), tail);
    case Bool(b) => ReadWordPrinted(if b then "true" else "false", Leaf(a), tail);
    case Int(i) =>
      IntTextHead(i);
      ReadIntPrinted(i, tail);
    case Text(s) =>
      ReadText(s, tail);
  }

  lemma ReadEmpty(tail: string)
    ensures ReadValue("[" + "" + "]" + tail) == Some((Branch(ArrayShape, []), tail))
    ensures ReadValue("{" + "" + "}" + tail) == Some((Branch(ObjectShape([]), []), tail))
  {}

  lemma ReadBracket(inside: string, tail: string)
    requires inside != "" && inside[0] != ']'
    ensures ReadValue("[" + inside + "]" + tail) ==
      var r := ReadElements(inside + ("]" + tail));
      if r.None? then None else Some((Branch(ArrayShape, r.value.0), r.value.1))
  {
    var text := "[" + inside + "]" + tail;
    assert text[1..] == inside + ("]" + tail) && text[1] == inside[0];
  }

  lemma ReadBrace(inside: string, tail: string)
    requires inside != "" && inside[0] == '\"'
    ensures ReadValue("{" + inside + "}" + tail) ==
      var r := ReadMembers(inside + ("}" + tail));
      if r.None? then None else Some((Branch(ObjectShape(r.value.0), r.value.1), r.value.2))
  {
    var text := "{" + inside + "}" + tail;
    assert text[1..] == inside + ("}" + tail) && text[1] == inside[0];
  }

  /** Reading the text of a tree, followed by anything that does not extend a trailing number,
      gives the tree back and leaves what follows. */
  lemma {:induction false} ReadPrinted(t: Tree, tail: string, other: Scalar -> string)
    requires Lossless(t) && SafeTail(t, tail)
    ensures ReadValue(Print(t, other) + tail) == Some((t, tail))
    decreases t, 1
  {
    hide ReadValue, ReadElements, ReadMembers, Escape;
    match t
    case Leaf(a) => ReadLeaf(a, tail, other);
    case Branch(ArrayShape, kids) =>
      if kids == [] {
        ReadEmpty(tail);
      } else {
        PrintHead(kids[0], other);
        ReadBracket(Elements(kids, other), tail);
        ReadPrintedElements(kids, tail, other);
      }
    case Branch(ObjectShape(keys), kids) =>
      if kids == [] {
        assert keys == [];
        ReadEmpty(tail);
      } else {
        ReadBrace(Members(keys, kids, other), tail);
        ReadPrintedMembers(keys, kids, tail, other);
      }
  }

  /** One element: its value, then either the end or a comma and the rest. */
  lemma ReadElement(text: string, t: Tree, after: string)
    requires ReadValue(text) == Some((t, after)) && after != ""
    ensures after[0] == ']' ==> ReadElements(text) == Some(([t], after[1..]))
    ensures after[0] == ',' && ReadElements(after[1..]).Some? ==>
      var rest := ReadElements(after[1..]).value; ReadElements(text) == Some(([t] + rest.0, rest.1))
  {}

  lemma {:induction false} ReadPrintedElements(kids: seq<Tree>, tail: string, other: Scalar -> string)
    requires kids != [] && forall k <- kids :: Lossless(k)
    ensures ReadElements(Elements(kids, other) + ("]" + tail)) == Some((kids, tail))
    decreases kids, 0
  {
    hide ReadValue, ReadElements, Print;
    var text := Elements(kids, other) + ("]" + tail);
    var rest := Elements(kids[1..], other) + ("]" + tail);
    var after := if |kids| == 1 then "]" + tail else "," + rest;
    assert text == Print(kids[0], other) + after;
    ReadPrinted(kids[0], after, other);
    assert kids == [kids[0]] + kids[1..];
    if |kids| == 1 {
      assert after[1..] == tail && kids == [kids[0]];
    } else {
      assert after[1..] == rest;
      ReadPrintedElements(kids[1..], tail, other);
    }
    ReadElement(text, kids[0], after);
  }

  /** One member: key, colon and value, then either the end or a comma and the rest. */
  lemma ReadMember(key: string, value: string, t: Tree, after: string)
    requires ReadValue(value) == Some((t, after)) && after != ""
    ensures var text := Member(key, value);
      && (after[0] == '}' ==> ReadMembers(text) == Some(([key], [t], after[1..])))
      && (after[0] == ',' && ReadMembers(after[1..]).Some? ==>
            var rest := ReadMembers(after[1..]).value;
            ReadMembers(text) == Some(([key] + rest.0, [t] + rest.1, rest.2)))
  {
    hide ReadValue, Escape;
    var text := Member(key, value);
    assert text[1..] == Escape(key) + "\"" + (":" + value);
    ReadEscaped(key, ":" + value);
    assert (":" + value)[1..] == value;
  }

  lemma {:induction false} ReadPrintedMembers(keys: seq<string>, kids: seq<Tree>, tail: string,
                                              other: Scalar -> string)
    requires kids != [] && |keys| == |kids| && forall k <- kids :: Lossless(k)
    ensures ReadMembers(Members(keys, kids, other) + ("}" + tail)) == Some((keys, kids, tail))
    decreases kids, 0
  {
    hide ReadValue, ReadMembers, Print, Escape;
    var text := Members(keys, kids, other) + ("}" + tail);
    var rest := Members(keys[1..], kids[1..], other) + ("}" + tail);
    var after := if |kids| == 1 then "}" + tail else "," + rest;
    assert text == Member(keys[0], Print(kids[0], other) + after);
    ReadPrinted(kids[0], after, other);
    assert keys == [keys[0]] + keys[1..] && kids == [kids[0]] + kids[1..];
    if |kids| == 1 {
      assert after[1..] == tail && kids == [kids[0]] && keys == [keys[0]];
    } else {
      assert after[1..] == rest;
      ReadPrintedMembers(keys[1..], kids[1..], tail, other);
    }
    ReadMember(keys[0], Print(kids[0], other) + after, kids[0], after);
  }

  /** So different lossless trees print differently. */
  lemma PrintInjective(t: Tree, u: Tree, other: Scalar -> string)
    requires Lossless(t) && Lossless(u) && Print(t, other) == Print(u, other)
    ensures t == u
  {
    ReadPrinted(t, "", other);
    ReadPrinted(u, "", other);
    assert Print(t, other) + "" == Print(t, other);
    assert Print(u, other) + "" == Print(u, other);
  }

  /** Outside those kinds the text loses the value: a blob prints as a string that tells its size, and
      so does the string of that text. */
  lemma BinaryPrintsLikeText(bytes: seq<Byte>, other: Scalar -> string)
    ensures var size := Digits(|bytes|); var mark := "<binary:" + size + " bytes>";
      && Print(Leaf(Binary(bytes)), other) == "\"" + mark + "\"" == Print(Leaf(Text(mark)), other)
      && ReadDigits(0, size) == (|bytes|, "")
  {
    hide Plain, Digits, Escape, ReadDigits;
    DigitsAreDecimal(|bytes|);
    DigitsUnescaped(|bytes|);
    MarkerPlain(Digits(|bytes|));
    PlainUnescaped("<binary:" + Digits(|bytes|) + " bytes>");
  }

  predicate Plain(s: string) {
    forall c <- s :: EscapeChar(c) == [c]
  }

  lemma PlainJoin(a: string, b: string)
    requires Plain(a) && Plain(b)
    ensures Plain(a + b)
  {}

  lemma MarkerHeadPlain()
    ensures Plain("<binary:")
  {}

  lemma MarkerEndPlain()
    ensures Plain(" bytes>")
  {}

  lemma MarkerPlain(digits: string)
    requires Plain(digits)
    ensures Plain("<binary:" + digits + " bytes>")
  {
    hide Plain;
    MarkerHeadPlain();
    MarkerEndPlain();
    PlainJoin("<binary:", digits);
    PlainJoin("<binary:" + digits, " bytes>");
  }

  lemma {:induction false} PlainUnescaped(s: string)
    requires Plain(s)
    ensures Escape(s) == s
  {
    if s != [] {
      PlainUnescaped(s[1..]);
      assert s == [s[0]] + s[1..];
    }
  }

  lemma {:induction false} DigitsUnescaped(n: nat)
    ensures Plain(Digits(n))
  {
    if n >= 10 {
      DigitsUnescaped(n / 10);
    }
  }
}
