/** Cutting a stream of bytes into lines. */
module Framing {
  import opened Wrappers

  predicate OneLine(s: string) {
    '\n' !in s
  }

  function FirstNewline(s: string): (r: Option<nat>)
    ensures r.None? <==> OneLine(s)
    ensures r.Some? ==> r.value < |s| && s[r.value] == '\n' && OneLine(s[..r.value])
  {
    if s == [] then None
    else if s[0] == '\n' then Some(0)
    else
      var r := FirstNewline(s[1..]);
      assert s == [s[0]] + s[1..];
      if r.None? then None
      else
        assert s[..r.value + 1] == [s[0]] + s[1..][..r.value];
        Some(r.value + 1)
  }

  /** One trailing carriage return is not part of a line. */
  function Chomp(line: string): string {
    if line != "" && line[|line| - 1] == '\r' then line[..|line| - 1] else line
  }

  /** Exactly one carriage return is cut, and only where the line ends in it. */
  lemma ChompCuts(line: string)
    ensures Chomp(line + "\r") == line
    ensures line == "" || line[|line| - 1] != '\r' ==> Chomp(line) == line
    ensures Chomp(line + "\r\r") == line + "\r"
  {
    assert (line + "\r")[..|line|] == line;
    assert (line + "\r\r")[..|line| + 1] == line + "\r";
  }

  /** The lines of a text: what stands before each newline, chomped. */
  function Lines(s: string): seq<string>
    decreases |s|
  {
    var n := FirstNewline(s);
    if n.None? then [] else [Chomp(s[..n.value])] + Lines(s[n.value + 1..])
  }

  function Flatten(chunks: seq<string>): string {
    if chunks == [] then "" else chunks[0] + Flatten(chunks[1..])
  }

  /** Lines put back together, each with its newline. */
  function Terminated(raw: seq<string>): string {
    if raw == [] then "" else raw[0] + "\n" + Terminated(raw[1..])
  }

  function ChompAll(raw: seq<string>): (r: seq<string>)
    ensures |r| == |raw| && forall i :: 0 <= i < |r| ==> r[i] == Chomp(raw[i])
  {
    seq(|raw|, i requires 0 <= i < |raw| => Chomp(raw[i]))
  }

  lemma {:induction false} NewlineAfter(a: string, b: string)
    requires OneLine(a)
    ensures FirstNewline(a + "\n" + b) == Some(|a|)
    decreases |a|
  {
    var s := a + "\n" + b;
    if a != "" {
      assert s[0] == a[0] && s[1..] == a[1..] + "\n" + b;
      NewlineAfter(a[1..], b);
    }
  }

  lemma NoLines(s: string)
    requires OneLine(s)
    ensures Lines(s) == []
  {}

  /** The lines of newline-terminated pieces, whatever unterminated rest follows them, are the
      pieces. */
  lemma {:induction false} LinesOfTerminated(raw: seq<string>, tail: string)
    requires (forall l <- raw :: OneLine(l)) && OneLine(tail)
    ensures Lines(Terminated(raw) + tail) == ChompAll(raw)
    decreases |raw|
  {
    hide FirstNewline, OneLine, Chomp;
    if raw == [] {
      assert Terminated(raw) + tail == tail;
      NoLines(tail);
    } else {
      var s := Terminated(raw) + tail;
      var rest := Terminated(raw[1..]) + tail;
      assert s == raw[0] + "\n" + rest;
      NewlineAfter(raw[0], rest);
      assert s[..|raw[0]|] == raw[0] && s[|raw[0]| + 1..] == rest;
      LinesOfTerminated(raw[1..], tail);
      assert ChompAll(raw) == [Chomp(raw[0])] + ChompAll(raw[1..]);
    }
  }

  /** And every text is such pieces and such a rest, so this describes `Lines` on all texts. */
  lemma {:induction false} EveryTextSplits(s: string) returns (raw: seq<string>, tail: string)
    ensures s == Terminated(raw) + tail && (forall l <- raw :: OneLine(l)) && OneLine(tail)
    ensures Lines(s) == ChompAll(raw)
    decreases |s|
  {
    hide Lines, ChompAll, FirstNewline;
    var n := FirstNewline(s);
    if n.None? {
      raw, tail := [], s;
      assert s == Terminated(raw) + tail;
      LinesOfTerminated(raw, tail);
    } else {
      var more;
      more, tail := EveryTextSplits(s[n.value + 1..]);
      raw := [s[..n.value]] + more;
      assert raw[1..] == more;
      assert s == s[..n.value] + "\n" + s[n.value + 1..];
      LinesOfTerminated(raw, tail);
    }
  }

  /** A newline already read stays the first one when more bytes arrive. */
  lemma NewlineStays(a: string, b: string)
    requires !OneLine(a)
    ensures FirstNewline(a + b) == FirstNewline(a)
  {
    var n := FirstNewline(a).value;
    assert a + b == a[..n] + "\n" + (a[n + 1..] + b);
    NewlineAfter(a[..n], a[n + 1..] + b);
  }

  /** So the first line of a stream can be taken from what has arrived of it. */
  lemma LineTaken(buffer: string, rest: string)
    requires !OneLine(buffer)
    ensures var n := FirstNewline(buffer).value;
      Lines(buffer + rest) == [Chomp(buffer[..n])] + Lines(buffer[n + 1..] + rest)
  {
    hide FirstNewline, Chomp, OneLine;
    var n := FirstNewline(buffer).value;
    var stream := buffer + rest;
    NewlineStays(buffer, rest);
    assert stream[..n] == buffer[..n] && stream[n + 1..] == buffer[n + 1..] + rest;
  }

  lemma ChunkRead(buffer: string, chunks: seq<string>, i: nat)
    requires i <= |chunks|
    ensures i < |chunks| ==> buffer + Flatten(chunks[i..]) == (buffer + chunks[i]) + Flatten(chunks[i + 1..])
    ensures i == |chunks| ==> buffer + Flatten(chunks[i..]) == buffer
  {}
}
