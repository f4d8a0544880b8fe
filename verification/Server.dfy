/** `handleConnection`: reading lines from a connection and answering each of them. */
module Server {
  import opened Wrappers
  import opened Json
  import opened Messages
  import opened Protocol
  import opened Dispatcher
  import opened Framing
  import opened Registry
  import Concurrency

  /** The library's parser, how the dispatch of each request goes, and which documents the library can
      dump: it throws on a string that is not valid UTF-8.  All are arbitrary. */
  datatype Environment = Environment(
    parse: string -> Parsed, dispatch: (nat, RpcRequest) -> Path, dumps: Json -> bool)

  /** The answer to line number `i`. */
  function Response(env: Environment, i: nat, line: string): RpcResponse {
    var req := ReadRequest(env.parse(line));
    if req.Err? then Failure(MakeError(PARSE_ERROR, req.error), None)
    else Reply(req.value, env.dispatch(i, req.value))
  }

  function Answer(env: Environment, i: nat, line: string): Json {
    ResponseJson(Response(env, i, line))
  }

  /** One response for each line, in order, up to the first that cannot be dumped. */
  ghost predicate Answered(env: Environment, lines: seq<string>, out: seq<Json>) {
    && |out| <= |lines|
    && (forall i :: 0 <= i < |out| ==> out[i] == Answer(env, i, lines[i]) && env.dumps(out[i]))
    && (|out| < |lines| ==> !env.dumps(Answer(env, |out|, lines[|out|])))
  }

  predicate WellFormedPath(p: Path) {
    match p
    case Called(Returns(v)) => v.WellFormed()
    case Called(ThrowsRpc(e)) => WellFormedOptional(e.data)
    case _ => true
  }

  ghost predicate Proper(env: Environment) {
    && (forall s: string :: env.parse(s).Doc? ==> env.parse(s).j.WellFormed())
    && (forall i: nat, r :: WellFormedPath(env.dispatch(i, r)))
  }

  lemma ReadRequestWellFormed(p: Parsed)
    requires p.Doc? && p.j.WellFormed() && ReadRequest(p).Ok?
    ensures WellFormedOptional(ReadRequest(p).value.id)
  {
    hide Field, Contains;
    if Contains(p.j, "id") {
      FieldWellFormed(p.j, "id");
      ToValueWellFormed(Field(p.j, "id"));
    }
  }

  predicate WellFormedResponse(res: RpcResponse) {
    && WellFormedOptional(res.result) && WellFormedOptional(res.id)
    && (res.error.Some? ==> WellFormedOptional(res.error.value.data))
  }

  lemma ReplyWellFormed(req: RpcRequest, path: Path)
    requires WellFormedOptional(req.id) && WellFormedPath(path)
    ensures WellFormedResponse(Reply(req, path))
  {}

  lemma ResponseWellFormed(env: Environment, i: nat, line: string)
    requires Proper(env)
    ensures env.parse(line).Doc? ==> env.parse(line).j.WellFormed()
    ensures WellFormedResponse(Response(env, i, line))
  {
    hide ReadRequest, Reply, WellFormedPath, WellFormedOptional;
    var p := env.parse(line);
    var req := ReadRequest(p);
    if req.Ok? {
      OnlyDocumentsAreRead(p);
      ReadRequestWellFormed(p);
      assert WellFormedPath(env.dispatch(i, req.value));
      ReplyWellFormed(req.value, env.dispatch(i, req.value));
    } else {
      FailureWellFormed(req.error);
    }
  }

  lemma OnlyDocumentsAreRead(p: Parsed)
    requires ReadRequest(p).Ok?
    ensures p.Doc?
  {}

  lemma FailureWellFormed(what: string)
    ensures WellFormedResponse(Failure(MakeError(PARSE_ERROR, what), None))
  {}

  /** One turn of the loop, after the line is read. */
  method AnswerLine(env: Environment, i: nat, line: string) returns (out: Json)
    requires Proper(env)
    ensures out == Answer(env, i, line)
  {
    hide ResponseJson, ReadRequest, Reply, WellFormedOptional, Proper;
    ResponseWellFormed(env, i, line);
    var p := env.parse(line);
    var req, error := FromJsonRequest(p);
    var res: RpcResponse;
    if req.None? {
      res := Failure(MakeError(PARSE_ERROR, error), None);
    } else {
      res := Reply(req.value, env.dispatch(i, req.value));
    }
    out := ResponseToJson(res);
  }

  /** The connection loop over bytes that arrive in arbitrary chunks: it reads until the buffer
      holds a newline, takes the line, and writes one response; bytes behind the newline stay in
      the buffer.  The end of input ends the loop, and so does the exception of a response that cannot
      be dumped.  The responses depend on the bytes only. */
  method HandleConnection(env: Environment, chunks: seq<string>) returns (out: seq<Json>)
    requires Proper(env)
    ensures Answered(env, Lines(Flatten(chunks)), out)
  {
    hide Answer, Proper, OneLine, FirstNewline, Lines, Flatten, Chomp;
    ghost var lines := Lines(Flatten(chunks));
    out := [];
    var buffer, next := "", 0;
    assert chunks[0..] == chunks && buffer + Flatten(chunks) == Flatten(chunks);
    while true
      invariant next <= |chunks| && |out| <= |lines|
      invariant lines[|out|..] == Lines(buffer + Flatten(chunks[next..]))
      invariant forall i :: 0 <= i < |out| ==> out[i] == Answer(env, i, lines[i]) && env.dumps(out[i])
      decreases |lines| - |out|
    {
      while OneLine(buffer)
        invariant next <= |chunks|
        invariant lines[|out|..] == Lines(buffer + Flatten(chunks[next..]))
        decreases |chunks| - next
      {
        ChunkRead(buffer, chunks, next);
        if next == |chunks| {
          NoLines(buffer);
          return;
        }
        buffer := buffer + chunks[next];
        next := next + 1;
      }
      var n := FirstNewline(buffer).value;
      LineTaken(buffer, Flatten(chunks[next..]));
      var line := Chomp(buffer[..n]);
      buffer := buffer[n + 1..];
      assert lines[|out|] == lines[|out|..][0] == line;
      assert lines[|out| + 1..] == lines[|out|..][1..] == Lines(buffer + Flatten(chunks[next..]));
      var res := AnswerLine(env, |out|, line);
      if !env.dumps(res) {
        return;
      }
      out := out + [res];
    }
  }

  // ---- What a client sees ----------------------------------------------------------------

  /** A line that parses is answered with what its dispatch replied, with the request's id, normalised, and
      one result or error; any other line with code -32700, the error text of the parser and no id. */
  lemma AnswerRead(env: Environment, i: nat, line: string, lib: Library)
    ensures var req := ReadRequest(env.parse(line)); var got := ReadResponse(Doc(Reparse(Answer(env, i, line))), lib);
      && got.Ok? && got.value.IsValid()
      && (req.Ok? ==>
            && got.value.id == NormalOptional(req.value.id)
            && got.value == Delivered(Reply(req.value, env.dispatch(i, req.value))))
      && (req.Err? ==> got.value == RpcResponse(None, Some(RpcError(-32700, req.error, None)), None))
  {
    hide ReadRequest, ReadResponse, ResponseJson, Reparse;
    ResponseRoundTrip(Response(env, i, line), lib);
  }

  /** The answers to the first `n` lines can be dumped. */
  ghost predicate DumpsFirst(env: Environment, raw: seq<string>, n: nat) {
    n <= |raw| && forall k :: 0 <= k < n ==> env.dumps(Answer(env, k, Chomp(raw[k])))
  }

  /** Whatever a client sends, every line is answered up to the first answer that cannot be dumped: a
      document that is a request with the reply of its dispatch, and any other line with code -32700 and
      no id. */
  lemma EveryLineAnswered(env: Environment, raw: seq<string>, tail: string, chunks: seq<string>, out: seq<Json>,
                          lib: Library)
    requires (forall l <- raw :: OneLine(l)) && OneLine(tail) && Flatten(chunks) == Terminated(raw) + tail
    requires Proper(env) && Answered(env, Lines(Flatten(chunks)), out)
    ensures |out| <= |raw| && forall n: nat :: DumpsFirst(env, raw, n) <==> n <= |out|
    ensures forall i :: 0 <= i < |out| ==>
      var p := env.parse(Chomp(raw[i])); var got := ReadResponse(Doc(Reparse(out[i])), lib);
      && got.Ok?
      && if p.Doc? && IsRequest(p.j) then
           ReadRequest(p).Ok?
           && got.value == Delivered(Reply(ReadRequest(p).value, env.dispatch(i, ReadRequest(p).value)))
         else
           got.value.error.Some? && got.value.error.value.code == -32700
           && got.value.result.None? && got.value.id.None?
  {
    hide Answer, Lines, Flatten, Terminated, OneLine, Chomp, ReadResponse, Reparse, Delivered, Reply, ReadRequest,
         IsRequest;
    LinesOfTerminated(raw, tail);
    assert Lines(Flatten(chunks)) == ChompAll(raw);
    forall i | 0 <= i < |out|
      ensures var p := env.parse(Chomp(raw[i])); var got := ReadResponse(Doc(Reparse(out[i])), lib);
        && got.Ok?
        && if p.Doc? && IsRequest(p.j) then
             ReadRequest(p).Ok?
             && got.value == Delivered(Reply(ReadRequest(p).value, env.dispatch(i, ReadRequest(p).value)))
           else
             got.value.error.Some? && got.value.error.value.code == -32700
             && got.value.result.None? && got.value.id.None?
    {
      var p := env.parse(Chomp(raw[i]));
      AnswerRead(env, i, Chomp(raw[i]), lib);
      if p.Doc? {
        RequestRead(p.j);
      } else if ReadRequest(p).Ok? {
        OnlyDocumentsAreRead(p);
      }
    }
  }

  /** The text a client sends for a request: what the library dumps, which has no raw newline, ends
      in no carriage return and parses back as `Reparse` says. */
  ghost predicate Dumped(env: Environment, text: string, req: RpcRequest) {
    && OneLine(text) && (text != "" ==> text[|text| - 1] != '\r')
    && env.parse(text) == Doc(Reparse(RequestJson(req)))
  }

  function AsReceived(req: RpcRequest): RpcRequest {
    RpcRequest(req.name, NormalAll(req.params), NormalOptional(req.id))
  }

  /** End to end: k requests sent as lines, cut into chunks in any way and followed by any
      unterminated rest, get k answers in order, if all can be dumped, and otherwise those before the
      first that cannot.  The i-th answer a client reads is what the dispatch of the i-th request
      replied, with the request's normalised id. */
  lemma EndToEnd(env: Environment, reqs: seq<RpcRequest>, texts: seq<string>, tail: string, chunks: seq<string>,
                 out: seq<Json>, lib: Library)
    requires |texts| == |reqs| && OneLine(tail) && Flatten(chunks) == Terminated(texts) + tail
    requires forall k :: 0 <= k < |reqs| ==> Dumped(env, texts[k], reqs[k]) && reqs[k].name != ""
    requires Answered(env, Lines(Flatten(chunks)), out)
    ensures |out| <= |reqs|
    ensures |out| == |reqs| <==> forall k :: 0 <= k < |reqs| ==> env.dumps(Answer(env, k, texts[k]))
    ensures forall i :: 0 <= i < |out| ==>
      var req := AsReceived(reqs[i]);
      && ReadResponse(Doc(Reparse(out[i])), lib) == Ok(Delivered(Reply(req, env.dispatch(i, req))))
      && Delivered(Reply(req, env.dispatch(i, req))).id == NormalOptional(reqs[i].id)
  {
    hide Answer, Lines, Terminated, Flatten, Dumped, ReadResponse, Reparse, Delivered, Reply, OneLine, AsReceived;
    Received(env, reqs, texts, tail);
    assert Flatten(chunks) == Terminated(texts) + tail;
    forall i | 0 <= i < |out|
      ensures var req := AsReceived(reqs[i]);
        && ReadResponse(Doc(Reparse(out[i])), lib) == Ok(Delivered(Reply(req, env.dispatch(i, req))))
        && Delivered(Reply(req, env.dispatch(i, req))).id == NormalOptional(reqs[i].id)
    {
      AnswerDelivered(env, i, texts[i], reqs[i], lib);
    }
  }

  /** Thread `t` of a state has finished dispatching the request that line `i` was read as, the way the
      environment says. */
  ghost predicate ServedBy(env: Environment, s: Concurrency.State, t: Concurrency.Tid, i: nat, req: RpcRequest) {
    && t in s.threads && Concurrency.Finished(s.threads[t]) && s.threads[t].req == req
    && env.dispatch(i, req) == s.threads[t].stage.path
  }

  /** And when dispatches of a run of the registry serve the requests, among other threads that change
      it, each answer read is the response its dispatch holds at the end; a result comes from the
      handler bound when that dispatch looked it up, and the dispatcher's "method not found" from a
      name that was not bound when it checked.  A method bound from the arrival of its request on is
      called. */
  lemma ServedEndToEnd(env: Environment, s: Concurrency.State, tids: seq<Concurrency.Tid>, reqs: seq<RpcRequest>,
                       texts: seq<string>, tail: string, chunks: seq<string>, out: seq<Json>, lib: Library, i: nat,
                       schedule: Concurrency.Schedule)
    returns (w: Concurrency.Times)
    requires |texts| == |reqs| == |tids| && OneLine(tail) && Flatten(chunks) == Terminated(texts) + tail
    requires forall k :: 0 <= k < |reqs| ==> Dumped(env, texts[k], reqs[k]) && reqs[k].name != ""
    requires Answered(env, Lines(Flatten(chunks)), out)
    requires Concurrency.Run(Concurrency.INITIAL, schedule) == Some(s)
    requires forall k :: 0 <= k < |reqs| ==> ServedBy(env, s, tids[k], k, AsReceived(reqs[k]))
    requires i < |out|
    ensures i < |reqs| && tids[i] in s.threads && Concurrency.Finished(s.threads[tids[i]])
    ensures var th := s.threads[tids[i]];
      var got := ReadResponse(Doc(Reparse(out[i])), lib);
      && got == Ok(Delivered(th.stage.res))
      && got.value.IsValid() && got.value.id == NormalOptional(reqs[i].id)
      && (got.value.result.Some? ==>
            && th.stage.ran.Some? && th.getAt <= |s.log|
            && exists k: nat :: k < th.getAt && Binds(s.log[..th.getAt], reqs[i].name, k)
                 && s.log[k].Registered? && s.log[k].handler == th.stage.ran.value)
      && (th.stage.path.Unbound? ==>
            th.hasAt <= |s.log| && !StillRegistered(s.log[..th.hasAt], reqs[i].name))
    ensures Concurrency.Took(schedule, tids[i], s.threads[tids[i]], w)
    ensures
      var since := |Concurrency.Run(Concurrency.INITIAL, schedule[..w.arrival]).value.log|;
      reqs[i].name in Concurrency.MethodsAt(schedule, w.arrival)
      && (forall j :: since <= j < |s.log| ==> !IsRemoval(s.log[j], reqs[i].name)) ==>
        s.threads[tids[i]].stage.path.Called?
  {
    hide Answer, Lines, Terminated, Flatten, Dumped, ReadResponse, Reparse, OneLine, Concurrency.Run, Binds,
         StillRegistered, NormalAll, NormalOptional, NormalError, Normal, Answered;
    EndToEnd(env, reqs, texts, tail, chunks, out, lib);
    assert ServedBy(env, s, tids[i], i, AsReceived(reqs[i]));
    w := Concurrency.DispatchLinearizes(schedule, s, tids[i]);
    Concurrency.SettledNames(schedule, s, tids[i], w.arrival);
    assert Concurrency.Reachable(s);
    Concurrency.AnswersAreValid(s, tids[i]);
    Concurrency.ResponseIsReply(s, tids[i]);
  }

  lemma Received(env: Environment, reqs: seq<RpcRequest>, texts: seq<string>, tail: string)
    requires |texts| == |reqs| && OneLine(tail)
    requires forall k :: 0 <= k < |reqs| ==> Dumped(env, texts[k], reqs[k]) && reqs[k].name != ""
    ensures Lines(Terminated(texts) + tail) == texts
  {
    hide Lines, Terminated, RequestJson, Reparse;
    forall l | l in texts
      ensures OneLine(l)
    {
      var k :| 0 <= k < |texts| && texts[k] == l;
      assert Dumped(env, texts[k], reqs[k]);
    }
    LinesOfTerminated(texts, tail);
    forall k | 0 <= k < |texts|
      ensures Chomp(texts[k]) == texts[k]
    {
      assert Dumped(env, texts[k], reqs[k]);
      ChompCuts(texts[k]);
    }
    assert ChompAll(texts) == texts;
  }

  lemma AnswerDelivered(env: Environment, i: nat, text: string, sent: RpcRequest, lib: Library)
    requires Dumped(env, text, sent) && sent.name != ""
    ensures var req := AsReceived(sent); var reply := Delivered(Reply(req, env.dispatch(i, req)));
      && ReadResponse(Doc(Reparse(Answer(env, i, text))), lib) == Ok(reply)
      && reply.id == NormalOptional(sent.id)
  {
    hide ReadRequest, ReadResponse, ResponseJson, RequestJson, Reparse, Normal, NormalAll;
    RequestRoundTrip(sent);
    ResponseRoundTrip(Response(env, i, text), lib);
    if sent.id.Some? {
      NormalIdempotent(sent.id.value);
    }
  }
}
