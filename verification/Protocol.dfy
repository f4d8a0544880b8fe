/** Requests and responses as JSON documents: what `to_json` dumps and the `from_json` functions
    read.  The text itself is left to the JSON library; `Reparse` says what parsing dumped text
    gives. */
module Protocol {
  import opened Wrappers
  import opened Trees
  import opened Json
  import opened Messages

  /** What the library's parser makes of a text: a document, a syntax error, or another exception,
      such as for a number out of range; each exception has a description. */
  datatype Parsed = Doc(j: Json) | NotJson(what: string) | Refused(what: string)

  /** The library's conversions that the code relies on but does not define: of a float to `int`,
      and the text of the exception for a value of the wrong kind. */
  datatype Library = Library(truncate: UInt64 -> Int32, typeError: Json -> string)

  function NoFields(): (j: Json)
    ensures IsObject(j) && j.keys == []
  {
    JObj([], [])
  }

  // ---- Writing ---------------------------------------------------------------------------

  function RequestJson(req: RpcRequest): (j: Json)
    ensures IsObject(j)
  {
    var j := SetField(NoFields(), "jsonrpc", JStr("2.0"));
    var j := SetField(j, "method", JStr(req.name));
    var j := SetField(j, "params", JArr(AllToJson(req.params)));
    SetOptional(j, "id", req.id)
  }

  function ErrorJson(e: RpcError): (j: Json)
    ensures IsObject(j)
  {
    var j := SetField(NoFields(), "code", JInt(e.code));
    var j := SetField(j, "message", JStr(e.message));
    SetOptional(j, "data", e.data)
  }

  function ResponseJson(res: RpcResponse): (j: Json)
    ensures IsObject(j)
  {
    var j := SetField(NoFields(), "jsonrpc", JStr("2.0"));
    var j := if res.result.Some? then SetField(j, "result", ToJson(res.result.value))
             else if res.error.Some? then SetField(j, "error", ErrorJson(res.error.value))
             else SetField(j, "result", JNull);
    SetOptional(j, "id", res.id)
  }

  function SetField(j: Json, key: string, value: Json): (r: Json)
    requires IsObject(j)
    ensures IsObject(r)
    ensures forall k :: Contains(r, k) <==> k == key || Contains(j, k)
    ensures forall k :: Contains(r, k) ==> Field(r, k) == if k == key then value else Field(j, k)
  {
    assert var r := Assigned(j, key, value);
        && IsObject(r)
        && (forall k :: Contains(r, k) <==> k == key || Contains(j, k))
        && (forall k :: Contains(r, k) ==> Field(r, k) == if k == key then value else Field(j, k)) by {
      AssignedField(j, key, value, key);
      forall k: string
        ensures Contains(Assigned(j, key, value), k) <==> k == key || Contains(j, k)
        ensures Contains(Assigned(j, key, value), k) ==>
          Field(Assigned(j, key, value), k) == if k == key then value else Field(j, k)
      {
        AssignedField(j, key, value, k);
      }
    }
    Assigned(j, key, value)
  }

  function SetOptional(j: Json, key: string, value: Option<Tree>): (r: Json)
    requires IsObject(j)
    ensures IsObject(r)
    ensures forall k :: Contains(r, k) <==> (value.Some? && k == key) || Contains(j, k)
    ensures forall k :: Contains(r, k) ==>
      Field(r, k) == if value.Some? && k == key then ToJson(value.value) else Field(j, k)
  {
    if value.Some? then SetField(j, key, ToJson(value.value)) else j
  }

  /** The object has these members and no other. */
  ghost predicate MembersAre(j: Json, members: map<string, Json>) {
    && IsObject(j)
    && (forall k :: Contains(j, k) <==> k in members)
    && forall k :: k in members ==> Contains(j, k) && Field(j, k) == members[k]
  }

  ghost function OptionalMember(key: string, o: Option<Tree>): map<string, Json> {
    if o.Some? then map[key := ToJson(o.value)] else map[]
  }

  /** Section 4 of the JSON-RPC 2.0 Specification on what is sent: the version, the method, the params,
      an id exactly when there is one, and nothing else. */
  lemma RequestSent(req: RpcRequest)
    ensures MembersAre(RequestJson(req),
      map["jsonrpc" := JStr("2.0"), "method" := JStr(req.name), "params" := JArr(AllToJson(req.params))]
      + OptionalMember("id", req.id))
  {
    hide Contains, Field, SetField, SetOptional, IsObject;
    NoFieldsEmpty();
  }

  /** Section 5.1: the code, the message, and the data if there are any. */
  lemma ErrorSent(e: RpcError)
    ensures MembersAre(ErrorJson(e),
      map["code" := JInt(e.code), "message" := JStr(e.message)] + OptionalMember("data", e.data))
  {
    hide Contains, Field, SetField, SetOptional, IsObject;
    NoFieldsEmpty();
  }

  /** Section 5: the version, one of result and error, where neither counts as a null result, and an
      id exactly when there is one. */
  lemma ResponseSent(res: RpcResponse)
    ensures MembersAre(ResponseJson(res),
      map["jsonrpc" := JStr("2.0")]
      + (if res.result.Some? then map["result" := ToJson(res.result.value)]
         else if res.error.Some? then map["error" := ErrorJson(res.error.value)]
         else map["result" := JNull])
      + OptionalMember("id", res.id))
  {
    hide Contains, Field, SetField, SetOptional, IsObject, ErrorJson, ToJson;
    NoFieldsEmpty();
  }

  // ---- Reading ---------------------------------------------------------------------------

  function ReadRequest(p: Parsed): Result<RpcRequest> {
    match p
    case NotJson(what) => Err("JSON parse error: " + what)
    case Refused(what) => Err("Error: " + what)
    case Doc(j) =>
      if !j.JObj? then Err("Top-level JSON is not an object")
      else if !Contains(j, "method") || !Field(j, "method").JStr? then Err("Missing or invalid 'method'")
      else if Field(j, "method").s == "" then Err("'method' cannot be empty")
      else if Contains(j, "params") && !Field(j, "params").JArr? then Err("'params' must be an array")
      else
        Ok(RpcRequest(Field(j, "method").s,
                      if Contains(j, "params") then AllToValue(Field(j, "params").items) else [],
                      ReadOptional(j, "id")))
  }

  function ReadOptional(j: Json, key: string): Option<Tree> {
    if Contains(j, key) then Some(ToValue(Field(j, key))) else None
  }

  /** The conversion of a number to a 32-bit `int`. */
  function Wrap32(i: int): Int32 {
    (i + 0x8000_0000) % 0x1_0000_0000 - 0x8000_0000
  }

  /** `get<int>()`; nothing when it throws. */
  function CodeOf(j: Json, lib: Library): Option<Int32> {
    match j
    case JInt(i) => Some(Wrap32(i))
    case JUint(u) => Some(Wrap32(u))
    case JFloat(bits) => Some(lib.truncate(bits))
    case JBool(b) => Some(if b then 1 else 0)
    case _ => None
  }

  function ReadError(e: Json, lib: Library): Result<RpcError> {
    if !Contains(e, "code") || !Contains(e, "message") then Err("Invalid 'error' object")
    else
      var code, message := CodeOf(Field(e, "code"), lib), Field(e, "message");
      if code.None? then Err("Error: " + lib.typeError(Field(e, "code")))
      else if !message.JStr? then Err("Error: " + lib.typeError(message))
      else Ok(RpcError(code.value, message.s, ReadOptional(e, "data")))
  }

  function ReadResponse(p: Parsed, lib: Library): Result<RpcResponse> {
    match p
    case NotJson(what) => Err("JSON parse error: " + what)
    case Refused(what) => Err("Error: " + what)
    case Doc(j) =>
      if !j.JObj? then Err("Top-level JSON is not an object")
      else if Contains(j, "result") && Contains(j, "error") then
        Err("Response cannot have both 'result' and 'error'")
      else if Contains(j, "error") then
        var e := ReadError(Field(j, "error"), lib);
        if e.Err? then Err(e.error) else Ok(RpcResponse(None, Some(e.value), ReadOptional(j, "id")))
      else
        Ok(RpcResponse(ReadOptional(j, "result"), None, ReadOptional(j, "id")))
  }

  // ---- What is read, document by document ------------------------------------------------

  /** Member `key` of object `j` is `v`. */
  ghost predicate Has(j: Json, key: string, v: Json) {
    j.JObj? && exists i :: 0 <= i < |j.keys| && i < |j.items| && j.keys[i] == key && j.items[i] == v
  }

  ghost predicate HasSome(j: Json, key: string) {
    j.JObj? && key in j.keys
  }

  lemma FieldIs(j: Json, key: string)
    requires j.WellFormed()
    ensures Contains(j, key) <==> HasSome(j, key)
    ensures forall v :: Has(j, key, v) <==> Contains(j, key) && v == Field(j, key)
  {
    if j.JObj? && key in j.keys {
      var i :| 0 <= i < |j.keys| && j.keys[i] == key;
      KeyPosition(j.keys, i);
      forall k | 0 <= k < |j.keys| && j.keys[k] == key
        ensures k == i
      {
        KeyPosition(j.keys, k);
      }
      assert Has(j, key, j.items[i]);
    }
  }

  /** An optional member: what it is read as, and nothing without it. */
  ghost predicate ReadAs(j: Json, key: string, o: Option<Tree>) {
    && (o.Some? <==> HasSome(j, key))
    && forall v :: Has(j, key, v) ==> o == Some(ToValue(v))
  }

  lemma OptionalIs(j: Json, key: string)
    requires j.WellFormed()
    ensures ReadAs(j, key, ReadOptional(j, key))
  {
    hide Has, HasSome, Contains, Field, ToValue;
    FieldIs(j, key);
  }

  /** A document is a request when it has a method, which is a string and not empty, and its params, if
      any, are an array. */
  ghost predicate IsRequest(j: Json) {
    && (exists m :: m != "" && Has(j, "method", JStr(m)))
    && forall v :: Has(j, "params", v) ==> v.JArr?
  }

  /** Exactly such documents are read as requests, with that method, one param for each item in order,
      and an id exactly when there is a member for it. */
  lemma RequestRead(j: Json)
    requires j.WellFormed()
    ensures var r := ReadRequest(Doc(j));
      && (r.Ok? <==> IsRequest(j))
      && (r.Ok? ==>
            && r.value.name != "" && Has(j, "method", JStr(r.value.name))
            && (!HasSome(j, "params") ==> r.value.params == [])
            && (forall items :: Has(j, "params", JArr(items)) ==>
                  && |r.value.params| == |items|
                  && forall i :: 0 <= i < |items| ==> r.value.params[i] == ToValue(items[i]))
            && ReadAs(j, "id", r.value.id))
  {
    hide Has, HasSome, Contains, Field, ReadOptional, ReadAs, ToValue;
    FieldIs(j, "method");
    FieldIs(j, "params");
    OptionalIs(j, "id");
    NoMembers(j, "method");
  }

  /** The text of each refusal, in the order in which they are looked for. */
  lemma RequestRefused(p: Parsed)
    requires p.Doc? ==> p.j.WellFormed()
    ensures var r := ReadRequest(p);
      match p
      case NotJson(what) => r == Err("JSON parse error: " + what)
      case Refused(what) => r == Err("Error: " + what)
      case Doc(j) =>
        if !j.JObj? then r == Err("Top-level JSON is not an object")
        else if forall m :: !Has(j, "method", JStr(m)) then r == Err("Missing or invalid 'method'")
        else if Has(j, "method", JStr("")) then r == Err("'method' cannot be empty")
        else if !IsRequest(j) then r == Err("'params' must be an array")
        else r.Ok?
  {
    hide Has, HasSome, Contains, Field, ReadOptional, ToValue;
    if p.Doc? {
      FieldIs(p.j, "method");
      FieldIs(p.j, "params");
      RequestRead(p.j);
    }
  }

  lemma NoMembers(j: Json, key: string)
    ensures !j.JObj? ==> !Contains(j, key) && !HasSome(j, key)
  {}

  predicate SameModulo32(a: int, b: int) {
    (a - b) % 0x1_0000_0000 == 0
  }

  /** A number has that code modulo 2^32; a Boolean counts as 0 or 1, and a float as the library
      truncates it. */
  ghost predicate GivesCode(j: Json, lib: Library, code: Int32) {
    match j
    case JInt(i) => SameModulo32(code, i)
    case JUint(u) => SameModulo32(code, u)
    case JFloat(bits) => code == lib.truncate(bits)
    case JBool(b) => code == if b then 1 else 0
    case _ => false
  }

  predicate CountsAsNumber(j: Json) {
    j.JInt? || j.JUint? || j.JFloat? || j.JBool?
  }

  lemma CodeIs(j: Json, lib: Library, code: Int32)
    ensures CodeOf(j, lib).Some? <==> CountsAsNumber(j)
    ensures GivesCode(j, lib, code) <==> CodeOf(j, lib) == Some(code)
  {
    if j.JInt? {
      Wrap32Only(j.i, code);
    } else if j.JUint? {
      Wrap32Only(j.u, code);
    }
  }

  lemma Wrap32Only(i: int, code: Int32)
    ensures SameModulo32(code, i) <==> code == Wrap32(i)
  {
    var q := (i + 0x8000_0000) / 0x1_0000_0000;
    assert i == Wrap32(i) + 0x1_0000_0000 * q;
    CongruentNear(code - Wrap32(i), q);
  }

  lemma CongruentNear(d: int, q: int)
    requires -0x1_0000_0000 < d < 0x1_0000_0000
    ensures (d - 0x1_0000_0000 * q) % 0x1_0000_0000 == 0 <==> d == 0
  {}

  /** A document holds an error when it has a code that counts as a number, and a message that is a
      string. */
  ghost predicate IsError(e: Json) {
    (exists v :: Has(e, "code", v) && CountsAsNumber(v)) && exists m :: Has(e, "message", JStr(m))
  }

  lemma ErrorRead(e: Json, lib: Library)
    requires e.WellFormed()
    ensures var r := ReadError(e, lib);
      && (r.Ok? <==> IsError(e))
      && (r.Ok? ==>
            && Has(e, "message", JStr(r.value.message)) && ReadAs(e, "data", r.value.data)
            && forall v :: Has(e, "code", v) ==> GivesCode(v, lib, r.value.code))
    ensures var r := ReadError(e, lib);
      if !HasSome(e, "code") || !HasSome(e, "message") then r == Err("Invalid 'error' object")
      else
        forall c, m :: Has(e, "code", c) && Has(e, "message", m) ==>
          && (!CountsAsNumber(c) ==> r == Err("Error: " + lib.typeError(c)))
          && (CountsAsNumber(c) && !m.JStr? ==> r == Err("Error: " + lib.typeError(m)))
  {
    hide Has, HasSome, Contains, Field, ReadOptional, ReadAs, ToValue, CodeOf, GivesCode, CountsAsNumber;
    FieldIs(e, "code");
    FieldIs(e, "message");
    OptionalIs(e, "data");
    if HasSome(e, "code") {
      var code := CodeOf(Field(e, "code"), lib);
      CodeIs(Field(e, "code"), lib, if code.Some? then code.value else 0);
    }
  }

  /** A document is a response when it does not have both a result and an error, and its error, if any,
      is one. */
  ghost predicate IsResponse(j: Json) {
    && j.JObj? && !(HasSome(j, "result") && HasSome(j, "error"))
    && forall e :: Has(j, "error", e) ==> IsError(e)
  }

  /** Exactly such documents are read as responses: with the error read from its member, or else the
      result, which may be missing; and the id. */
  lemma ResponseRead(j: Json, lib: Library)
    requires j.WellFormed()
    ensures var r := ReadResponse(Doc(j), lib);
      && (r.Ok? <==> IsResponse(j))
      && (r.Ok? ==>
            && ReadAs(j, "result", r.value.result) && ReadAs(j, "id", r.value.id)
            && (r.value.error.Some? <==> HasSome(j, "error"))
            && forall e :: Has(j, "error", e) ==> ReadError(e, lib) == Ok(r.value.error.value))
  {
    hide Has, HasSome, Contains, Field, ReadOptional, ReadAs, ToValue, ReadError, IsError;
    ResponseMembers(j, lib);
    OptionalIs(j, "result");
    OptionalIs(j, "id");
    ReadNone(j, "result");
  }

  lemma ReadNone(j: Json, key: string)
    ensures ReadAs(j, key, None) <==> !HasSome(j, key)
  {
    if !HasSome(j, key) && j.JObj? {
      assert forall v :: !Has(j, key, v);
    }
  }

  lemma ResponseMembers(j: Json, lib: Library)
    requires j.WellFormed()
    ensures Contains(j, "result") <==> HasSome(j, "result")
    ensures Contains(j, "error") <==> HasSome(j, "error")
    ensures forall e :: Has(j, "error", e) <==> Contains(j, "error") && e == Field(j, "error")
    ensures Contains(j, "error") ==> (ReadError(Field(j, "error"), lib).Ok? <==> IsError(Field(j, "error")))
  {
    hide Has, HasSome, Field, ReadError, IsError;
    FieldIs(j, "result");
    FieldIs(j, "error");
    if Contains(j, "error") {
      FieldWellFormed(j, "error");
      ErrorRead(Field(j, "error"), lib);
    }
  }

  /** The text of each refusal of a response. */
  lemma ResponseRefused(p: Parsed, lib: Library)
    requires p.Doc? ==> p.j.WellFormed()
    ensures var r := ReadResponse(p, lib);
      match p
      case NotJson(what) => r == Err("JSON parse error: " + what)
      case Refused(what) => r == Err("Error: " + what)
      case Doc(j) =>
        if !j.JObj? then r == Err("Top-level JSON is not an object")
        else if HasSome(j, "result") && HasSome(j, "error") then
          r == Err("Response cannot have both 'result' and 'error'")
        else forall e :: Has(j, "error", e) && !IsError(e) ==> r.Err? && ReadError(e, lib) == Err(r.error)
  {
    hide Has, HasSome, Contains, Field, ReadOptional, ToValue, ReadError, IsError;
    if p.Doc? {
      ResponseMembers(p.j, lib);
    }
  }

  // ---- Round trips -----------------------------------------------------------------------

  function NormalOptional(o: Option<Tree>): Option<Tree> {
    if o.Some? then Some(Normal(o.value)) else None
  }

  lemma OptionalRoundTrip(j: Json, key: string, value: Option<Tree>)
    requires IsObject(j) && !Contains(j, key)
    ensures ReadOptional(Reparse(SetOptional(j, key, value)), key) == NormalOptional(value)
  {
    ReparseField(SetOptional(j, key, value), key);
    if value.Some? {
      RoundTrip(value.value);
    }
  }

  /** A printed request parses exactly when its method is not empty; it comes back with the same
      method, with its parameters in order and normalised, and with an absent id kept apart from a
      null one. */
  lemma RequestRoundTrip(req: RpcRequest)
    ensures ReadRequest(Doc(Reparse(RequestJson(req)))) ==
      if req.name == "" then Err("'method' cannot be empty")
      else Ok(RpcRequest(req.name, NormalAll(req.params), NormalOptional(req.id)))
  {
    hide Contains, Field, Reparse, IsObject, SetOptional, SetField;
    var j1 := SetField(NoFields(), "jsonrpc", JStr("2.0"));
    var j2 := SetField(j1, "method", JStr(req.name));
    var j3 := SetField(j2, "params", JArr(AllToJson(req.params)));
    var j := SetOptional(j3, "id", req.id);
    NoFieldsEmpty();
    assert !Contains(j3, "id");
    OptionalRoundTrip(j3, "id", req.id);
    ReparseField(j, "method");
    ReparseField(j, "params");
    assert Field(j, "method") == JStr(req.name);
    assert Field(j, "params") == JArr(AllToJson(req.params));
    ReparsePlain(req.name, AllToJson(req.params));
    ParamsRoundTrip(req.params);
    ReparseObject(j);
  }

  lemma NoFieldsEmpty()
    ensures forall k :: !Contains(NoFields(), k)
  {}

  lemma ReparseObject(j: Json)
    requires IsObject(j)
    ensures Reparse(j).JObj?
  {}

  lemma ReparsePlain(s: string, items: seq<Json>)
    ensures Reparse(JStr(s)) == JStr(s)
    ensures Reparse(JArr(items)) == JArr(ReparseAll(items))
  {}

  lemma ParamsRoundTrip(ts: seq<Tree>)
    ensures AllToValue(ReparseAll(AllToJson(ts))) == NormalAll(ts)
  {
    forall i | 0 <= i < |ts|
      ensures ToValue(Reparse(ToJson(ts[i]))) == Normal(ts[i])
    {
      RoundTrip(ts[i]);
    }
  }

  function NormalError(e: RpcError): RpcError {
    e.(data := NormalOptional(e.data))
  }

  /** What a response is after being printed and parsed. */
  function Delivered(res: RpcResponse): (r: RpcResponse)
    ensures r.IsValid()
  {
    var id := NormalOptional(res.id);
    if res.result.Some? then RpcResponse(Some(Normal(res.result.value)), None, id)
    else if res.error.Some? then RpcResponse(None, Some(NormalError(res.error.value)), id)
    else RpcResponse(Some(Leaf(Null)), None, id)
  }

  lemma ErrorRoundTrip(e: RpcError, lib: Library)
    ensures ReadError(Reparse(ErrorJson(e)), lib) == Ok(NormalError(e))
  {
    hide Contains, Field, Reparse, IsObject, SetOptional, SetField;
    var j1 := SetField(NoFields(), "code", JInt(e.code));
    var j2 := SetField(j1, "message", JStr(e.message));
    var j := SetOptional(j2, "data", e.data);
    NoFieldsEmpty();
    assert !Contains(j2, "data");
    OptionalRoundTrip(j2, "data", e.data);
    ReparseField(j, "code");
    ReparseField(j, "message");
    assert Field(j, "code") == JInt(e.code) && Field(j, "message") == JStr(e.message);
    ReparsePlain(e.message, []);
    CodeRoundTrip(e.code, lib);
  }

  lemma CodeRoundTrip(code: Int32, lib: Library)
    ensures CodeOf(Reparse(JInt(code)), lib) == Some(code)
  {}

  /** Printing a response and parsing the text delivers one result or one error, with the same
      code and message, the data, result and id normalised: a result wins over an error, and
      neither counts as a null result. */
  lemma ResponseRoundTrip(res: RpcResponse, lib: Library)
    ensures ReadResponse(Doc(Reparse(ResponseJson(res))), lib) == Ok(Delivered(res))
  {
    hide Contains, Field, Reparse, IsObject, SetOptional, SetField, ReadError;
    var j1 := SetField(NoFields(), "jsonrpc", JStr("2.0"));
    var j2 := if res.result.Some? then SetField(j1, "result", ToJson(res.result.value))
              else if res.error.Some? then SetField(j1, "error", ErrorJson(res.error.value))
              else SetField(j1, "result", JNull);
    var j := SetOptional(j2, "id", res.id);
    NoFieldsEmpty();
    assert !Contains(j2, "id");
    OptionalRoundTrip(j2, "id", res.id);
    ReparseField(j, "result");
    ReparseField(j, "error");
    ReparseObject(j);
    RoundTrip(if res.result.Some? then res.result.value else Leaf(Null));
    if res.result.None? && res.error.Some? {
      ErrorRoundTrip(res.error.value, lib);
    }
  }

  /** Delivery is a projection: delivering what was delivered changes nothing, and a response is
      delivered as it is exactly when it has one of result and error and only carried values. */
  lemma DeliveredProjection(res: RpcResponse)
    ensures Delivered(Delivered(res)) == Delivered(res)
    ensures Delivered(res) == res <==> res.IsValid() && CarriedAll(res)
  {
    OptionalNormal(res.id);
    OptionalNormal(res.result);
    if res.error.Some? {
      OptionalNormal(res.error.value.data);
    }
  }

  predicate CarriedOptional(o: Option<Tree>) {
    o.Some? ==> AllCarried(o.value)
  }

  predicate CarriedAll(res: RpcResponse) {
    && CarriedOptional(res.result) && CarriedOptional(res.id)
    && (res.error.Some? ==> CarriedOptional(res.error.value.data))
  }

  lemma OptionalNormal(o: Option<Tree>)
    ensures NormalOptional(NormalOptional(o)) == NormalOptional(o)
    ensures NormalOptional(o) == o <==> CarriedOptional(o)
  {
    if o.Some? {
      NormalIdempotent(o.value);
      NormalIdentity(o.value);
    }
  }

  // ---- The functions as written ----------------------------------------------------------

  predicate WellFormedOptional(o: Option<Tree>) {
    o.Some? ==> o.value.WellFormed()
  }

  lemma FieldWellFormed(j: Json, key: string)
    requires j.WellFormed() && Contains(j, key)
    ensures Field(j, key).WellFormed()
  {
    LowerBoundFinds(j.keys, key);
    assert Field(j, key) in j.items;
  }

  /** `to_json` of a request, up to the dump. */
  method RequestToJson(req: RpcRequest) returns (j: Json)
    requires (forall p <- req.params :: p.WellFormed()) && WellFormedOptional(req.id)
    ensures j == RequestJson(req)
  {
    hide SetField;
    j := NoFields();
    j := SetField(j, "jsonrpc", JStr("2.0"));
    j := SetField(j, "method", JStr(req.name));
    var params: seq<Json> := [];
    for i := 0 to |req.params|
      invariant params == AllToJson(req.params)[..i]
    {
      var p := ValueToJson(req.params[i]);
      params := params + [p];
    }
    assert params == AllToJson(req.params);
    j := SetField(j, "params", JArr(params));
    if req.id.Some? {
      var id := ValueToJson(req.id.value);
      j := SetField(j, "id", id);
    }
  }

  /** `from_json_request`: a request, or nothing and the error text. */
  method FromJsonRequest(p: Parsed) returns (req: Option<RpcRequest>, outError: string)
    requires p.Doc? ==> p.j.WellFormed()
    ensures ReadRequest(p) == if req.Some? then Ok(req.value) else Err(outError)
  {
    hide Field, Contains;
    req, outError := None, "";
    match p {
      case NotJson(what) =>
        outError := "JSON parse error: " + what;
      case Refused(what) =>
        outError := "Error: " + what;
      case Doc(j) =>
        if !j.JObj? {
          outError := "Top-level JSON is not an object";
          return;
        }
        if !Contains(j, "method") || !Field(j, "method").JStr? {
          outError := "Missing or invalid 'method'";
          return;
        }
        var name := Field(j, "method").s;
        if name == "" {
          outError := "'method' cannot be empty";
          return;
        }
        var params: seq<Tree> := [];
        if Contains(j, "params") {
          if !Field(j, "params").JArr? {
            outError := "'params' must be an array";
            return;
          }
          FieldWellFormed(j, "params");
          var items := Field(j, "params").items;
          for i := 0 to |items|
            invariant params == AllToValue(items)[..i]
          {
            var v := JsonToValue(items[i]);
            params := params + [v];
          }
          assert params == AllToValue(items);
        }
        var id: Option<Tree> := None;
        if Contains(j, "id") {
          FieldWellFormed(j, "id");
          var v := JsonToValue(Field(j, "id"));
          id := Some(v);
        }
        req := Some(RpcRequest(name, params, id));
    }
  }

  /** `to_json` of a response, up to the dump. */
  method ResponseToJson(res: RpcResponse) returns (j: Json)
    requires WellFormedOptional(res.result) && WellFormedOptional(res.id)
    requires res.error.Some? ==> WellFormedOptional(res.error.value.data)
    ensures j == ResponseJson(res)
  {
    hide SetField;
    j := NoFields();
    j := SetField(j, "jsonrpc", JStr("2.0"));
    if res.result.Some? {
      var v := ValueToJson(res.result.value);
      j := SetField(j, "result", v);
    } else if res.error.Some? {
      var e := NoFields();
      e := SetField(e, "code", JInt(res.error.value.code));
      e := SetField(e, "message", JStr(res.error.value.message));
      if res.error.value.data.Some? {
        var v := ValueToJson(res.error.value.data.value);
        e := SetField(e, "data", v);
      }
      j := SetField(j, "error", e);
    } else {
      j := SetField(j, "result", JNull);
    }
    if res.id.Some? {
      var v := ValueToJson(res.id.value);
      j := SetField(j, "id", v);
    }
  }

  /** `from_json_response`: a response, or nothing and the error text. */
  method FromJsonResponse(p: Parsed, lib: Library) returns (res: Option<RpcResponse>, outError: string)
    requires p.Doc? ==> p.j.WellFormed()
    ensures ReadResponse(p, lib) == if res.Some? then Ok(res.value) else Err(outError)
  {
    hide Field, Contains;
    res, outError := None, "";
    match p {
      case NotJson(what) =>
        outError := "JSON parse error: " + what;
      case Refused(what) =>
        outError := "Error: " + what;
      case Doc(j) =>
        if !j.JObj? {
          outError := "Top-level JSON is not an object";
          return;
        }
        var hasResult, hasError := Contains(j, "result"), Contains(j, "error");
        if hasResult && hasError {
          outError := "Response cannot have both 'result' and 'error'";
          return;
        }
        var result: Option<Tree>, error: Option<RpcError>, id: Option<Tree> := None, None, None;
        if hasResult {
          FieldWellFormed(j, "result");
          var v := JsonToValue(Field(j, "result"));
          result := Some(v);
        } else if hasError {
          FieldWellFormed(j, "error");
          var e := Field(j, "error");
          if !Contains(e, "code") || !Contains(e, "message") {
            outError := "Invalid 'error' object";
            return;
          }
          var code := CodeOf(Field(e, "code"), lib);
          if code.None? {
            outError := "Error: " + lib.typeError(Field(e, "code"));
            return;
          }
          if !Field(e, "message").JStr? {
            outError := "Error: " + lib.typeError(Field(e, "message"));
            return;
          }
          var data: Option<Tree> := None;
          if Contains(e, "data") {
            FieldWellFormed(e, "data");
            var v := JsonToValue(Field(e, "data"));
            data := Some(v);
          }
          error := Some(RpcError(code.value, Field(e, "message").s, data));
        }
        if Contains(j, "id") {
          FieldWellFormed(j, "id");
          var v := JsonToValue(Field(j, "id"));
          id := Some(v);
        }
        res := Some(RpcResponse(result, error, id));
    }
  }
}
