/** FunctionsResourceHandler: the synthetic HTTP responder that serves a
    script's call to a host function. It checks the call against the function
    table, runs the function on the UI thread, and streams the encoded result
    back in chunks. Native CEF callbacks are recorded as effects; the payload
    decoder and the host function are parameters. */
module ResourceHandler {
  import opened Wrappers
  import opened Seqs
  import opened Decimal
  import opened FunctionRegistry

  newtype byte = b: int | 0 <= b < 256

  /** A decoded call payload (AbstractEval.decodeType's result). */
  datatype Value = Null | Bool(b: bool) | Number(n: int) | Str(s: string) | Arr(items: seq<Value>)

  /** decodeType either yields a value or throws an SWTException. */
  datatype Decoded = Decoded(value: Value) | DecodeError(message: string)

  /** A Java exception held in `ex`; only its message is observable. */
  datatype Failure = Failure(message: string)

  /** The identity of a CefCallback. */
  type CallbackId = nat

  /** What the handler asks of the native side, in order. `QueueCall` is the
      dispatch job handed to asyncExec: it remembers the request's callback,
      the function index and the arguments. */
  datatype Effect =
    | Continue(callback: CallbackId)
    | Cancel(callback: CallbackId)
    | QueueCall(callback: CallbackId, index: int, args: Option<seq<Value>>)

  /** The handler's fields: `id` is its identity in the handler stack. */
  datatype Handler = Handler(
    id: nat,
    resp: seq<byte>,
    ex: Option<Failure>,
    offset: nat,
    callback: Option<CallbackId>,
    eval: bool,
    inFunction: bool)

  /** A handler as constructed: empty response, nothing pending. */
  function NewHandler(id: nat): Handler {
    Handler(id, [], None, 0, None, false, false)
  }

  /** createFunctionResourceHandler: a fresh handler pushed on the stack. */
  function CreateFunctionResourceHandler(pool: seq<nat>, id: nat): (r: (seq<nat>, Handler))
    ensures r.0 == pool + [id] && r.1.id == id
    ensures r.1.resp == [] && r.1.offset == 0 && r.1.ex.None? && r.1.callback.None? && !r.1.eval && !r.1.inFunction
  {
    (pool + [id], NewHandler(id))
  }

  /** An inbound resource request: method, URL and the post data elements
      (None for a request without post data). */
  datatype Request = Request(httpMethod: string, url: string, postData: Option<seq<seq<byte>>>)

  /** The body handed to the decoder: the first post data element, or nothing. */
  function Body(elements: seq<seq<byte>>): seq<byte> {
    if |elements| == 0 then [] else elements[0]
  }

  /** The Java casts `(String) payload[0]` and `(Object[]) payload[2]`: null
      passes as None, a value of the wrong kind fails the cast. */
  datatype Cast<T> = CastOk(value: T) | CastFails

  function TokenCast(v: Value): Cast<Option<string>> {
    match v
    case Null => CastOk(None)
    case Str(s) => CastOk(Some(s))
    case _ => CastFails
  }

  function ArgsCast(v: Value): Cast<Option<seq<Value>>> {
    match v
    case Null => CastOk(None)
    case Arr(items) => CastOk(Some(items))
    case _ => CastFails
  }

  /** Result of processRequest: the handler afterwards, the returned flag and
      the callback actions taken. */
  datatype Processed = Processed(handler: Handler, handled: bool, effects: seq<Effect>)

  /** A call that presents the registered token: the request is recognised as
      a function call, carries post data, its body decodes to an array of at
      least three elements whose first is the token registered for the index
      and whose third is an argument array (or null). */
  ghost predicate Authentic(req: Request, isPopup: bool, reg: Registry, decode: seq<byte> -> Decoded) {
    && IsFunction(req.httpMethod, req.url, isPopup, reg)
    && req.postData.Some?
    && var d := decode(Body(req.postData.value));
       && d.Decoded? && d.value.Arr? && |d.value.items| >= 3
       && d.value.items[0] == Str(reg.functions[FunctionIndex(req.url).value].token)
       && ArgsCast(d.value.items[2]).CastOk?
  }

  /** The request is a poll: its payload has exactly four elements. */
  ghost predicate IsPoll(req: Request, decode: seq<byte> -> Decoded)
    requires req.postData.Some?
  {
    var d := decode(Body(req.postData.value));
    d.Decoded? && d.value.Arr? && |d.value.items| == 4
  }

  function Cancelled(h: Handler, cb: CallbackId): Processed {
    Processed(h, false, [Cancel(cb)])
  }

  /** processRequest. A disposed browser answers false and leaves the callback
      alone. A decode failure is recorded in `ex` and the callback is both
      continued and cancelled. A call with a registered index and matching
      token is accepted: a four-element poll continues at once when a
      response is buffered and is parked otherwise; any other shape queues
      the call. Everything else cancels the callback. */
  function ProcessRequest(h: Handler, disposed: bool, req: Request, isPopup: bool, reg: Registry,
                          decode: seq<byte> -> Decoded, cb: CallbackId): (r: Processed)
    ensures disposed ==> r == Processed(h, false, [])
    ensures !disposed ==> (r.handled <==> Authentic(req, isPopup, reg, decode))
    ensures !disposed && !IsFunction(req.httpMethod, req.url, isPopup, reg) ==> r == Cancelled(h, cb)
    ensures !disposed && IsFunction(req.httpMethod, req.url, isPopup, reg) && req.postData.Some?
              && decode(Body(req.postData.value)).DecodeError? ==>
      && r.effects == [Continue(cb), Cancel(cb)] && !r.handled
      && r.handler == h.(ex := Some(Failure(decode(Body(req.postData.value)).message)))
    ensures !disposed && !Authentic(req, isPopup, reg, decode)
              && !(req.postData.Some? && decode(Body(req.postData.value)).DecodeError?) ==>
      r == Cancelled(h, cb)
  {
    if disposed then Processed(h, false, [])
    else if !IsFunction(req.httpMethod, req.url, isPopup, reg) || req.postData.None? then Cancelled(h, cb)
    else
      var index := FunctionIndex(req.url).value;
      match decode(Body(req.postData.value))
      case DecodeError(message) => Processed(h.(ex := Some(Failure(message))), false, [Continue(cb), Cancel(cb)])
      case Decoded(payload) =>
        if !payload.Arr? || |payload.items| < 3 then Cancelled(h, cb)
        else
          match (TokenCast(payload.items[0]), ArgsCast(payload.items[2]))
          case (CastOk(token), CastOk(args)) =>
            if index in reg.functions && Some(reg.functions[index].token) == token then
              if |payload.items| == 4 then
                if |h.resp| > 0 then Processed(h, true, [Continue(cb)])
                else Processed(h.(callback := Some(cb)), true, [])
              else Processed(h, true, [QueueCall(cb, index, args)])
            else Cancelled(h, cb)
          case _ => Cancelled(h, cb)
  }

  /** An accepted call: a poll continues at once when a response is buffered
      and is parked otherwise; any other call is queued with its index and
      the arguments of the payload's third element. */
  lemma AcceptedCall(h: Handler, req: Request, isPopup: bool, reg: Registry,
                     decode: seq<byte> -> Decoded, cb: CallbackId)
    requires Authentic(req, isPopup, reg, decode)
    ensures var r := ProcessRequest(h, false, req, isPopup, reg, decode, cb);
      && r.handled
      && (IsPoll(req, decode) ==>
            if |h.resp| > 0 then r.handler == h && r.effects == [Continue(cb)]
            else r.handler == h.(callback := Some(cb)) && r.effects == [])
      && (!IsPoll(req, decode) ==>
            r == Processed(h, true, [QueueCall(cb, FunctionIndex(req.url).value,
                                               ArgsCast(decode(Body(req.postData.value)).value.items[2]).value)]))
  {
  }

  /** What the host function's run produced: the encoded return value, or the
      exception thrown by the function or by encodeType. */
  datatype HostOutcome = Returned(encoded: seq<byte>) | Threw(failure: Failure)

  /** The queued call starts: the handler takes the request's callback and
      marks a host function as running. */
  function BeginCall(h: Handler, cb: CallbackId): (r: Handler)
    ensures r.callback == Some(cb) && r.inFunction
    ensures r.resp == h.resp && r.ex == h.ex && r.offset == h.offset && r.eval == h.eval && r.id == h.id
  {
    h.(callback := Some(cb), inFunction := true)
  }

  /** The queued call ends: the result (or failure) is stored, the running
      mark is cleared, and a pending callback is continued and dropped. */
  function FinishCall(h: Handler, outcome: HostOutcome): (r: (Handler, seq<Effect>))
    ensures !r.0.inFunction && r.0.callback.None?
    ensures outcome.Returned? ==> r.0.resp == outcome.encoded && r.0.ex == h.ex
    ensures outcome.Threw? ==> r.0.ex == Some(outcome.failure) && r.0.resp == h.resp
    ensures r.1 == (if h.callback.Some? then [Continue(h.callback.value)] else [])
    ensures r.0.offset == h.offset && r.0.eval == h.eval && r.0.id == h.id
  {
    var stored := match outcome
      case Returned(bytes) => h.(resp := bytes)
      case Threw(failure) => h.(ex := Some(failure));
    var effects := if h.callback.Some? then [Continue(h.callback.value)] else [];
    (stored.(inFunction := false, callback := None), effects)
  }

  /** setEval: an in-page evaluation answers through the parked callback; with
      no callback parked nothing happens. */
  function SetEval(h: Handler, encoded: seq<byte>): (r: (Handler, seq<Effect>))
    ensures h.callback.None? ==> r == (h, [])
    ensures h.callback.Some? ==>
      && r.0 == h.(inFunction := false, resp := encoded, eval := true, callback := None)
      && r.1 == [Continue(h.callback.value)]
  {
    match h.callback
    case None => (h, [])
    case Some(cb) => (h.(inFunction := false, resp := encoded, eval := true, callback := None), [Continue(cb)])
  }

  /** The response head set by getResponseHeaders. `statusText` and
      `mimeType` are None when not set. */
  datatype ResponseHeaders = ResponseHeaders(
    allowOrigin: string,
    status: int,
    statusText: Option<string>,
    mimeType: Option<string>,
    length: int)

  /** getResponseHeaders: always a permissive CORS header; 400 with the
      failure's message and no body after a failure, otherwise 206 for an
      evaluation answer and 200 for a function result, announcing the whole
      buffer as the body length. */
  function GetResponseHeaders(h: Handler): (r: ResponseHeaders)
    ensures r.allowOrigin == "*"
    ensures h.ex.Some? <==> r.status == 400
    ensures h.ex.Some? ==> r.length == 0 && r.statusText == Some(h.ex.value.message)
    ensures h.ex.None? ==> r.length == |h.resp| && r.mimeType == Some("text") && r.statusText.None?
    ensures h.ex.None? ==> (r.status == 206 <==> h.eval) && (r.status == 200 <==> !h.eval)
  {
    match h.ex
    case Some(failure) => ResponseHeaders("*", 400, Some(failure.message), None, 0)
    case None =>
      if h.eval then ResponseHeaders("*", 206, None, Some("text"), |h.resp|)
      else ResponseHeaders("*", 200, None, Some("text"), |h.resp|)
  }

  function Min(a: int, b: int): int {
    if a <= b then a else b
  }

  /** Result of readResponse: the handler and handler stack afterwards, the
      "more data" answer, the output buffer and the bytesRead value, if set. */
  datatype ReadOutcome = ReadOutcome(handler: Handler, pool: seq<nat>, more: bool, dataOut: seq<byte>, bytesRead: Option<nat>)

  /** The handler once its body has been fully delivered. */
  function Reset(h: Handler): Handler {
    h.(resp := [], eval := false, offset := 0, ex := None)
  }

  /** readResponse. After a failure it answers false and changes nothing.
      While bytes remain it copies as many as fit into the front of `dataOut`,
      advances the offset and answers true. At the end it clears the buffer,
      the offset, the evaluation mark and the failure, leaves the handler stack
      unless it was an evaluation answer, and answers false. The caller's
      buffer holds at least `bytesToRead` bytes. */
  function ReadResponse(h: Handler, pool: seq<nat>, dataOut: seq<byte>, bytesToRead: nat): (r: ReadOutcome)
    requires bytesToRead <= |dataOut|
    ensures h.ex.Some? ==> r == ReadOutcome(h, pool, false, dataOut, None)
    ensures h.ex.None? && h.offset < |h.resp| ==>
      var n := Min(|h.resp| - h.offset, bytesToRead);
      && r.more && r.bytesRead == Some(n) && |r.dataOut| == |dataOut|
      && r.dataOut[..n] == h.resp[h.offset..h.offset + n]
      && r.dataOut[n..] == dataOut[n..]
      && r.handler == h.(offset := h.offset + n) && r.handler.offset <= |h.resp|
      && r.pool == pool
    ensures h.ex.None? && h.offset >= |h.resp| ==>
      && !r.more && r.bytesRead.None? && r.dataOut == dataOut
      && r.handler == Reset(h)
      && r.pool == (if h.eval then pool else RemoveFirst(pool, h.id))
  {
    if h.ex.Some? then ReadOutcome(h, pool, false, dataOut, None)
    else if h.offset < |h.resp| then
      var n := Min(|h.resp| - h.offset, bytesToRead);
      ReadOutcome(h.(offset := h.offset + n), pool, true,
                  h.resp[h.offset..h.offset + n] + dataOut[n..], Some(n))
    else
      ReadOutcome(Reset(h), if h.eval then pool else RemoveFirst(pool, h.id), false, dataOut, None)
  }

  /** Bytes still to deliver. */
  function Remaining(h: Handler): nat {
    if h.offset < |h.resp| then |h.resp| - h.offset else 0
  }

  /** CEF reading the body to its end with a buffer of `chunk` bytes: the bytes
      delivered, in order, and the last readResponse outcome. */
  function Drain(h: Handler, pool: seq<nat>, dataOut: seq<byte>, chunk: nat): (seq<byte>, ReadOutcome)
    requires 0 < chunk <= |dataOut|
    decreases Remaining(h)
  {
    var r := ReadResponse(h, pool, dataOut, chunk);
    if !r.more || r.bytesRead.None? || r.bytesRead.value == 0 then ([], r)
    else
      var n := r.bytesRead.value;
      var rest := Drain(r.handler, r.pool, r.dataOut, chunk);
      (r.dataOut[..n] + rest.0, rest.1)
  }

  /** Reading a successful response to the end, in chunks of any positive
      size, delivers exactly the buffered bytes after the offset, then resets
      the handler and takes it off the stack unless it answered an
      evaluation. */
  lemma {:induction false} DrainDeliversResponse(h: Handler, pool: seq<nat>, dataOut: seq<byte>, chunk: nat)
    requires 0 < chunk <= |dataOut|
    requires h.ex.None? && h.offset <= |h.resp|
    ensures var (bytes, last) := Drain(h, pool, dataOut, chunk);
      && bytes == h.resp[h.offset..]
      && !last.more
      && last.handler == Reset(h)
      && last.pool == (if h.eval then pool else RemoveFirst(pool, h.id))
    decreases Remaining(h)
  {
    if h.offset < |h.resp| {
      var r := ReadResponse(h, pool, dataOut, chunk);
      var n := Min(|h.resp| - h.offset, chunk);
      DrainStep(h, pool, dataOut, chunk);
      DrainDeliversResponse(r.handler, r.pool, r.dataOut, chunk);
      assert Reset(r.handler) == Reset(h);
      SliceSplit(h.resp, h.offset, h.offset + n);
    } else {
      DrainAtEnd(h, pool, dataOut, chunk);
    }
  }

  /** With nothing left to deliver, the first read ends the drain. */
  lemma DrainAtEnd(h: Handler, pool: seq<nat>, dataOut: seq<byte>, chunk: nat)
    requires 0 < chunk <= |dataOut|
    requires h.ex.None? && h.offset == |h.resp|
    ensures var (bytes, last) := Drain(h, pool, dataOut, chunk);
      && bytes == [] && !last.more && last.handler == Reset(h)
      && last.pool == (if h.eval then pool else RemoveFirst(pool, h.id))
  {
    var r := ReadResponse(h, pool, dataOut, chunk);
    assert Drain(h, pool, dataOut, chunk) == ([], r);
  }

  /** One chunk of a drain that still has bytes to deliver. */
  lemma DrainStep(h: Handler, pool: seq<nat>, dataOut: seq<byte>, chunk: nat)
    requires 0 < chunk <= |dataOut|
    requires h.ex.None? && h.offset < |h.resp|
    ensures var r := ReadResponse(h, pool, dataOut, chunk);
      var n := Min(|h.resp| - h.offset, chunk);
      var rest := Drain(r.handler, r.pool, r.dataOut, chunk);
      && r.handler == h.(offset := h.offset + n) && r.pool == pool
      && Drain(h, pool, dataOut, chunk) == (h.resp[h.offset..h.offset + n] + rest.0, rest.1)
  {
    var r := ReadResponse(h, pool, dataOut, chunk);
    assert r.bytesRead.value > 0 && r.more;
  }

  lemma SliceSplit(s: seq<byte>, a: nat, b: nat)
    requires a <= b <= |s|
    ensures s[a..] == s[a..b] + s[b..]
  {
  }

  /** The body length announced in the headers is the number of bytes the
      reads deliver. */
  lemma HeadersAnnounceDeliveredLength(h: Handler, pool: seq<nat>, dataOut: seq<byte>, chunk: nat)
    requires 0 < chunk <= |dataOut|
    requires h.ex.None? && h.offset == 0
    ensures GetResponseHeaders(h).length == |Drain(h, pool, dataOut, chunk).0|
  {
    DrainDeliversResponse(h, pool, dataOut, chunk);
  }

  /** A failed call never streams: reads answer false and keep the handler
      as it is, however often CEF asks. */
  lemma FailureBlocksReading(h: Handler, pool: seq<nat>, dataOut: seq<byte>, chunk: nat)
    requires 0 < chunk <= |dataOut|
    requires h.ex.Some?
    ensures Drain(h, pool, dataOut, chunk).0 == []
    ensures Drain(h, pool, dataOut, chunk).1.handler == h
    ensures GetResponseHeaders(h).status == 400
  {
  }

  /** Replaying a call to an index whose function was replaced by a new
      registration of the same name is cancelled. */
  lemma ReplayAfterReplacementCancelled(h: Handler, reg: Registry, fn: BrowserFunction, browserId: int,
                                        req: Request, decode: seq<byte> -> Decoded, cb: CallbackId)
    requires Valid(reg)
    requires !(fn.frameNames.None? && !fn.top)
    requires FunctionIndex(req.url).Some?
    requires var i := FunctionIndex(req.url).value; i in reg.functions && reg.functions[i].name == fn.name
    ensures var r := CreateFunction(reg, fn, browserId).registry;
      ProcessRequest(h, false, req, false, r, decode, cb) == Cancelled(h, cb)
  {
    var i := FunctionIndex(req.url).value;
    ReplacedIndexRetired(reg, fn, browserId, i);
  }

  /** A poll that arrives while the call runs is parked and is continued,
      once, when the call finishes; the result is then available. */
  lemma PollParkedUntilCallFinishes(h: Handler, req: Request, reg: Registry, decode: seq<byte> -> Decoded,
                                    dispatchCb: CallbackId, pollCb: CallbackId, encoded: seq<byte>)
    requires h.resp == []
    requires Authentic(req, false, reg, decode) && IsPoll(req, decode)
    ensures var running := BeginCall(h, dispatchCb);
      var polled := ProcessRequest(running, false, req, false, reg, decode, pollCb);
      var finished := FinishCall(polled.handler, Returned(encoded));
      && polled.handled && polled.effects == []
      && finished.1 == [Continue(pollCb)]
      && finished.0.resp == encoded
  {
    AcceptedCall(h, req, false, reg, decode, dispatchCb);
    AcceptedCall(BeginCall(h, dispatchCb), req, false, reg, decode, pollCb);
  }

  /** A function table holding `add` at index 0 under the token "T1". */
  const ADD_REGISTRY: Registry := Registry(map[0 := BrowserFunction("add", "T1", true, None)], 1)

  /** The call of `add(2, 3)` posted to <prefix>functions/?0, for a
      hierarchical prefix such as "https://": with index 0
      registered under token "T1", a dispatch of ["T1", true, [2, 3]] queues
      the call; once the function's
      encoded result is stored the request is continued, the headers
      announce 200 and its length, and the reads deliver exactly the result. */
  lemma AddScenario(prefix: string, req: Request, decode: seq<byte> -> Decoded, cb: CallbackId, five: seq<byte>, pool: seq<nat>)
    requires '?' !in prefix && '#' !in prefix && Hierarchical(prefix)
    requires req.httpMethod == "POST" && req.url == prefix + FUNCTION_HOST + "/?" + IntToString(0)
    requires req.postData.Some?
    requires decode(Body(req.postData.value)) == Decoded(Arr([Str("T1"), Bool(true), Arr([Number(2), Number(3)])]))
    ensures var h := NewHandler(7);
      var p := ProcessRequest(h, false, req, false, ADD_REGISTRY, decode, cb);
      var done := FinishCall(BeginCall(p.handler, cb), Returned(five));
      && p.handled && p.effects == [QueueCall(cb, 0, Some([Number(2), Number(3)]))]
      && done.1 == [Continue(cb)]
      && GetResponseHeaders(done.0).status == 200
      && GetResponseHeaders(done.0).length == |five|
      && Drain(done.0, pool, [0], 1).0 == five
  {
    var h := NewHandler(7);
    FunctionUrlRecognised(prefix, 0, ADD_REGISTRY);
    AddDispatch(req, decode, cb, h);
    var done := FinishCall(BeginCall(h, cb), Returned(five));
    assert done.0.ex.None? && done.0.offset == 0 && !done.0.eval && done.0.resp == five;
    DrainDeliversResponse(done.0, pool, [0], 1);
  }

  /** The dispatch of the `add(2, 3)` call is accepted and queued. */
  lemma AddDispatch(req: Request, decode: seq<byte> -> Decoded, cb: CallbackId, h: Handler)
    requires IsFunction(req.httpMethod, req.url, false, ADD_REGISTRY) && FunctionIndex(req.url) == Some(0)
    requires req.postData.Some?
    requires decode(Body(req.postData.value)) == Decoded(Arr([Str("T1"), Bool(true), Arr([Number(2), Number(3)])]))
    ensures ProcessRequest(h, false, req, false, ADD_REGISTRY, decode, cb)
            == Processed(h, true, [QueueCall(cb, 0, Some([Number(2), Number(3)]))])
  {
    assert Authentic(req, false, ADD_REGISTRY, decode);
    assert !IsPoll(req, decode);
    AcceptedCall(h, req, false, ADD_REGISTRY, decode, cb);
  }

  /** An evaluation answer handed to a parked poll is announced as a 206
      response of its own length, read back byte for byte, and the handler
      stays on the stack afterwards. */
  lemma EvalAnswerDelivered(h: Handler, encoded: seq<byte>, pool: seq<nat>, dataOut: seq<byte>, chunk: nat)
    requires 0 < chunk <= |dataOut|
    requires h.callback.Some? && h.ex.None? && h.offset == 0
    ensures var answered := SetEval(h, encoded).0;
      && GetResponseHeaders(answered).status == 206
      && GetResponseHeaders(answered).length == |encoded|
      && Drain(answered, pool, dataOut, chunk).0 == encoded
      && Drain(answered, pool, dataOut, chunk).1.pool == pool
  {
    DrainDeliversResponse(SetEval(h, encoded).0, pool, dataOut, chunk);
  }
}
