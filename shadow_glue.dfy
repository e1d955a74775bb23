/**
 * The device-shadow client of qcloud_shadow_glue.c: the table of pending document requests
 * (recorded when a request is published, completed by the reply carrying the same client
 * token, expired by the timeout sweep), the cached document version, and the registry of
 * device properties that incoming deltas update.
 *
 * The whole client state is the value `Shadow`; each operation is specified by a function
 * `After...` from the old state to the new one, and the class `ShadowClient` carries the same
 * state in fields and implements each operation with the source's loops.
 */
module ShadowGlue {
  import opened Qcloud
  import opened CString
  import opened ShadowDocText

  /** QCLOUD_SHADOW_REQUEST_PENDING_MAX, QCLOUD_SHADOW_CLIENT_TOKEN_MAX, QCLOUD_SHADOW_JSON_BUF_MAX. */
  const PendingMax: nat := 10
  const TokenMax: nat := 32
  const JsonBufMax: nat := 1024

  /** Callbacks and their context pointers are identified by numbers. */
  type HandlerId = nat
  type Context = nat

  /** The outcome passed to a request's handler (qcloud_shadow_req_state_t). */
  datatype ReqState = Accepted | Rejected | Timeout

  /** What the caller supplies with a request (qcloud_shadow_req_opt_t); a handler may be absent. */
  datatype RequestOpt = RequestOpt(kind: Method, timeout: int, handler: Option<HandlerId>, context: Context)

  /** A pending request (qcloud_shadow_request_t); its timer is the absolute deadline. */
  datatype Request = Request(token: seq<char>, kind: Method, handler: Option<HandlerId>, context: Context, deadline: int)

  /** A registered device property (qcloud_shadow_prop_info_t with its dev_property). */
  datatype Property = Property(key: seq<char>, value: seq<char>, handler: HandlerId)

  /** What leaves the modelled code: callback invocations and publish attempts, in order. */
  datatype Event =
    | RequestCallback(handler: HandlerId, request: Request, state: ReqState, payload: seq<char>)
    | PropertyCallback(handler: HandlerId, delta: seq<char>, deltaLen: nat, property: Property)
    | Publish(payload: seq<char>, rc: Err)

  /**
   * The shadow_json_* parsers, which are outside this model, as total functions of the text
   * they parse. valueUpdate(delta, key) is the new value a delta carries for a property.
   */
  datatype Json = Json(
    operationType: seq<char> -> Option<seq<char>>,
    clientToken: seq<char> -> Option<seq<char>>,
    version: seq<char> -> Option<nat>,
    delta: seq<char> -> Option<seq<char>>,
    operationDelta: seq<char> -> Option<seq<char>>,
    resultCode: seq<char> -> Option<int>,
    valueUpdate: (seq<char>, seq<char>) -> Option<seq<char>>)

  /**
   * The client state: the request list (head first), request_list_counter, the cached
   * version, the property list, the inbound scratch buffer and the events so far.
   */
  datatype Shadow = Shadow(
    requests: seq<Request>,
    counter: int,
    version: nat,
    properties: seq<Property>,
    incoming: seq<char>,
    trace: seq<Event>)

  /**
   * The table is bounded: the counter never exceeds QCLOUD_SHADOW_REQUEST_PENDING_MAX, and never
   * falls below the number of pending entries. It can exceed that number: one path removes an
   * entry without decrementing, and destroying the list leaves the counter alone.
   */
  predicate Inv(s: Shadow) {
    |s.requests| <= s.counter <= PendingMax
  }

  /** osal_timer_is_expired on the request's countdown timer. */
  predicate Expired(r: Request, now: int) {
    r.deadline <= now
  }

  /** The token as strncpy leaves it in the entry's fixed-size token field. */
  function Truncate(t: seq<char>, n: nat): (r: seq<char>)
    ensures |r| <= n && |r| <= |t| && r == t[..|r|]
    ensures |t| <= n ==> r == t
  {
    if |t| <= n then t else t[..n]
  }

  function NewRequest(token: seq<char>, opt: RequestOpt, now: int): Request {
    Request(Truncate(token, TokenMax), opt.kind, opt.handler, opt.context, now + opt.timeout)
  }

  // ---------------------------------------------------------------------------
  // shadow_glue_request_record and shadow_glue_request_post
  // ---------------------------------------------------------------------------

  /** request_record: refuse when the counter is at the bound, fail when allocation fails, else add at the head. */
  function AfterRecord(s: Shadow, token: seq<char>, opt: RequestOpt, now: int, allocOk: bool): (Err, Shadow) {
    if s.counter >= PendingMax then (MaxAppendingRequest, s)
    else if !allocOk then (Failure, s)
    else (Success, s.(requests := [NewRequest(token, opt, now)] + s.requests, counter := s.counter + 1))
  }

  datatype PostOutcome = PostOutcome(rc: Err, shadow: Shadow, doc: seq<char>)

  /**
   * request_post on document text doc in a buffer of size bytes: parse the token, insert the
   * type node, publish, and record only when the publish succeeded.
   */
  function AfterPost(s: Shadow, opt: RequestOpt, doc: seq<char>, size: nat, publishRc: Err, allocOk: bool,
                     now: int, json: Json): PostOutcome
    requires |doc| < size
  {
    match json.clientToken(doc)
    case None => PostOutcome(Inval, s, doc)
    case Some(token) =>
      match MethodSetText(doc, size, opt.kind)
      case Fail(e) => PostOutcome(e, s, doc)
      case Ok(sent) =>
        var s1 := s.(trace := s.trace + [Publish(sent, publishRc)]);
        if publishRc != Success then PostOutcome(publishRc, s1, sent)
        else
          var r := AfterRecord(s1, token, opt, now, allocOk);
          PostOutcome(r.0, r.1, sent)
  }

  // ---------------------------------------------------------------------------
  // shadow_glue_delta_handle
  // ---------------------------------------------------------------------------

  function UpdateProperty(p: Property, delta: seq<char>, json: Json): Property {
    match json.valueUpdate(delta, p.key)
    case Some(v) => p.(value := v)
    case None => p
  }

  function UpdateProperties(props: seq<Property>, delta: seq<char>, json: Json): (r: seq<Property>)
    ensures |r| == |props|
  {
    seq(|props|, k requires 0 <= k < |props| => UpdateProperty(props[k], delta, json))
  }

  /** The property list after the delta pass has reached index j: updated before j, as it was from j on. */
  function Partly(props: seq<Property>, j: nat, delta: seq<char>, json: Json): (r: seq<Property>)
    requires j <= |props|
    ensures |r| == |props|
  {
    seq(|props|, k requires 0 <= k < |props| => if k < j then UpdateProperty(props[k], delta, json) else props[k])
  }

  lemma PartlyNone(props: seq<Property>, delta: seq<char>, json: Json)
    ensures Partly(props, 0, delta, json) == props
  {
  }

  lemma PartlyAll(props: seq<Property>, delta: seq<char>, json: Json)
    ensures Partly(props, |props|, delta, json) == UpdateProperties(props, delta, json)
  {
  }

  /** One more property of the pass: entry j, as it was, is replaced by its update, which is
   *  itself when the delta carries no value for it. */
  lemma PartlyStep(props: seq<Property>, j: nat, delta: seq<char>, json: Json)
    requires j < |props|
    ensures Partly(props, j, delta, json)[j] == props[j]
    ensures Partly(props, j + 1, delta, json) == Partly(props, j, delta, json)[j := UpdateProperty(props[j], delta, json)]
    ensures json.valueUpdate(delta, props[j].key).None? ==> Partly(props, j + 1, delta, json) == Partly(props, j, delta, json)
  {
  }

  /** The handler calls of one delta pass, one per property the delta updates, in list order. */
  function DeltaEvents(props: seq<Property>, delta: seq<char>, json: Json): seq<Event>
    decreases |props|
  {
    if props == [] then []
    else
      var p := props[|props| - 1];
      DeltaEvents(props[..|props| - 1], delta, json) +
      match json.valueUpdate(delta, p.key)
      case Some(v) => [PropertyCallback(p.handler, delta, |delta|, p.(value := v))]
      case None => []
  }

  function AfterDelta(s: Shadow, delta: seq<char>, json: Json): Shadow {
    s.(properties := UpdateProperties(s.properties, delta, json),
       trace := s.trace + DeltaEvents(s.properties, delta, json))
  }

  // ---------------------------------------------------------------------------
  // shadow_glue_operation_request_do_handle
  // ---------------------------------------------------------------------------

  /** A reply carries the cloud's document along: for an accepted get or a rejected update. */
  predicate DeltaWanted(methodType: seq<char>, st: ReqState) {
    (methodType == OperationGet && st == Accepted) || (methodType == OperationUpdate && st == Rejected)
  }

  function HandlerEvents(r: Request, st: ReqState, payload: seq<char>): seq<Event> {
    match r.handler
    case Some(h) => [RequestCallback(h, r, st, payload)]
    case None => []
  }

  /**
   * One step of do_handle's scan, on state t whose requests are the entries kept so far:
   * another token is kept; an unparsable result code drops the entry and nothing else; a
   * parsed one may apply the corrective delta, calls the handler, drops the entry and
   * decrements the counter.
   */
  function HandleOne(t: Shadow, r: Request, token: seq<char>, methodType: seq<char>, json: Json): Shadow {
    if r.token != token then t.(requests := t.requests + [r])
    else
      match json.resultCode(t.incoming)
      case None => t
      case Some(c) => Complete(t, r, if c == 0 then Accepted else Rejected, methodType, json)
  }

  /** A matched entry with outcome st: the corrective delta if wanted, the handler call, the decrement. */
  function Complete(t: Shadow, r: Request, st: ReqState, methodType: seq<char>, json: Json): Shadow {
    var t1 :=
      if DeltaWanted(methodType, st) && json.operationDelta(t.incoming).Some?
      then AfterDelta(t, json.operationDelta(t.incoming).value, json)
      else t;
    t1.(trace := t1.trace + HandlerEvents(r, st, t1.incoming), counter := t1.counter - 1)
  }

  /** Completing an entry leaves the list of pending entries alone. */
  lemma CompleteKeepsRequests(t: Shadow, rs: seq<Request>, r: Request, st: ReqState, methodType: seq<char>, json: Json)
    ensures Complete(t.(requests := rs), r, st, methodType, json) == Complete(t, r, st, methodType, json).(requests := rs)
  {
  }

  /** do_handle's scan over reqs, from state s0; the result's requests are the entries kept. */
  function DoHandleScan(s0: Shadow, reqs: seq<Request>, token: seq<char>, methodType: seq<char>, json: Json): Shadow
    decreases |reqs|
  {
    if reqs == [] then s0.(requests := [])
    else HandleOne(DoHandleScan(s0, reqs[..|reqs| - 1], token, methodType, json), reqs[|reqs| - 1], token, methodType, json)
  }

  lemma DoHandleScanSnoc(s0: Shadow, all: seq<Request>, j: nat, token: seq<char>, methodType: seq<char>, json: Json)
    requires j < |all|
    ensures DoHandleScan(s0, all[..j + 1], token, methodType, json)
         == HandleOne(DoHandleScan(s0, all[..j], token, methodType, json), all[j], token, methodType, json)
  {
    assert all[..j + 1][..j] == all[..j];
  }

  function AfterDoHandle(s: Shadow, token: seq<char>, methodType: seq<char>, json: Json): Shadow {
    if s.requests == [] then s else DoHandleScan(s, s.requests, token, methodType, json)
  }

  // ---------------------------------------------------------------------------
  // shadow_glue_request_list_scan
  // ---------------------------------------------------------------------------

  /** One step of the sweep: an expired entry gets its Timeout call and is dropped. */
  function SweepOne(t: Shadow, r: Request, now: int): Shadow {
    if !Expired(r, now) then t.(requests := t.requests + [r])
    else t.(trace := t.trace + HandlerEvents(r, Timeout, t.incoming), counter := t.counter - 1)
  }

  function SweepScan(s0: Shadow, reqs: seq<Request>, now: int): Shadow
    decreases |reqs|
  {
    if reqs == [] then s0.(requests := [])
    else SweepOne(SweepScan(s0, reqs[..|reqs| - 1], now), reqs[|reqs| - 1], now)
  }

  lemma SweepScanSnoc(s0: Shadow, all: seq<Request>, j: nat, now: int)
    requires j < |all|
    ensures SweepScan(s0, all[..j + 1], now) == SweepOne(SweepScan(s0, all[..j], now), all[j], now)
  {
    assert all[..j + 1][..j] == all[..j];
  }

  /** Removing the entry at the scan position from kept + rest leaves kept + the tail of rest. */
  lemma RemoveAt(kept: seq<Request>, rest: seq<Request>)
    requires rest != []
    ensures (kept + rest)[|kept|] == rest[0]
    ensures (kept + rest)[..|kept|] + (kept + rest)[|kept| + 1..] == kept + rest[1..]
    ensures kept + rest == (kept + [rest[0]]) + rest[1..]
  {
    assert (kept + rest)[..|kept|] == kept;
    assert (kept + rest)[|kept| + 1..] == rest[1..];
  }

  function AfterSweep(s: Shadow, now: int): Shadow {
    if s.requests == [] then s else SweepScan(s, s.requests, now)
  }

  // ---------------------------------------------------------------------------
  // shadow_glue_operation_result_handler
  // ---------------------------------------------------------------------------

  /** The cached version is replaced only by a strictly larger parsed one. */
  function NewVersion(cur: nat, parsed: Option<nat>): nat {
    if parsed.Some? && parsed.value > cur then parsed.value else cur
  }

  function Min(a: int, b: int): int {
    if a < b then a else b
  }

  /**
   * result_handler for a message on the result topic: drop it when the topic is missing or
   * the payload exceeds the buffer; otherwise copy it into the scratch buffer, parse its type
   * (and, unless it is a delta, its token), adopt a larger version, and route a delta to the
   * properties or a reply to do_handle.
   */
  function AfterMessage(s: Shadow, topic: seq<char>, payload: seq<char>, json: Json): Shadow {
    if |topic| == 0 || |payload| > JsonBufMax then s
    else
      var msg := payload[..Min(JsonBufMax - 1, |payload|)];
      var s1 := s.(incoming := msg);
      match json.operationType(msg)
      case None => s1
      case Some(ty) =>
        if ty != OperationDelta && json.clientToken(msg).None? then s1
        else
          var s2 := s1.(version := NewVersion(s1.version, json.version(msg)));
          if ty == OperationDelta then
            match json.delta(msg)
            case Some(d) => AfterDelta(s2, d, json)
            case None => s2
          else AfterDoHandle(s2, json.clientToken(msg).value, ty, json)
  }

  // ---------------------------------------------------------------------------
  // The client object
  // ---------------------------------------------------------------------------

  class ShadowClient {
    var requests: seq<Request>
    var counter: int
    var version: nat
    var properties: seq<Property>
    var incoming: seq<char>
    var trace: seq<Event>
    const json: Json

    function State(): Shadow
      reads this
    {
      Shadow(requests, counter, version, properties, incoming, trace)
    }

    predicate Valid()
      reads this
    {
      Inv(State())
    }

    /** A client with no pending request, version 0 and the given registered properties. */
    constructor (json: Json, properties: seq<Property>)
      ensures Valid() && this.json == json
      ensures State() == Shadow([], 0, 0, properties, [], [])
    {
      this.json := json;
      requests, counter, version := [], 0, 0;
      this.properties, incoming, trace := properties, [], [];
    }

    /** shadow_glue_request_record */
    method Record(token: seq<char>, opt: RequestOpt, now: int, allocOk: bool) returns (rc: Err)
      requires Valid()
      modifies this
      ensures Valid()
      ensures (rc, State()) == AfterRecord(old(State()), token, opt, now, allocOk)
    {
      if counter >= PendingMax {
        return MaxAppendingRequest;
      }
      if !allocOk {
        return Failure;
      }
      var request := Request(Truncate(token, TokenMax), opt.kind, opt.handler, opt.context, now + opt.timeout);
      requests := [request] + requests;
      counter := counter + 1;
      return Success;
    }

    /** shadow_glue_request_post on a document buffer of size bytes; publishRc is what the MQTT publish returns. */
    method Post(opt: RequestOpt, doc: array<char>, size: nat, publishRc: Err, allocOk: bool, now: int) returns (rc: Err)
      requires Valid() && NUL in doc[..] && CLen(doc[..]) < size <= doc.Length
      modifies this, doc
      ensures Valid() && NUL in doc[..]
      ensures var p := AfterPost(old(State()), opt, old(CText(doc[..])), size, publishRc, allocOk, now, json);
              rc == p.rc && State() == p.shadow && CText(doc[..]) == p.doc
    {
      var len := StrLen(doc);
      var token := json.clientToken(doc[..len]);
      if token.None? {
        return Inval;
      }
      rc := MethodSet(doc, size, opt.kind);
      if rc != Success {
        return;
      }
      var sentLen := StrLen(doc);
      trace := trace + [Publish(doc[..sentLen], publishRc)];
      rc := publishRc;
      if rc == Success {
        rc := Record(token.value, opt, now, allocOk);
      }
    }

    /** shadow_glue_delta_handle */
    method DeltaHandle(delta: seq<char>)
      modifies this
      ensures State() == AfterDelta(old(State()), delta, json)
    {
      if properties == [] {
        return;
      }
      ghost var s0 := State();
      ghost var props := properties;
      PartlyNone(props, delta, json);
      var j := 0;
      while j < |properties|
        invariant 0 <= j <= |props|
        invariant State() == s0.(properties := Partly(props, j, delta, json), trace := s0.trace + DeltaEvents(props[..j], delta, json))
      {
        UpdateEntry(j, s0, props, delta);
        j := j + 1;
      }
      PartlyAll(props, delta, json);
      assert props[..j] == props;
    }

    /** One turn of the delta loop: property j takes the value the delta carries for its key. */
    method UpdateEntry(j: nat, ghost s0: Shadow, ghost props: seq<Property>, delta: seq<char>)
      requires j < |props|
      requires State() == s0.(properties := Partly(props, j, delta, json), trace := s0.trace + DeltaEvents(props[..j], delta, json))
      modifies this
      ensures State() == s0.(properties := Partly(props, j + 1, delta, json), trace := s0.trace + DeltaEvents(props[..j + 1], delta, json))
    {
      PartlyStep(props, j, delta, json);
      assert props[..j + 1][..j] == props[..j];
      var p := properties[j];
      var v := json.valueUpdate(delta, p.key);
      if v.Some? {
        var updated := p.(value := v.value);
        properties := properties[j := updated];
        trace := trace + [PropertyCallback(p.handler, delta, |delta|, updated)];
      }
    }

    /** shadow_glue_operation_request_do_handle, for a reply with this token and type. */
    method DoHandle(token: seq<char>, methodType: seq<char>)
      requires Valid()
      modifies this
      ensures Valid()
      ensures State() == AfterDoHandle(old(State()), token, methodType, json)
    {
      if requests == [] {
        return;
      }
      ghost var s0 := State();
      ghost var all := requests;
      ghost var j := 0;
      ghost var t := s0.(requests := []);
      var i := 0;
      while i < |requests|
        invariant 0 <= j <= |all|
        invariant t == DoHandleScan(s0, all[..j], token, methodType, json)
        invariant State() == t.(requests := t.requests + all[j..]) && i == |t.requests|
        invariant |requests| <= counter <= s0.counter
        decreases |all| - j
      {
        i := HandleEntry(i, s0, t, all, j, token, methodType);
        t := DoHandleScan(s0, all[..j + 1], token, methodType, json);
        j := j + 1;
      }
      assert all[..j] == all;
    }

    /**
     * One turn of do_handle's loop, at entry i: all[..j] is scanned from s0, leaving t, and
     * all[j..] is still in the list behind the entries kept; afterwards all[..j + 1] is.
     */
    method HandleEntry(i: nat, ghost s0: Shadow, ghost t: Shadow, ghost all: seq<Request>, ghost j: nat,
                       token: seq<char>, methodType: seq<char>)
      returns (i': nat)
      requires j < |all| && t == DoHandleScan(s0, all[..j], token, methodType, json)
      requires State() == t.(requests := t.requests + all[j..]) && i == |t.requests|
      requires |requests| <= counter
      modifies this
      ensures var t' := DoHandleScan(s0, all[..j + 1], token, methodType, json);
              State() == t'.(requests := t'.requests + all[j + 1..]) && i' == |t'.requests|
      ensures |requests| <= counter <= old(counter)
    {
      DoHandleScanSnoc(s0, all, j, token, methodType, json);
      RemoveAt(t.requests, all[j..]);
      assert all[j..][1..] == all[j + 1..];
      var r := requests[i];
      ghost var t' := HandleOne(t, r, token, methodType, json);
      if r.token != token {
        assert t' == t.(requests := t.requests + [r]);
        i' := i + 1;
      } else {
        var code := json.resultCode(incoming);
        if code.None? {
          assert t' == t;
          requests := requests[..i] + requests[i + 1..];
        } else {
          var st := if code.value == 0 then Accepted else Rejected;
          assert t' == Complete(t, r, st, methodType, json) && t'.requests == t.requests;
          CompleteKeepsRequests(t, t.requests + all[j..], r, st, methodType, json);
          CompleteRequest(r, st, methodType);
          requests := requests[..i] + requests[i + 1..];
        }
        i' := i;
      }
    }

    /** The body of do_handle for an entry whose token matched and whose result code parsed. */
    method CompleteRequest(r: Request, st: ReqState, methodType: seq<char>)
      modifies this
      ensures State() == Complete(old(State()), r, st, methodType, json)
    {
      if DeltaWanted(methodType, st) {
        var delta := json.operationDelta(incoming);
        if delta.Some? {
          DeltaHandle(delta.value);
        }
      }
      if r.handler.Some? {
        trace := trace + [RequestCallback(r.handler.value, r, st, incoming)];
      }
      counter := counter - 1;
    }

    /** shadow_glue_request_list_scan: time out every expired entry. */
    method Sweep(now: int) returns (rc: Err)
      requires Valid()
      modifies this
      ensures Valid() && rc == Success
      ensures State() == AfterSweep(old(State()), now)
    {
      if requests == [] {
        return Success;
      }
      ghost var s0 := State();
      ghost var all := requests;
      ghost var j := 0;
      ghost var t := s0.(requests := []);
      var i := 0;
      while i < |requests|
        invariant 0 <= j <= |all|
        invariant t == SweepScan(s0, all[..j], now)
        invariant State() == t.(requests := t.requests + all[j..]) && i == |t.requests|
        invariant |requests| <= counter <= PendingMax
        decreases |requests| - i
      {
        SweepScanSnoc(s0, all, j, now);
        i := SweepEntry(i, t, all, j, now);
        t := SweepOne(t, all[j], now);
        j := j + 1;
      }
      assert all[..j] == all;
      return Success;
    }

    /**
     * One turn of list_scan's loop, at entry i: all[..j] is swept, leaving t, and all[j..]
     * is still in the list behind the entries kept.
     */
    method SweepEntry(i: nat, ghost t: Shadow, ghost all: seq<Request>, ghost j: nat, now: int) returns (i': nat)
      requires j < |all| && State() == t.(requests := t.requests + all[j..]) && i == |t.requests|
      requires |requests| <= counter <= PendingMax
      modifies this
      ensures var t' := SweepOne(t, all[j], now);
              State() == t'.(requests := t'.requests + all[j + 1..]) && i' == |t'.requests|
      ensures |requests| <= counter <= PendingMax
    {
      RemoveAt(t.requests, all[j..]);
      assert all[j..][1..] == all[j + 1..];
      var r := requests[i];
      ghost var t' := SweepOne(t, r, now);
      if !Expired(r, now) {
        assert t' == t.(requests := t.requests + [r]);
        i' := i + 1;
      } else {
        assert t' == t.(trace := t.trace + HandlerEvents(r, Timeout, t.incoming), counter := t.counter - 1);
        if r.handler.Some? {
          trace := trace + [RequestCallback(r.handler.value, r, Timeout, incoming)];
        }
        assert trace == t'.trace;
        requests := requests[..i] + requests[i + 1..];
        counter := counter - 1;
        i' := i;
      }
    }

    /** shadow_glue_operation_result_handler, for a message received on topic. */
    method ResultHandler(topic: seq<char>, payload: seq<char>)
      requires Valid()
      modifies this
      ensures Valid()
      ensures State() == AfterMessage(old(State()), topic, payload, json)
    {
      if |topic| == 0 {
        return;
      }
      if |payload| > JsonBufMax {
        return;
      }
      var rcvLen := if JsonBufMax - 1 < |payload| then JsonBufMax - 1 else |payload|;
      incoming := payload[..rcvLen];
      var methodType := json.operationType(incoming);
      if methodType.None? {
        return;
      }
      var token: Option<seq<char>> := None;
      if methodType.value != OperationDelta {
        token := json.clientToken(incoming);
        if token.None? {
          return;
        }
      }
      var v := json.version(incoming);
      if v.Some? && v.value > version {
        version := v.value;
      }
      if methodType.value == OperationDelta {
        var delta := json.delta(incoming);
        if delta.Some? {
          DeltaHandle(delta.value);
        }
        return;
      }
      DoHandle(token.value, methodType.value);
    }

    /** shadow_glue_request_list_destroy: free every entry; no handler runs and the counter stays. */
    method RequestListDestroy()
      requires Valid()
      modifies this
      ensures Valid()
      ensures State() == old(State()).(requests := [])
    {
      while requests != []
        invariant counter == old(counter) && |requests| <= counter <= PendingMax
        invariant version == old(version) && properties == old(properties)
        invariant incoming == old(incoming) && trace == old(trace)
        decreases |requests|
      {
        requests := requests[1..];
      }
    }

    /** shadow_glue_property_list_destroy: unregister every property. */
    method PropertyListDestroy()
      requires Valid()
      modifies this
      ensures Valid()
      ensures State() == old(State()).(properties := [])
    {
      while properties != []
        invariant requests == old(requests) && counter == old(counter) && version == old(version)
        invariant incoming == old(incoming) && trace == old(trace)
        decreases |properties|
      {
        properties := properties[1..];
      }
    }
  }
}
