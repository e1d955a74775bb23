/**
 * What the shadow client's operations guarantee, proved about the specification functions
 * of module ShadowGlue (the methods of ShadowClient are proved equal to those functions).
 */
module ShadowGlueProperties {
  import opened Qcloud
  import opened ShadowDocText
  import opened ShadowGlue

  // ---------------------------------------------------------------------------
  // Selecting entries of the request list
  // ---------------------------------------------------------------------------

  /** The tests the scans apply to an entry. */
  datatype Selector = OtherToken(token: seq<char>) | SameToken(token: seq<char>) | Live(now: int) | Stale(now: int)

  predicate Keeps(sel: Selector, r: Request) {
    match sel
    case OtherToken(t) => r.token != t
    case SameToken(t) => r.token == t
    case Live(now) => !Expired(r, now)
    case Stale(now) => Expired(r, now)
  }

  function Complement(sel: Selector): (c: Selector)
    ensures forall r :: Keeps(c, r) <==> !Keeps(sel, r)
  {
    match sel
    case OtherToken(t) => SameToken(t)
    case SameToken(t) => OtherToken(t)
    case Live(now) => Stale(now)
    case Stale(now) => Live(now)
  }

  /** The entries of reqs that sel keeps, in list order. */
  function Filter(reqs: seq<Request>, sel: Selector): (r: seq<Request>)
    ensures |r| <= |reqs|
    decreases |reqs|
  {
    if reqs == [] then []
    else
      var last := reqs[|reqs| - 1];
      Filter(reqs[..|reqs| - 1], sel) + (if Keeps(sel, last) then [last] else [])
  }

  /** The last entry of the list is selected after the others, when sel keeps it. */
  lemma FilterLast(reqs: seq<Request>, sel: Selector)
    requires reqs != []
    ensures Keeps(sel, reqs[|reqs| - 1]) ==> Filter(reqs, sel) == Filter(reqs[..|reqs| - 1], sel) + [reqs[|reqs| - 1]]
    ensures !Keeps(sel, reqs[|reqs| - 1]) ==> Filter(reqs, sel) == Filter(reqs[..|reqs| - 1], sel)
  {
  }

  /** An entry is selected iff it is in the list and the selector keeps it. */
  lemma {:induction false} FilterMember(reqs: seq<Request>, sel: Selector, x: Request)
    ensures x in Filter(reqs, sel) <==> x in reqs && Keeps(sel, x)
    decreases |reqs|
  {
    if reqs != [] {
      var pre := reqs[..|reqs| - 1];
      assert reqs == pre + [reqs[|reqs| - 1]];
      FilterMember(pre, sel, x);
    }
  }

  /** Every entry goes to exactly one side of a selector and its complement. */
  lemma {:induction false} FilterPartition(reqs: seq<Request>, sel: Selector)
    ensures |Filter(reqs, sel)| + |Filter(reqs, Complement(sel))| == |reqs|
    decreases |reqs|
  {
    if reqs != [] {
      FilterPartition(reqs[..|reqs| - 1], sel);
    }
  }

  lemma {:induction false} FilterPrepend(x: Request, reqs: seq<Request>, sel: Selector)
    ensures Filter([x] + reqs, sel) == (if Keeps(sel, x) then [x] else []) + Filter(reqs, sel)
    decreases |reqs|
  {
    if reqs != [] {
      var pre := reqs[..|reqs| - 1];
      assert ([x] + reqs)[..|[x] + reqs| - 1] == [x] + pre;
      FilterPrepend(x, pre, sel);
    } else {
      assert ([x] + reqs)[..0] == [];
    }
  }

  /** A selector that keeps every entry keeps the list as it is. */
  lemma {:induction false} FilterAll(reqs: seq<Request>, sel: Selector)
    requires forall x :: x in reqs ==> Keeps(sel, x)
    ensures Filter(reqs, sel) == reqs
    decreases |reqs|
  {
    if reqs != [] {
      var pre := reqs[..|reqs| - 1];
      assert reqs == pre + [reqs[|reqs| - 1]];
      assert forall x :: x in pre ==> x in reqs;
      FilterAll(pre, sel);
    }
  }

  /** The handler calls for reqs, in order, each with outcome st and payload. */
  function Callbacks(reqs: seq<Request>, st: ReqState, payload: seq<char>): (r: seq<Event>)
    ensures |r| <= |reqs|
    decreases |reqs|
  {
    if reqs == [] then []
    else Callbacks(reqs[..|reqs| - 1], st, payload) + HandlerEvents(reqs[|reqs| - 1], st, payload)
  }

  /** The events of the matching entries when each completion first passes the corrective delta
   *  to the properties: the delta's property callbacks, then the entry's handler call. */
  function DeltaCallbacks(reqs: seq<Request>, deltaEvents: seq<Event>, st: ReqState, payload: seq<char>): seq<Event>
    decreases |reqs|
  {
    if reqs == [] then []
    else DeltaCallbacks(reqs[..|reqs| - 1], deltaEvents, st, payload) + deltaEvents + HandlerEvents(reqs[|reqs| - 1], st, payload)
  }

  lemma CallbacksSnoc(reqs: seq<Request>, x: Request, st: ReqState, payload: seq<char>)
    ensures Callbacks(reqs + [x], st, payload) == Callbacks(reqs, st, payload) + HandlerEvents(x, st, payload)
  {
    assert (reqs + [x])[..|reqs|] == reqs;
  }

  /** Completing an entry does not look at or change the request list. */
  lemma CompleteFrame(t: Shadow, reqs: seq<Request>, r: Request, st: ReqState, methodType: seq<char>, json: Json)
    ensures Complete(t.(requests := reqs), r, st, methodType, json) == Complete(t, r, st, methodType, json).(requests := reqs)
  {
  }

  lemma CompleteNoDelta(t: Shadow, r: Request, st: ReqState, methodType: seq<char>, json: Json)
    requires !DeltaWanted(methodType, st) || json.operationDelta(t.incoming).None?
    ensures Complete(t, r, st, methodType, json)
         == t.(trace := t.trace + HandlerEvents(r, st, t.incoming), counter := t.counter - 1)
  {
  }

  // ---------------------------------------------------------------------------
  // request_record and request_post
  // ---------------------------------------------------------------------------

  /**
   * record refuses at the bound and on allocation failure, changing nothing; otherwise it adds
   * exactly one entry, at the head, and increments the counter. The bound on the table holds.
   */
  lemma RecordOutcome(s: Shadow, token: seq<char>, opt: RequestOpt, now: int, allocOk: bool)
    requires Inv(s)
    ensures var (rc, s') := AfterRecord(s, token, opt, now, allocOk);
            Inv(s') && |s'.requests| <= s'.counter <= PendingMax &&
            (rc == Success <==> s.counter < PendingMax && allocOk) &&
            (rc == MaxAppendingRequest <==> s.counter >= PendingMax) &&
            (rc != Success ==> s' == s) &&
            (rc == Success ==>
               s'.requests == [NewRequest(token, opt, now)] + s.requests && s'.counter == s.counter + 1 &&
               s'.requests[1..] == s.requests &&
               s'.trace == s.trace && s'.version == s.version && s'.properties == s.properties)
  {
    var (rc, s') := AfterRecord(s, token, opt, now, allocOk);
    if rc == Success {
      assert s'.requests[1..] == s.requests;
    }
  }

  /** The stored entry holds the caller's method, handler, context and deadline, and the token cut at TokenMax. */
  lemma NewRequestFields(token: seq<char>, opt: RequestOpt, now: int)
    ensures var r := NewRequest(token, opt, now);
            r.kind == opt.kind && r.handler == opt.handler && r.context == opt.context &&
            r.deadline == now + opt.timeout && r.token == token[..|r.token|] &&
            |r.token| == (if |token| <= TokenMax then |token| else TokenMax)
  {
  }

  /**
   * post succeeds exactly when the token parses, the type node fits, the publish succeeds
   * and the record is accepted; only then does the table grow. Every attempt that gets past
   * method_set publishes, including one that the full table then refuses.
   */
  lemma PostOutcome(s: Shadow, opt: RequestOpt, doc: seq<char>, size: nat, publishRc: Err, allocOk: bool,
                    now: int, json: Json)
    requires |doc| < size && Inv(s)
    ensures var p := AfterPost(s, opt, doc, size, publishRc, allocOk, now, json);
            Inv(p.shadow) &&
            (p.rc == Success <==>
               json.clientToken(doc).Some? && MethodSetText(doc, size, opt.kind).Ok? &&
               publishRc == Success && s.counter < PendingMax && allocOk) &&
            (json.clientToken(doc).None? ==> p.rc == Inval && p.shadow == s && p.doc == doc) &&
            (p.rc == Success ==>
               p.shadow.requests == [NewRequest(json.clientToken(doc).value, opt, now)] + s.requests &&
               p.shadow.counter == s.counter + 1) &&
            (p.rc != Success ==> p.shadow.requests == s.requests && p.shadow.counter == s.counter) &&
            (json.clientToken(doc).Some? && MethodSetText(doc, size, opt.kind).Ok? ==>
               p.doc == MethodSetText(doc, size, opt.kind).value &&
               p.shadow.trace[..|s.trace| + 1] == s.trace + [Publish(p.doc, publishRc)]) &&
            (json.clientToken(doc).Some? && MethodSetText(doc, size, opt.kind).Ok? && publishRc == Success &&
             s.counter >= PendingMax ==>
               p.rc == MaxAppendingRequest && p.shadow.trace == s.trace + [Publish(p.doc, Success)])
  {
    var p := AfterPost(s, opt, doc, size, publishRc, allocOk, now, json);
    if json.clientToken(doc).Some? && MethodSetText(doc, size, opt.kind).Ok? {
      var s1 := s.(trace := s.trace + [Publish(p.doc, publishRc)]);
      assert p.shadow.trace == s1.trace;
      assert s1.trace[..|s.trace| + 1] == s.trace + [Publish(p.doc, publishRc)];
    }
  }

  // ---------------------------------------------------------------------------
  // delta_handle
  // ---------------------------------------------------------------------------

  /**
   * One pass of delta_handle calls a handler exactly for the properties the delta updates,
   * each with the updated property: no property is skipped and none is invented.
   */
  lemma {:induction false} DeltaEventsExact(props: seq<Property>, delta: seq<char>, json: Json)
    ensures |DeltaEvents(props, delta, json)| <= |props|
    ensures forall e :: e in DeltaEvents(props, delta, json) ==>
              exists p :: p in props && json.valueUpdate(delta, p.key).Some? &&
                          e == PropertyCallback(p.handler, delta, |delta|, UpdateProperty(p, delta, json))
    ensures forall p :: p in props && json.valueUpdate(delta, p.key).Some? ==>
              PropertyCallback(p.handler, delta, |delta|, UpdateProperty(p, delta, json)) in DeltaEvents(props, delta, json)
    decreases |props|
  {
    if props != [] {
      var pre := props[..|props| - 1];
      var last := props[|props| - 1];
      assert props == pre + [last];
      DeltaEventsExact(pre, delta, json);
      forall e | e in DeltaEvents(props, delta, json)
        ensures exists p :: p in props && json.valueUpdate(delta, p.key).Some? &&
                            e == PropertyCallback(p.handler, delta, |delta|, UpdateProperty(p, delta, json))
      {
        if e in DeltaEvents(pre, delta, json) {
          var p :| p in pre && json.valueUpdate(delta, p.key).Some? &&
                   e == PropertyCallback(p.handler, delta, |delta|, UpdateProperty(p, delta, json));
          assert p in props;
        } else {
          assert e == PropertyCallback(last.handler, delta, |delta|, UpdateProperty(last, delta, json));
        }
      }
    }
  }

  /** A delta keeps the registry's shape: same properties, keys and handlers; only values change. */
  lemma DeltaKeepsRegistry(s: Shadow, delta: seq<char>, json: Json)
    ensures var s' := AfterDelta(s, delta, json);
            |s'.properties| == |s.properties| &&
            (forall k :: 0 <= k < |s.properties| ==>
               s'.properties[k].key == s.properties[k].key &&
               s'.properties[k].handler == s.properties[k].handler &&
               (json.valueUpdate(delta, s.properties[k].key).None? ==> s'.properties[k] == s.properties[k])) &&
            s'.requests == s.requests && s'.counter == s.counter && s'.version == s.version &&
            s'.incoming == s.incoming && s'.trace[..|s.trace|] == s.trace
  {
  }

  // ---------------------------------------------------------------------------
  // do_handle
  // ---------------------------------------------------------------------------

  /**
   * do_handle's scan keeps exactly the entries with other tokens, in order, and takes one off
   * the counter per matching entry when the result code parses and none when it does not.
   */
  lemma {:induction false} DoHandleScanFacts(s0: Shadow, reqs: seq<Request>, token: seq<char>, methodType: seq<char>,
                                             json: Json)
    ensures var t := DoHandleScan(s0, reqs, token, methodType, json);
            t.requests == Filter(reqs, OtherToken(token)) &&
            t.incoming == s0.incoming && t.version == s0.version &&
            t.counter == s0.counter - (if json.resultCode(s0.incoming).Some? then |Filter(reqs, SameToken(token))| else 0) &&
            (json.resultCode(s0.incoming).None? ==> t.trace == s0.trace && t.properties == s0.properties)
    decreases |reqs|
  {
    if reqs != [] {
      DoHandleScanFacts(s0, reqs[..|reqs| - 1], token, methodType, json);
    }
  }

  /**
   * When the reply brings no corrective delta, the scan calls the handler of every matching
   * entry, in list order, with ACCEPTED iff the code is 0, and the properties stay as they are.
   */
  lemma {:induction false} DoHandleScanCallbacks(s0: Shadow, reqs: seq<Request>, token: seq<char>, methodType: seq<char>,
                                                 json: Json, c: int)
    requires json.resultCode(s0.incoming) == Some(c)
    requires !DeltaWanted(methodType, if c == 0 then Accepted else Rejected) || json.operationDelta(s0.incoming).None?
    ensures var t := DoHandleScan(s0, reqs, token, methodType, json);
            t.trace == s0.trace + Callbacks(Filter(reqs, SameToken(token)), if c == 0 then Accepted else Rejected, s0.incoming) &&
            t.properties == s0.properties
    decreases |reqs|
  {
    if reqs != [] {
      var pre := reqs[..|reqs| - 1];
      DoHandleScanCallbacks(s0, pre, token, methodType, json, c);
      DoHandleScanFacts(s0, pre, token, methodType, json);
      var st := if c == 0 then Accepted else Rejected;
      var last := reqs[|reqs| - 1];
      var t := DoHandleScan(s0, pre, token, methodType, json);
      FilterLast(reqs, SameToken(token));
      HandleOneNoDelta(t, last, token, methodType, json, c);
      if last.token == token {
        CallbacksSnoc(Filter(pre, SameToken(token)), last, st, s0.incoming);
      }
    }
  }

  /** One entry of the scan when no corrective delta applies: a match is a handler call and a
   *  decrement, any other entry is kept. */
  lemma HandleOneNoDelta(t: Shadow, r: Request, token: seq<char>, methodType: seq<char>, json: Json, c: int)
    requires json.resultCode(t.incoming) == Some(c)
    requires !DeltaWanted(methodType, if c == 0 then Accepted else Rejected) || json.operationDelta(t.incoming).None?
    ensures var st := if c == 0 then Accepted else Rejected;
            HandleOne(t, r, token, methodType, json)
            == (if r.token == token then t.(trace := t.trace + HandlerEvents(r, st, t.incoming), counter := t.counter - 1)
                else t.(requests := t.requests + [r]))
  {
    if r.token == token {
      CompleteNoDelta(t, r, if c == 0 then Accepted else Rejected, methodType, json);
    }
  }

  /**
   * With a corrective delta wanted and present, the scan passes it to the properties once per
   * match and calls the match's handler after it: the properties are those of one pass (none
   * when nothing matches) and each match adds the delta's callbacks and its handler call.
   */
  lemma DoHandleScanDelta(s0: Shadow, reqs: seq<Request>, token: seq<char>, methodType: seq<char>, json: Json, c: int)
    requires json.resultCode(s0.incoming) == Some(c)
    requires DeltaWanted(methodType, if c == 0 then Accepted else Rejected) && json.operationDelta(s0.incoming).Some?
    ensures var t := DoHandleScan(s0, reqs, token, methodType, json);
            var d := json.operationDelta(s0.incoming).value;
            var matched := Filter(reqs, SameToken(token));
            t.properties == (if matched == [] then s0.properties else UpdateProperties(s0.properties, d, json)) &&
            t.trace == s0.trace + DeltaCallbacks(matched, DeltaEvents(s0.properties, d, json), if c == 0 then Accepted else Rejected, s0.incoming)
  {
    DoHandleScanDeltaProperties(s0, reqs, token, methodType, json, c);
    DoHandleScanDeltaTrace(s0, reqs, token, methodType, json, c);
  }

  lemma {:induction false} DoHandleScanDeltaProperties(s0: Shadow, reqs: seq<Request>, token: seq<char>,
                                                       methodType: seq<char>, json: Json, c: int)
    requires json.resultCode(s0.incoming) == Some(c)
    requires DeltaWanted(methodType, if c == 0 then Accepted else Rejected) && json.operationDelta(s0.incoming).Some?
    ensures DoHandleScan(s0, reqs, token, methodType, json).properties
         == if Filter(reqs, SameToken(token)) == [] then s0.properties
            else UpdateProperties(s0.properties, json.operationDelta(s0.incoming).value, json)
    decreases |reqs|
  {
    if reqs != [] {
      var pre := reqs[..|reqs| - 1];
      var last := reqs[|reqs| - 1];
      var d := json.operationDelta(s0.incoming).value;
      DoHandleScanDeltaProperties(s0, pre, token, methodType, json, c);
      DoHandleScanFacts(s0, pre, token, methodType, json);
      FilterLast(reqs, SameToken(token));
      var t := DoHandleScan(s0, pre, token, methodType, json);
      HandleOneDelta(t, last, token, methodType, json, c);
      if last.token == token {
        assert Filter(reqs, SameToken(token)) != [];
        UpdatePropertiesTwice(s0.properties, d, json);
      }
    }
  }

  lemma {:induction false} DoHandleScanDeltaTrace(s0: Shadow, reqs: seq<Request>, token: seq<char>,
                                                  methodType: seq<char>, json: Json, c: int)
    requires json.resultCode(s0.incoming) == Some(c)
    requires DeltaWanted(methodType, if c == 0 then Accepted else Rejected) && json.operationDelta(s0.incoming).Some?
    ensures DoHandleScan(s0, reqs, token, methodType, json).trace
         == s0.trace + DeltaCallbacks(Filter(reqs, SameToken(token)),
                                      DeltaEvents(s0.properties, json.operationDelta(s0.incoming).value, json),
                                      if c == 0 then Accepted else Rejected, s0.incoming)
    decreases |reqs|
  {
    if reqs != [] {
      var pre := reqs[..|reqs| - 1];
      var last := reqs[|reqs| - 1];
      var st := if c == 0 then Accepted else Rejected;
      var d := json.operationDelta(s0.incoming).value;
      var ev := DeltaEvents(s0.properties, d, json);
      DoHandleScanDeltaTrace(s0, pre, token, methodType, json, c);
      DoHandleScanDeltaProperties(s0, pre, token, methodType, json, c);
      DoHandleScanFacts(s0, pre, token, methodType, json);
      FilterLast(reqs, SameToken(token));
      var t := DoHandleScan(s0, pre, token, methodType, json);
      HandleOneDelta(t, last, token, methodType, json, c);
      if last.token == token {
        DeltaEventsAgain(s0.properties, d, json);
        var before := DeltaCallbacks(Filter(pre, SameToken(token)), ev, st, s0.incoming);
        var h := HandlerEvents(last, st, s0.incoming);
        assert HandleOne(t, last, token, methodType, json).trace == t.trace + ev + h;
        DeltaCallbacksSnoc(Filter(pre, SameToken(token)), last, ev, st, s0.incoming);
        Concat4(s0.trace, before, ev, h);
      }
    }
  }

  /** One entry of the scan when the corrective delta applies: a match passes the delta to the
   *  properties, then has its handler called and is counted off; any other entry is kept. */
  lemma HandleOneDelta(t: Shadow, r: Request, token: seq<char>, methodType: seq<char>, json: Json, c: int)
    requires json.resultCode(t.incoming) == Some(c)
    requires DeltaWanted(methodType, if c == 0 then Accepted else Rejected) && json.operationDelta(t.incoming).Some?
    ensures var st := if c == 0 then Accepted else Rejected;
            var d := json.operationDelta(t.incoming).value;
            HandleOne(t, r, token, methodType, json)
            == (if r.token == token
                then t.(properties := UpdateProperties(t.properties, d, json),
                        trace := t.trace + DeltaEvents(t.properties, d, json) + HandlerEvents(r, st, t.incoming),
                        counter := t.counter - 1)
                else t.(requests := t.requests + [r]))
  {
  }

  /** A delta applied to properties it has already updated changes nothing more. */
  lemma UpdatePropertiesTwice(props: seq<Property>, delta: seq<char>, json: Json)
    ensures UpdateProperties(UpdateProperties(props, delta, json), delta, json) == UpdateProperties(props, delta, json)
  {
  }

  /** A second pass of the same delta makes the same property callbacks as the first. */
  lemma {:induction false} DeltaEventsAgain(props: seq<Property>, delta: seq<char>, json: Json)
    ensures DeltaEvents(UpdateProperties(props, delta, json), delta, json) == DeltaEvents(props, delta, json)
    decreases |props|
  {
    if props != [] {
      var u := UpdateProperties(props, delta, json);
      var pre := props[..|props| - 1];
      assert u[..|u| - 1] == UpdateProperties(pre, delta, json);
      DeltaEventsAgain(pre, delta, json);
    }
  }

  lemma Concat4(a: seq<Event>, b: seq<Event>, c: seq<Event>, d: seq<Event>)
    ensures a + b + c + d == a + (b + c + d)
  {
  }

  lemma DeltaCallbacksSnoc(reqs: seq<Request>, x: Request, deltaEvents: seq<Event>, st: ReqState, payload: seq<char>)
    ensures DeltaCallbacks(reqs + [x], deltaEvents, st, payload)
         == DeltaCallbacks(reqs, deltaEvents, st, payload) + deltaEvents + HandlerEvents(x, st, payload)
  {
    assert (reqs + [x])[..|reqs|] == reqs;
  }

  /** An entry list with no entry for this token goes through the scan unchanged. */
  lemma {:induction false} DoHandleScanNoMatch(s0: Shadow, reqs: seq<Request>, token: seq<char>, methodType: seq<char>,
                                               json: Json)
    requires forall r :: r in reqs ==> r.token != token
    ensures DoHandleScan(s0, reqs, token, methodType, json) == s0.(requests := reqs)
    decreases |reqs|
  {
    if reqs != [] {
      var pre, last := reqs[..|reqs| - 1], reqs[|reqs| - 1];
      assert reqs == pre + [last];
      assert last.token != token by { assert last in reqs; }
      forall r | r in pre ensures r.token != token { assert r in reqs; }
      DoHandleScanNoMatch(s0, pre, token, methodType, json);
      assert DoHandleScan(s0, reqs, token, methodType, json)
          == HandleOne(s0.(requests := pre), last, token, methodType, json);
    }
  }

  /** With exactly one matching entry, the scan completes it as one step and keeps the rest in order. */
  lemma {:induction false} DoHandleScanUnique(s0: Shadow, reqs: seq<Request>, r: Request, token: seq<char>,
                                              methodType: seq<char>, json: Json, c: int)
    requires json.resultCode(s0.incoming) == Some(c)
    requires Filter(reqs, SameToken(token)) == [r]
    ensures DoHandleScan(s0, reqs, token, methodType, json)
         == Complete(s0, r, if c == 0 then Accepted else Rejected, methodType, json).(requests := Filter(reqs, OtherToken(token)))
    decreases |reqs|
  {
    var pre := reqs[..|reqs| - 1];
    var last := reqs[|reqs| - 1];
    var st := if c == 0 then Accepted else Rejected;
    if last.token == token {
      assert Filter(reqs, SameToken(token)) == Filter(pre, SameToken(token)) + [last];
      assert Filter(pre, SameToken(token)) == [];
      assert Filter(reqs, SameToken(token))[0] == last;
      forall x | x in pre ensures x.token != token {
        FilterMember(pre, SameToken(token), x);
      }
      DoHandleScanNoMatch(s0, pre, token, methodType, json);
      FilterAll(pre, OtherToken(token));
      CompleteFrame(s0, pre, r, st, methodType, json);
      assert Filter(reqs, OtherToken(token)) == pre;
    } else {
      assert Filter(reqs, SameToken(token)) == Filter(pre, SameToken(token));
      DoHandleScanUnique(s0, pre, r, token, methodType, json, c);
      DoHandleScanFacts(s0, pre, token, methodType, json);
    }
  }

  /**
   * do_handle on a reply: the entries of other tokens stay, in order; the matching ones go;
   * the counter falls by their number if the code parses (by none otherwise, so the gap
   * between counter and table grows); the invariant holds; version and buffer are untouched.
   */
  lemma DoHandleOutcome(s: Shadow, token: seq<char>, methodType: seq<char>, json: Json)
    requires Inv(s)
    ensures var s' := AfterDoHandle(s, token, methodType, json);
            var matched := |Filter(s.requests, SameToken(token))|;
            Inv(s') &&
            s'.requests == Filter(s.requests, OtherToken(token)) &&
            |s'.requests| == |s.requests| - matched &&
            s'.counter == s.counter - (if json.resultCode(s.incoming).Some? then matched else 0) &&
            s'.version == s.version && s'.incoming == s.incoming &&
            (json.resultCode(s.incoming).None? ==> s'.trace == s.trace && s'.properties == s.properties &&
                                                    s'.counter - |s'.requests| == s.counter - |s.requests| + matched)
  {
    DoHandleScanFacts(s, s.requests, token, methodType, json);
    FilterPartition(s.requests, OtherToken(token));
    if s.requests == [] {
      assert Filter(s.requests, OtherToken(token)) == [];
    }
  }

  /** A reply naming no pending token changes nothing. */
  lemma UnknownTokenChangesNothing(s: Shadow, token: seq<char>, methodType: seq<char>, json: Json)
    requires forall r :: r in s.requests ==> r.token != token
    ensures AfterDoHandle(s, token, methodType, json) == s
  {
    if s.requests != [] {
      DoHandleScanNoMatch(s, s.requests, token, methodType, json);
    }
  }

  /** Without a corrective delta, the handlers of the matching entries run in list order with ACCEPTED iff the code is 0. */
  lemma DoHandleCallbacks(s: Shadow, token: seq<char>, methodType: seq<char>, json: Json, c: int)
    requires json.resultCode(s.incoming) == Some(c)
    requires !DeltaWanted(methodType, if c == 0 then Accepted else Rejected) || json.operationDelta(s.incoming).None?
    ensures var s' := AfterDoHandle(s, token, methodType, json);
            s'.trace == s.trace + Callbacks(Filter(s.requests, SameToken(token)), if c == 0 then Accepted else Rejected, s.incoming) &&
            s'.properties == s.properties
  {
    if s.requests == [] {
      assert Filter(s.requests, SameToken(token)) == [];
    } else {
      DoHandleScanCallbacks(s, s.requests, token, methodType, json, c);
    }
  }

  /**
   * What do_handle does with the properties and the trace, for any number of matching entries:
   * when the reply is an accepted get or a rejected update carrying a corrective delta, each
   * match first passes that delta to the properties and then has its handler called, so the
   * properties end up updated once (a second pass of the same delta changes nothing) and every
   * match contributes the delta's property callbacks followed by its own handler call, in list
   * order; otherwise the properties stay and only the handler calls are added.
   */
  lemma DoHandleDeltaIff(s: Shadow, token: seq<char>, methodType: seq<char>, json: Json, c: int)
    requires json.resultCode(s.incoming) == Some(c)
    ensures var st := if c == 0 then Accepted else Rejected;
            var s' := AfterDoHandle(s, token, methodType, json);
            var d := json.operationDelta(s.incoming);
            var matched := Filter(s.requests, SameToken(token));
            (DeltaWanted(methodType, st) && d.Some? ==>
               s'.properties == (if matched == [] then s.properties else UpdateProperties(s.properties, d.value, json)) &&
               s'.trace == s.trace + DeltaCallbacks(matched, DeltaEvents(s.properties, d.value, json), st, s.incoming)) &&
            (!(DeltaWanted(methodType, st) && d.Some?) ==>
               s'.properties == s.properties && s'.trace == s.trace + Callbacks(matched, st, s.incoming))
  {
    var st := if c == 0 then Accepted else Rejected;
    if s.requests == [] {
      assert Filter(s.requests, SameToken(token)) == [];
    } else if DeltaWanted(methodType, st) && json.operationDelta(s.incoming).Some? {
      DoHandleScanDelta(s, s.requests, token, methodType, json, c);
    } else {
      DoHandleScanCallbacks(s, s.requests, token, methodType, json, c);
    }
  }

  /** For a unique match: the delta, when wanted and present, reaches the properties and then the handler is called. */
  lemma DoHandleDeltaUnique(s: Shadow, r: Request, token: seq<char>, methodType: seq<char>, json: Json, c: int)
    requires json.resultCode(s.incoming) == Some(c)
    requires Filter(s.requests, SameToken(token)) == [r]
    ensures var st := if c == 0 then Accepted else Rejected;
            var s' := AfterDoHandle(s, token, methodType, json);
            var d := json.operationDelta(s.incoming);
            (DeltaWanted(methodType, st) && d.Some? ==>
               s'.properties == UpdateProperties(s.properties, d.value, json) &&
               s'.trace == s.trace + DeltaEvents(s.properties, d.value, json) + HandlerEvents(r, st, s.incoming)) &&
            (!(DeltaWanted(methodType, st) && d.Some?) ==>
               s'.properties == s.properties && s'.trace == s.trace + HandlerEvents(r, st, s.incoming))
  {
    var st := if c == 0 then Accepted else Rejected;
    DoHandleDeltaIff(s, token, methodType, json, c);
    var d := json.operationDelta(s.incoming);
    if d.Some? {
      assert [r][..0] == [];
      assert DeltaCallbacks([r], DeltaEvents(s.properties, d.value, json), st, s.incoming)
          == DeltaEvents(s.properties, d.value, json) + HandlerEvents(r, st, s.incoming);
    }
    assert [r][..0] == [];
    assert Callbacks([r], st, s.incoming) == HandlerEvents(r, st, s.incoming);
  }

  /**
   * Recording a fresh token and then receiving its reply returns the table and the counter to
   * where they were; what remains is the completion of the new entry.
   */
  lemma RecordThenReply(s: Shadow, token: seq<char>, opt: RequestOpt, now: int, methodType: seq<char>, json: Json, c: int)
    requires Inv(s) && s.counter < PendingMax && |token| <= TokenMax
    requires forall r :: r in s.requests ==> r.token != token
    requires json.resultCode(s.incoming) == Some(c)
    ensures var s1 := AfterRecord(s, token, opt, now, true).1;
            var s2 := AfterDoHandle(s1, token, methodType, json);
            var st := if c == 0 then Accepted else Rejected;
            s2.requests == s.requests && s2.counter == s.counter &&
            s2 == Complete(s, NewRequest(token, opt, now), st, methodType, json).(requests := s.requests, counter := s.counter)
  {
    var x := NewRequest(token, opt, now);
    var st := if c == 0 then Accepted else Rejected;
    var s1 := s.(requests := [x] + s.requests, counter := s.counter + 1);
    assert AfterRecord(s, token, opt, now, true).1 == s1;
    FreshFilters(x, s.requests, token);
    DoHandleScanUnique(s1, s1.requests, x, token, methodType, json, c);
    CompleteCounterFrame(s, [x] + s.requests, s.counter + 1, x, st, methodType, json);
  }

  /** A new entry in front of entries with other tokens is the only match for its token. */
  lemma FreshFilters(x: Request, reqs: seq<Request>, token: seq<char>)
    requires x.token == token
    requires forall r :: r in reqs ==> r.token != token
    ensures Filter([x] + reqs, SameToken(token)) == [x]
    ensures Filter([x] + reqs, OtherToken(token)) == reqs
  {
    FilterPrepend(x, reqs, SameToken(token));
    FilterPrepend(x, reqs, OtherToken(token));
    assert Filter(reqs, SameToken(token)) == [] by {
      if Filter(reqs, SameToken(token)) != [] {
        FilterMember(reqs, SameToken(token), Filter(reqs, SameToken(token))[0]);
      }
    }
    FilterAll(reqs, OtherToken(token));
  }

  lemma CompleteCounterFrame(t: Shadow, reqs: seq<Request>, k: int, r: Request, st: ReqState, methodType: seq<char>,
                             json: Json)
    ensures Complete(t.(requests := reqs, counter := k), r, st, methodType, json)
         == Complete(t, r, st, methodType, json).(requests := reqs, counter := k - 1)
  {
  }

  // ---------------------------------------------------------------------------
  // list_scan
  // ---------------------------------------------------------------------------

  /** The sweep keeps exactly the unexpired entries, in order, and times out the others in order. */
  lemma SweepScanFacts(s0: Shadow, reqs: seq<Request>, now: int)
    ensures var t := SweepScan(s0, reqs, now);
            t.requests == Filter(reqs, Live(now)) &&
            t.counter == s0.counter - |Filter(reqs, Stale(now))| &&
            t.trace == s0.trace + Callbacks(Filter(reqs, Stale(now)), Timeout, s0.incoming) &&
            t.version == s0.version && t.properties == s0.properties && t.incoming == s0.incoming
  {
    SweepScanKeeps(s0, reqs, now);
    SweepScanTrace(s0, reqs, now);
  }

  lemma {:induction false} SweepScanKeeps(s0: Shadow, reqs: seq<Request>, now: int)
    ensures var t := SweepScan(s0, reqs, now);
            t.requests == Filter(reqs, Live(now)) &&
            t.counter == s0.counter - |Filter(reqs, Stale(now))| &&
            t.version == s0.version && t.properties == s0.properties && t.incoming == s0.incoming
    decreases |reqs|
  {
    if reqs != [] {
      SweepScanKeeps(s0, reqs[..|reqs| - 1], now);
      FilterLast(reqs, Live(now));
      FilterLast(reqs, Stale(now));
    }
  }

  lemma {:induction false} SweepScanTrace(s0: Shadow, reqs: seq<Request>, now: int)
    ensures SweepScan(s0, reqs, now).trace == s0.trace + Callbacks(Filter(reqs, Stale(now)), Timeout, s0.incoming)
    decreases |reqs|
  {
    if reqs != [] {
      var pre := reqs[..|reqs| - 1];
      var last := reqs[|reqs| - 1];
      var t := SweepScan(s0, pre, now);
      SweepScanTrace(s0, pre, now);
      SweepScanKeeps(s0, pre, now);
      assert SweepScan(s0, reqs, now) == SweepOne(t, last, now);
      SweepOneTrace(t, last, now);
      FilterLast(reqs, Stale(now));
      if Expired(last, now) {
        CallbacksSnoc(Filter(pre, Stale(now)), last, Timeout, s0.incoming);
      }
    }
  }

  /** One step of the sweep adds the entry's TIMEOUT call when it is expired and nothing otherwise. */
  lemma SweepOneTrace(t: Shadow, r: Request, now: int)
    ensures SweepOne(t, r, now).trace == t.trace + (if Expired(r, now) then HandlerEvents(r, Timeout, t.incoming) else [])
  {
  }

  /**
   * The sweep removes exactly the expired entries, one TIMEOUT call each, one decrement each;
   * afterwards nothing pending is expired, the invariant holds, and a second sweep at the same
   * time changes nothing.
   */
  lemma SweepOutcome(s: Shadow, now: int)
    requires Inv(s)
    ensures var s' := AfterSweep(s, now);
            Inv(s') &&
            s'.requests == Filter(s.requests, Live(now)) &&
            s'.counter == s.counter - |Filter(s.requests, Stale(now))| &&
            s'.trace == s.trace + Callbacks(Filter(s.requests, Stale(now)), Timeout, s.incoming) &&
            s'.version == s.version && s'.properties == s.properties && s'.incoming == s.incoming &&
            (forall r :: r in s'.requests ==> !Expired(r, now)) &&
            AfterSweep(s', now) == s'
  {
    SweepFirst(s, now);
    var s' := AfterSweep(s, now);
    forall r | r in s'.requests ensures !Expired(r, now) {
      FilterMember(s.requests, Live(now), r);
    }
    SweepNothingExpired(s', now);
  }

  lemma SweepFirst(s: Shadow, now: int)
    requires Inv(s)
    ensures var s' := AfterSweep(s, now);
            Inv(s') &&
            s'.requests == Filter(s.requests, Live(now)) &&
            s'.counter == s.counter - |Filter(s.requests, Stale(now))| &&
            s'.trace == s.trace + Callbacks(Filter(s.requests, Stale(now)), Timeout, s.incoming) &&
            s'.version == s.version && s'.properties == s.properties && s'.incoming == s.incoming
  {
    if s.requests == [] {
      assert Filter(s.requests, Live(now)) == [] && Filter(s.requests, Stale(now)) == [];
    } else {
      SweepScanFacts(s, s.requests, now);
      FilterPartition(s.requests, Live(now));
    }
  }

  /** A sweep with nothing expired changes nothing. */
  lemma SweepNothingExpired(s: Shadow, now: int)
    requires forall r :: r in s.requests ==> !Expired(r, now)
    ensures AfterSweep(s, now) == s
  {
    if s.requests != [] {
      SweepScanFacts(s, s.requests, now);
      FilterAll(s.requests, Live(now));
      FilterPartition(s.requests, Live(now));
      assert Filter(s.requests, Stale(now)) == [];
    }
  }

  /** An entry recorded with a timeout is timed out by the first sweep at or after its deadline. */
  lemma RecordThenTimeout(s: Shadow, token: seq<char>, opt: RequestOpt, now: int, later: int)
    requires Inv(s) && s.counter < PendingMax
    requires now + opt.timeout <= later
    requires forall r :: r in s.requests ==> !Expired(r, later)
    ensures var s1 := AfterRecord(s, token, opt, now, true).1;
            var s2 := AfterSweep(s1, later);
            s2.requests == s.requests && s2.counter == s.counter &&
            s2.trace == s.trace + HandlerEvents(NewRequest(token, opt, now), Timeout, s.incoming)
  {
    var x := NewRequest(token, opt, now);
    var s1 := s.(requests := [x] + s.requests, counter := s.counter + 1);
    assert AfterRecord(s, token, opt, now, true).1 == s1;
    NewlyStale(x, s.requests, later);
    SweepFirst(s1, later);
    CallbacksSnoc([], x, Timeout, s.incoming);
    assert [] + [x] == [x];
  }

  /** A stale entry in front of live ones is the only one the sweep selects. */
  lemma NewlyStale(x: Request, reqs: seq<Request>, now: int)
    requires Expired(x, now)
    requires forall r :: r in reqs ==> !Expired(r, now)
    ensures Filter([x] + reqs, Stale(now)) == [x]
    ensures Filter([x] + reqs, Live(now)) == reqs
  {
    FilterPrepend(x, reqs, Live(now));
    FilterPrepend(x, reqs, Stale(now));
    FilterAll(reqs, Live(now));
    if Filter(reqs, Stale(now)) != [] {
      FilterMember(reqs, Stale(now), Filter(reqs, Stale(now))[0]);
    }
  }

  // ---------------------------------------------------------------------------
  // result_handler
  // ---------------------------------------------------------------------------

  /**
   * Any message keeps the invariant and never lowers the cached version; a version that parses
   * in an accepted message raises it to the larger of the two.
   */
  lemma MessageVersion(s: Shadow, topic: seq<char>, payload: seq<char>, json: Json)
    requires Inv(s)
    ensures var s' := AfterMessage(s, topic, payload, json);
            var msg := payload[..Min(JsonBufMax - 1, |payload|)];
            Inv(s') && s'.version >= s.version &&
            (|topic| > 0 && |payload| <= JsonBufMax && json.operationType(msg).Some? &&
             (json.operationType(msg).value == OperationDelta || json.clientToken(msg).Some?) ==>
               s'.version == (if json.version(msg).Some? && json.version(msg).value > s.version
                              then json.version(msg).value else s.version)) &&
            (!(|topic| > 0 && |payload| <= JsonBufMax && json.operationType(msg).Some? &&
               (json.operationType(msg).value == OperationDelta || json.clientToken(msg).Some?)) ==>
               s'.version == s.version)
  {
    if |topic| > 0 && |payload| <= JsonBufMax {
      var msg := payload[..Min(JsonBufMax - 1, |payload|)];
      var s1 := s.(incoming := msg);
      if json.operationType(msg).Some? && json.operationType(msg).value != OperationDelta && json.clientToken(msg).Some? {
        var s2 := s1.(version := NewVersion(s1.version, json.version(msg)));
        DoHandleOutcome(s2, json.clientToken(msg).value, json.operationType(msg).value, json);
      }
    }
  }

  /** A message without a topic, or longer than the buffer, is dropped without a trace. */
  lemma MessageDropped(s: Shadow, topic: seq<char>, payload: seq<char>, json: Json)
    requires |topic| == 0 || |payload| > JsonBufMax
    ensures AfterMessage(s, topic, payload, json) == s
  {
  }

  /** A delta message reaches the properties and never touches the request table or the counter. */
  lemma DeltaMessage(s: Shadow, topic: seq<char>, payload: seq<char>, json: Json)
    requires |topic| > 0 && |payload| <= JsonBufMax
    requires json.operationType(payload[..Min(JsonBufMax - 1, |payload|)]) == Some(OperationDelta)
    ensures var msg := payload[..Min(JsonBufMax - 1, |payload|)];
            var s' := AfterMessage(s, topic, payload, json);
            s'.requests == s.requests && s'.counter == s.counter && s'.incoming == msg &&
            (json.delta(msg).Some? ==>
               s'.properties == UpdateProperties(s.properties, json.delta(msg).value, json) &&
               s'.trace == s.trace + DeltaEvents(s.properties, json.delta(msg).value, json)) &&
            (json.delta(msg).None? ==> s'.properties == s.properties && s'.trace == s.trace)
  {
  }

  /** A reply is handed to do_handle with its own token and type, after the version update. */
  lemma ReplyMessage(s: Shadow, topic: seq<char>, payload: seq<char>, json: Json)
    requires |topic| > 0 && |payload| <= JsonBufMax
    requires var msg := payload[..Min(JsonBufMax - 1, |payload|)];
             json.operationType(msg).Some? && json.operationType(msg).value != OperationDelta && json.clientToken(msg).Some?
    ensures var msg := payload[..Min(JsonBufMax - 1, |payload|)];
            var s2 := s.(incoming := msg, version := NewVersion(s.version, json.version(msg)));
            AfterMessage(s, topic, payload, json) ==
              AfterDoHandle(s2, json.clientToken(msg).value, json.operationType(msg).value, json)
  {
  }

  // ---------------------------------------------------------------------------
  // request_list_destroy
  // ---------------------------------------------------------------------------

  /**
   * Destroying the list calls no handler and keeps the counter, so a counter left at the bound
   * keeps refusing new requests although nothing is pending.
   */
  lemma DestroyKeepsCounter(s: Shadow, token: seq<char>, opt: RequestOpt, now: int, allocOk: bool)
    requires Inv(s) && s.counter >= PendingMax
    ensures var d := s.(requests := []);
            Inv(d) && d.trace == s.trace && d.counter == s.counter &&
            AfterRecord(d, token, opt, now, allocOk) == (MaxAppendingRequest, d)
  {
  }
}
