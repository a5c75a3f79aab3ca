/** The callbacks of `answer_to_connection` as steps over all the requests in
    progress on one MQTT handle.  What the code leaves undefined (a read of a
    freed accumulator, `strlen(NULL)`, `strtol(NULL)`) is the state `Fault`. */
module Requests {
  import opened CStrings
  import IntParsing

  /** One HTTP request; the HTTP library keeps one `*con_cls` for each. */
  type ReqId = nat

  datatype Callback = Callback(
    req: ReqId, verb: string, url: CString, upload: string, qos: Option<CString>)
  {
    predicate Posts() { verb == "POST" }
  }

  /** One call of `mosquitto_publish`. */
  datatype Publish = Publish(topic: string, payload: string, qos: int)

  datatype Request = Collecting(body: string) | Finished

  datatype State = Fault | Running(requests: map<ReqId, Request>, published: seq<Publish>)

  const INITIAL := Running(map[], [])

  /** What a final callback hands to MQTT: the topic is the path without its
      first character, the payload is `strlen` bytes of the accumulator, and
      the parse result of the `qos` text is used without looking at its flag. */
  function Message(body: string, url: CString, qos: CString): Publish
    requires url != ""
  {
    Publish(url[1..], CStr(body), IntParsing.ParseInt(qos).val)
  }

  function Step(s: State, cb: Callback): State {
    if s.Fault? || !cb.Posts() then s
    else if cb.req !in s.requests then s.(requests := s.requests[cb.req := Collecting("")])
    else match s.requests[cb.req]
      case Finished => Fault
      case Collecting(body) =>
        if cb.upload != "" then s.(requests := s.requests[cb.req := Collecting(body + cb.upload)])
        else if body == "" || cb.qos.None? || cb.url == "" then Fault
        else Running(s.requests[cb.req := Finished],
                     s.published + [Message(body, cb.url, cb.qos.value)])
  }

  function Run(cbs: seq<Callback>): State {
    if cbs == [] then INITIAL else Step(Run(cbs[..|cbs| - 1]), cbs[|cbs| - 1])
  }

  // ----- what each request did, without reference to the machine

  /** The POST callbacks of one request, in order. */
  function Own(cbs: seq<Callback>, r: ReqId): (own: seq<Callback>)
    ensures forall i :: 0 <= i < |own| ==> own[i].req == r && own[i].Posts()
  {
    if cbs == [] then []
    else
      var last := cbs[|cbs| - 1];
      Own(cbs[..|cbs| - 1], r) + if last.req == r && last.Posts() then [last] else []
  }

  /** The bytes uploaded after the opening callback. */
  function Body(own: seq<Callback>): string {
    if |own| <= 1 then "" else Body(own[..|own| - 1]) + own[|own| - 1].upload
  }

  /** Callback `i` of a request is its final one. */
  predicate IsFinal(own: seq<Callback>, i: int) {
    1 <= i < |own| && own[i].upload == ""
  }

  predicate Complete(own: seq<Callback>) { own != [] && IsFinal(own, |own| - 1) }

  /** The contract between the HTTP side and this code: the final callback is
      the last one, some bytes came before it, and it has a path and a `qos`. */
  ghost predicate WellFormed(own: seq<Callback>) {
    forall i :: IsFinal(own, i) ==>
      i == |own| - 1 && i >= 2 && own[i].qos.Some? && own[i].url != ""
  }

  ghost predicate AllWellFormed(cbs: seq<Callback>) {
    forall r :: WellFormed(Own(cbs, r))
  }

  /** The requests in the order in which they finish. */
  function FinishOrder(cbs: seq<Callback>): seq<ReqId> {
    if cbs == [] then []
    else
      var last := cbs[|cbs| - 1];
      FinishOrder(cbs[..|cbs| - 1])
      + if last.Posts() && Complete(Own(cbs, last.req)) then [last.req] else []
  }

  // ----- the machine against that description

  /** What the machine remembers of one request is a function of that request's
      own callbacks. */
  function Remembered(own: seq<Callback>): Option<Request> {
    if own == [] then None
    else if Complete(own) then Some(Finished)
    else Some(Collecting(Body(own)))
  }

  function Lookup(s: State, r: ReqId): Option<Request>
    requires s.Running?
  {
    if r in s.requests then Some(s.requests[r]) else None
  }

  ghost predicate Agrees(s: State, cbs: seq<Callback>)
    requires s.Running?
  {
    forall r :: Lookup(s, r) == Remembered(Own(cbs, r))
  }

  lemma OwnOfNext(cbs: seq<Callback>, r: ReqId)
    requires cbs != []
    ensures var prev, cb := cbs[..|cbs| - 1], cbs[|cbs| - 1];
      Own(cbs, r) == if cb.req == r && cb.Posts() then Own(prev, r) + [cb] else Own(prev, r)
  {}

  lemma WellFormedPrefix(own: seq<Callback>, cb: Callback)
    ensures WellFormed(own + [cb]) ==> WellFormed(own) && !Complete(own)
    ensures WellFormed(own) && !Complete(own) ==>
      (WellFormed(own + [cb]) <==>
       (Complete(own + [cb]) ==> |own| >= 2 && cb.qos.Some? && cb.url != ""))
  {
    var all := own + [cb];
    assert forall i :: IsFinal(own, i) ==> IsFinal(all, i);
    assert forall i | IsFinal(all, i) && i < |own| :: IsFinal(own, i);
  }

  lemma {:induction false} BodyEmptyIff(own: seq<Callback>)
    requires WellFormed(own) && !Complete(own)
    ensures Body(own) == "" <==> |own| < 2
  {}

  lemma BodyOfNext(own: seq<Callback>, cb: Callback)
    ensures Body(own + [cb]) == if own == [] then "" else Body(own) + cb.upload
  {}

  lemma StepFollowsRequest(s: State, cb: Callback, own: seq<Callback>)
    requires s.Running? && cb.Posts()
    requires WellFormed(own) && Lookup(s, cb.req) == Remembered(own)
    ensures Step(s, cb).Running? <==> WellFormed(own + [cb])
    ensures Step(s, cb).Running? ==> Lookup(Step(s, cb), cb.req) == Remembered(own + [cb])
  {
    WellFormedPrefix(own, cb);
    BodyOfNext(own, cb);
    if own != [] && !Complete(own) {
      BodyEmptyIff(own);
    }
  }

  /** The message a complete request stands for. */
  ghost function OneShot(own: seq<Callback>): Publish
    requires WellFormed(own) && Complete(own)
  {
    assert IsFinal(own, |own| - 1);
    Message(Body(own), own[|own| - 1].url, own[|own| - 1].qos.value)
  }

  lemma StepPublishes(s: State, cb: Callback, own: seq<Callback>)
    requires s.Running? && cb.Posts()
    requires WellFormed(own) && Lookup(s, cb.req) == Remembered(own)
    requires WellFormed(own + [cb])
    ensures Step(s, cb).Running?
    ensures Step(s, cb).published ==
            s.published + if Complete(own + [cb]) then [OneShot(own + [cb])] else []
  {
    StepFollowsRequest(s, cb, own);
    WellFormedPrefix(own, cb);
    BodyOfNext(own, cb);
    assert cb.upload == "" ==> Body(own) + cb.upload == Body(own);
  }

  lemma StepKeepsOthers(s: State, cb: Callback, r: ReqId)
    requires Step(s, cb).Running? && (cb.req != r || !cb.Posts())
    ensures Lookup(Step(s, cb), r) == Lookup(s, r)
  {}

  /** Both halves of the characterisation at once: a run faults exactly when
      some request breaks the contract, and otherwise the machine's memory is
      what each request alone explains. */
  lemma {:induction false} RunFollowsRequests(cbs: seq<Callback>)
    ensures Run(cbs).Running? <==> AllWellFormed(cbs)
    ensures Run(cbs).Running? ==> Agrees(Run(cbs), cbs)
  {
    if cbs == [] {
      return;
    }
    var prev, cb := cbs[..|cbs| - 1], cbs[|cbs| - 1];
    var s := Run(prev);
    RunFollowsRequests(prev);
    forall r
      ensures WellFormed(Own(cbs, r)) ==> WellFormed(Own(prev, r))
    {
      OwnOfNext(cbs, r);
      WellFormedPrefix(Own(prev, r), cb);
    }
    if s.Running? {
      OwnOfNext(cbs, cb.req);
      if cb.Posts() {
        StepFollowsRequest(s, cb, Own(prev, cb.req));
      }
      forall r
        ensures cb.req != r || !cb.Posts() ==> Own(cbs, r) == Own(prev, r)
        ensures Run(cbs).Running? ==> Lookup(Run(cbs), r) == Remembered(Own(cbs, r))
      {
        OwnOfNext(cbs, r);
        if Run(cbs).Running? && (cb.req != r || !cb.Posts()) {
          StepKeepsOthers(s, cb, r);
        }
      }
      assert Run(cbs).Running? <==> WellFormed(Own(cbs, cb.req));
    }
  }

  /** Exactly when no callback reads a freed accumulator or a null pointer. */
  lemma NoFaultIff(cbs: seq<Callback>)
    ensures Run(cbs).Running? <==> AllWellFormed(cbs)
  {
    RunFollowsRequests(cbs);
  }

  /** The accumulators in existence are those opened and not finished. */
  lemma LiveAccumulators(cbs: seq<Callback>, r: ReqId)
    requires Run(cbs).Running?
    ensures r in Run(cbs).requests <==> Own(cbs, r) != []
    ensures Lookup(Run(cbs), r) == Some(Finished) <==> Complete(Own(cbs, r))
    ensures Own(cbs, r) != [] && !Complete(Own(cbs, r)) ==>
      Lookup(Run(cbs), r) == Some(Collecting(Body(Own(cbs, r))))
  {
    RunFollowsRequests(cbs);
  }

  // ----- interleavings

  lemma {:induction false} OwnOfOwn(cbs: seq<Callback>, r: ReqId, q: ReqId)
    requires forall i :: 0 <= i < |cbs| ==> cbs[i].req == r && cbs[i].Posts()
    ensures Own(cbs, q) == if q == r then cbs else []
  {
    if cbs != [] {
      OwnOfOwn(cbs[..|cbs| - 1], r, q);
    }
  }

  /** A complete request on its own publishes one message: its whole body, up
      to the first NUL, on its path. */
  lemma {:induction false} AloneRun(own: seq<Callback>, r: ReqId)
    requires forall i :: 0 <= i < |own| ==> own[i].req == r && own[i].Posts()
    requires WellFormed(own)
    ensures Run(own).Running?
    ensures Run(own).published == if Complete(own) then [OneShot(own)] else []
  {
    if own != [] {
      var prev, cb := own[..|own| - 1], own[|own| - 1];
      assert own == prev + [cb];
      WellFormedPrefix(prev, cb);
      AloneRun(prev, r);
      OwnOfOwn(prev, r, r);
      RunFollowsRequests(prev);
      assert Lookup(Run(prev), r) == Remembered(Own(prev, r));
      StepPublishes(Run(prev), cb, prev);
    }
  }

  /** The same in terms of the request: the path is one character and the
      topic; the payload is the upload up to its first NUL or its end; and the level
      is the number that the `qos` text begins with, so a printed one is itself. */
  lemma WhatOneRequestPublishes(own: seq<Callback>, r: ReqId, level: int)
    requires forall i :: 0 <= i < |own| ==> own[i].req == r && own[i].Posts()
    requires WellFormed(own) && Complete(own)
    ensures Run(own).Running? && |Run(own).published| == 1
    ensures Describes(Run(own).published[0], Body(own), own[|own| - 1].url, own[|own| - 1].qos)
    ensures own[|own| - 1].qos == Some(IntParsing.Decimal(level)) && IntParsing.INT_MIN <= level <= IntParsing.INT_MAX
      ==> Run(own).published[0].qos == level
  {
    AloneRun(own, r);
    assert IsFinal(own, |own| - 1);
    MessageDescribed(Body(own), own[|own| - 1].url, own[|own| - 1].qos.value);
    if IntParsing.INT_MIN <= level <= IntParsing.INT_MAX {
      IntParsing.PrintedIsParsed(level);
    }
  }

  ghost predicate Describes(m: Publish, body: string, url: CString, qos: Option<CString>) {
    && (exists c: char :: url == [c] + m.topic)
    && m.payload <= body && NulFree(m.payload)
    && (|m.payload| < |body| ==> body[|m.payload|] == NUL)
    && qos.Some? && IntParsing.Reads(qos.value, m.qos)
  }

  lemma MessageDescribed(body: string, url: CString, qos: CString)
    requires url != ""
    ensures Describes(Message(body, url, qos), body, url, Some(qos))
  {
    assert url == [url[0]] + url[1..];
    IntParsing.ParsedExactly(qos);
  }

  // ----- other verbs

  /** The callbacks whose verb is POST. */
  function PostsOnly(cbs: seq<Callback>): seq<Callback> {
    if cbs == [] then []
    else
      var last := cbs[|cbs| - 1];
      PostsOnly(cbs[..|cbs| - 1]) + if last.verb == "POST" then [last] else []
  }

  /** Callbacks with another verb leave no trace. */
  lemma {:induction false} OtherVerbsIgnored(cbs: seq<Callback>)
    ensures Run(cbs) == Run(PostsOnly(cbs))
  {
    if cbs != [] {
      var prev, cb := cbs[..|cbs| - 1], cbs[|cbs| - 1];
      OtherVerbsIgnored(prev);
      if cb.verb == "POST" {
        assert PostsOnly(cbs)[..|PostsOnly(prev)|] == PostsOnly(prev);
      } else {
        assert PostsOnly(cbs) == PostsOnly(prev);
      }
    }
  }

  /** Without a POST nothing is opened and nothing published. */
  lemma {:induction false} NoPostNothingDone(cbs: seq<Callback>)
    requires forall i :: 0 <= i < |cbs| ==> cbs[i].verb != "POST"
    ensures Run(cbs) == INITIAL
  {
    if cbs != [] {
      NoPostNothingDone(cbs[..|cbs| - 1]);
    }
  }

  /** The log of one request, run without the others. */
  function AloneLog(cbs: seq<Callback>, r: ReqId): seq<Publish> {
    var s := Run(Own(cbs, r));
    if s.Running? then s.published else []
  }

  /** The logs of the given requests, one after the other. */
  function AloneLogs(cbs: seq<Callback>, order: seq<ReqId>): seq<Publish> {
    if order == [] then []
    else AloneLogs(cbs, order[..|order| - 1]) + AloneLog(cbs, order[|order| - 1])
  }

  lemma AloneLogsOfNext(cbs: seq<Callback>, order: seq<ReqId>, r: ReqId)
    ensures AloneLogs(cbs, order + [r]) == AloneLogs(cbs, order) + AloneLog(cbs, r)
  {}

  lemma {:induction false} AloneLogsDependOnOwn(a: seq<Callback>, b: seq<Callback>, order: seq<ReqId>)
    requires forall i :: 0 <= i < |order| ==> Own(a, order[i]) == Own(b, order[i])
    ensures AloneLogs(a, order) == AloneLogs(b, order)
  {
    if order != [] {
      AloneLogsDependOnOwn(a, b, order[..|order| - 1]);
    }
  }

  lemma {:induction false} FinishedAreComplete(cbs: seq<Callback>)
    requires AllWellFormed(cbs)
    ensures forall i :: 0 <= i < |FinishOrder(cbs)| ==> Complete(Own(cbs, FinishOrder(cbs)[i]))
    ensures forall i, j :: 0 <= i < j < |FinishOrder(cbs)| ==> FinishOrder(cbs)[i] != FinishOrder(cbs)[j]
  {
    if cbs == [] {
      return;
    }
    var prev, cb := cbs[..|cbs| - 1], cbs[|cbs| - 1];
    forall r
      ensures WellFormed(Own(prev, r))
      ensures Complete(Own(prev, r)) ==> Own(cbs, r) == Own(prev, r) && (cb.Posts() ==> cb.req != r)
    {
      assert WellFormed(Own(cbs, r));
      OwnOfNext(cbs, r);
      WellFormedPrefix(Own(prev, r), cb);
    }
    FinishedAreComplete(prev);
  }

  /** Every interleaving refines independent requests: the published log is the
      finished requests' own logs, each computed from that request's callbacks
      alone, in the order in which they finished. */
  lemma {:induction false} RunRefinesIndependent(cbs: seq<Callback>)
    requires AllWellFormed(cbs)
    ensures Run(cbs).Running?
    ensures Run(cbs).published == AloneLogs(cbs, FinishOrder(cbs))
  {
    if cbs == [] {
      return;
    }
    var prev, cb := cbs[..|cbs| - 1], cbs[|cbs| - 1];
    RunFollowsRequests(cbs);
    RunFollowsRequests(prev);
    RunRefinesIndependent(prev);
    EarlierFinishersKeep(cbs);
    AloneLogsDependOnOwn(prev, cbs, FinishOrder(prev));
    if !cb.Posts() {
      assert FinishOrder(cbs) == FinishOrder(prev);
    } else {
      LastStepPublishes(cbs);
      if Complete(Own(cbs, cb.req)) {
        assert FinishOrder(cbs) == FinishOrder(prev) + [cb.req];
        AloneLogsOfNext(cbs, FinishOrder(prev), cb.req);
      } else {
        assert FinishOrder(cbs) == FinishOrder(prev);
      }
    }
  }

  lemma LastStepPublishes(cbs: seq<Callback>)
    requires cbs != [] && cbs[|cbs| - 1].Posts()
    requires AllWellFormed(cbs) && AllWellFormed(cbs[..|cbs| - 1])
    ensures var prev, r := cbs[..|cbs| - 1], cbs[|cbs| - 1].req;
      && Run(cbs).Running? && Run(prev).Running?
      && Run(cbs).published == Run(prev).published + if Complete(Own(cbs, r)) then AloneLog(cbs, r) else []
  {
    var prev, cb := cbs[..|cbs| - 1], cbs[|cbs| - 1];
    var own := Own(prev, cb.req);
    RunFollowsRequests(prev);
    OwnOfNext(cbs, cb.req);
    assert WellFormed(Own(cbs, cb.req)) && WellFormed(own);
    assert Lookup(Run(prev), cb.req) == Remembered(own);
    StepPublishes(Run(prev), cb, own);
    AloneRun(own + [cb], cb.req);
  }

  lemma EarlierFinishersKeep(cbs: seq<Callback>)
    requires cbs != [] && AllWellFormed(cbs) && AllWellFormed(cbs[..|cbs| - 1])
    ensures var prev := cbs[..|cbs| - 1];
      forall i :: 0 <= i < |FinishOrder(prev)| ==> Own(prev, FinishOrder(prev)[i]) == Own(cbs, FinishOrder(prev)[i])
  {
    var prev, cb := cbs[..|cbs| - 1], cbs[|cbs| - 1];
    var before := FinishOrder(prev);
    FinishedAreComplete(prev);
    forall i | 0 <= i < |before|
      ensures Own(prev, before[i]) == Own(cbs, before[i])
    {
      OwnOfNext(cbs, before[i]);
      assert WellFormed(Own(cbs, before[i]));
      WellFormedPrefix(Own(prev, before[i]), cb);
    }
  }

  // ----- the log, message by message

  /** The finishing order lists exactly the complete requests. */
  lemma {:induction false} FinishedIff(cbs: seq<Callback>, r: ReqId)
    requires AllWellFormed(cbs)
    ensures r in FinishOrder(cbs) <==> Complete(Own(cbs, r))
  {
    if cbs == [] {
      return;
    }
    var prev, cb := cbs[..|cbs| - 1], cbs[|cbs| - 1];
    forall q
      ensures WellFormed(Own(prev, q))
    {
      assert WellFormed(Own(cbs, q));
      OwnOfNext(cbs, q);
      WellFormedPrefix(Own(prev, q), cb);
    }
    FinishedIff(prev, r);
    OwnOfNext(cbs, r);
    WellFormedPrefix(Own(prev, r), cb);
    assert WellFormed(Own(cbs, r));
  }

  lemma OneMoreLog(cbs: seq<Callback>, order: seq<ReqId>, r: ReqId, m: Publish)
    ensures m in AloneLogs(cbs, order) ==> m in AloneLogs(cbs, order + [r])
    ensures m in AloneLog(cbs, r) ==> m in AloneLogs(cbs, order + [r])
  {
    AloneLogsOfNext(cbs, order, r);
  }

  lemma {:induction false} AloneLogsContain(cbs: seq<Callback>, order: seq<ReqId>, r: ReqId, m: Publish)
    requires r in order && m in AloneLog(cbs, r)
    ensures m in AloneLogs(cbs, order)
  {
    var before, last := order[..|order| - 1], order[|order| - 1];
    assert order == before + [last];
    OneMoreLog(cbs, before, last, m);
    if last != r {
      AloneLogsContain(cbs, before, r, m);
    }
  }

  /** What a request publishes alone, it publishes in any run that finishes it. */
  lemma CompleteIsPublished(cbs: seq<Callback>, r: ReqId)
    requires Run(cbs).Running? && Complete(Own(cbs, r))
    ensures WellFormed(Own(cbs, r)) && OneShot(Own(cbs, r)) in Run(cbs).published
  {
    NoFaultIff(cbs);
    assert WellFormed(Own(cbs, r));
    RunRefinesIndependent(cbs);
    FinishedIff(cbs, r);
    AloneRun(Own(cbs, r), r);
    AloneLogsContain(cbs, FinishOrder(cbs), r, OneShot(Own(cbs, r)));
  }

  /** The same upload, however it was cut into chunks. */
  ghost predicate SameRequest(a: seq<Callback>, b: seq<Callback>) {
    && WellFormed(a) && Complete(a) && WellFormed(b) && Complete(b)
    && Body(a) == Body(b)
    && a[|a| - 1].url == b[|b| - 1].url
    && a[|a| - 1].qos == b[|b| - 1].qos
  }

  lemma {:induction false} SameLogs(a: seq<Callback>, b: seq<Callback>, order: seq<ReqId>)
    requires forall i :: 0 <= i < |order| ==> SameRequest(Own(a, order[i]), Own(b, order[i]))
    ensures AloneLogs(a, order) == AloneLogs(b, order)
  {
    if order != [] {
      var r := order[|order| - 1];
      SameLogs(a, b, order[..|order| - 1]);
      assert SameRequest(Own(a, r), Own(b, r));
      AloneRun(Own(a, r), r);
      AloneRun(Own(b, r), r);
    }
  }

  /** Neither the interleaving nor the chunking shows in the log: two runs that
      finish the same requests in the same order publish the same messages. */
  lemma InterleavingAndChunkingIrrelevant(a: seq<Callback>, b: seq<Callback>)
    requires AllWellFormed(a) && AllWellFormed(b)
    requires FinishOrder(a) == FinishOrder(b)
    requires forall i :: 0 <= i < |FinishOrder(a)| ==>
      SameRequest(Own(a, FinishOrder(a)[i]), Own(b, FinishOrder(a)[i]))
    ensures Run(a).Running? && Run(b).Running?
    ensures Run(a).published == Run(b).published
  {
    RunRefinesIndependent(a);
    RunRefinesIndependent(b);
    SameLogs(a, b, FinishOrder(a));
  }
}
