/**
 The Swift client's response delegate: events arrive one at a time and change its fields; the callback
 is called through `Finish` alone. `Step` is the delegate on values, and `Outcome` says without any
 state what a whole sequence of events must deliver.
 */
module BoundedDelegate {
  import opened Bytes

  /** A response as the delegate sees it; `expectedLength` is negative when the server declares none. */
  datatype Response = Response(status: int, expectedLength: int)
  datatype Failure = InvalidResponse | TooLarge(limit: int) | Transport(code: int)
  datatype Result = Success(body: seq<Byte>, response: Response) | Error(failure: Failure)

  datatype Event =
    | Received(response: Option<Response>)   // None: a response that is not HTTP
    | Chunk(data: seq<Byte>)
    | Completed(error: Option<int>)

  datatype Limits = Limits(success: int, error: int)

  /** The fields of the delegate, with the results handed to the callback so far. */
  datatype State = State(body: seq<Byte>, response: Option<Response>, completed: bool, armed: bool,
                         delivered: seq<Result>)

  predicate Successful(r: Response) { 200 <= r.status < 300 }

  function LimitFor(l: Limits, r: Response): int {
    if Successful(r) then l.success else l.error
  }

  /** A successful response that declares more than the client will take. */
  predicate DeclaredTooLarge(l: Limits, r: Response) {
    Successful(r) && r.expectedLength >= 0 && r.expectedLength > l.success
  }

  const FRESH: State := State([], None, false, true, [])

  function Finished(s: State, r: Result): State {
    if s.completed then s
    else s.(completed := true, armed := false, delivered := if s.armed then s.delivered + [r] else s.delivered)
  }

  function Step(l: Limits, s: State, e: Event): State {
    match e
    case Received(None) => Finished(s, Error(InvalidResponse))
    case Received(Some(r)) =>
      var t := s.(response := Some(r));
      if DeclaredTooLarge(l, r)
      then Finished(t, Error(TooLarge(l.success))) else t
    case Chunk(data) =>
      if s.completed || s.response.None? then s
      else
        var limit := LimitFor(l, s.response.value);
        var remaining := Max(0, limit - |s.body|);
        if |data| <= remaining then s.(body := s.body + data)
        else
          var t := s.(body := s.body + data[..remaining]);
          Finished(t, if Successful(s.response.value) then Error(TooLarge(limit))
                   else Success(t.body, s.response.value))
    case Completed(error) =>
      if s.completed then s
      else Finished(s, if error.Some? then Error(Transport(error.value))
                       else if s.response.Some? then Success(s.body, s.response.value) else Error(InvalidResponse))
  }

  function Run(l: Limits, s: State, events: seq<Event>): State
    decreases |events|
  {
    if events == [] then s else Step(l, Run(l, s, events[..|events| - 1]), events[|events| - 1])
  }

  /** The object whose methods are the URL session's callbacks. */
  class Delegate {
    const limits: Limits
    var body: seq<Byte>
    var response: Option<Response>
    var completed: bool
    var armed: bool
    var delivered: seq<Result>

    function Value(): State
      reads this
    {
      State(body, response, completed, armed, delivered)
    }

    constructor (limits: Limits)
      ensures this.limits == limits && Value() == FRESH
    {
      this.limits := limits;
      body, response, completed, armed, delivered := [], None, false, true, [];
    }

    method DidReceiveResponse(received: Option<Response>) returns (allow: bool)
      modifies this
      ensures Value() == Step(limits, old(Value()), Received(received))
      ensures allow <==> received.Some? && !DeclaredTooLarge(limits, received.value)
      ensures !allow ==> completed
    {
      if received.None? {
        allow := false;
        Finish(Error(InvalidResponse));
        return;
      }
      var http := received.value;
      response := Some(http);
      var successful := 200 <= http.status < 300;
      if successful && http.expectedLength >= 0 && http.expectedLength > limits.success {
        allow := false;
        Finish(Error(TooLarge(limits.success)));
        return;
      }
      allow := true;
    }

    method DidReceiveChunk(chunk: seq<Byte>) returns (cancel: bool)
      modifies this
      ensures Value() == Step(limits, old(Value()), Chunk(chunk))
      ensures cancel <==> completed && !old(completed)
    {
      cancel := false;
      if completed || response.None? {
        return;
      }
      var successful := 200 <= response.value.status < 300;
      var limit := if successful then limits.success else limits.error;
      var remaining := if limit - |body| > 0 then limit - |body| else 0;
      if |chunk| <= remaining {
        body := body + chunk;
        return;
      }
      if remaining > 0 {
        body := body + chunk[..remaining];
      } else {
        assert body == body + chunk[..remaining];
      }
      cancel := true;
      if successful {
        Finish(Error(TooLarge(limit)));
      } else {
        Finish(Success(body, response.value));
      }
    }

    method DidComplete(error: Option<int>)
      modifies this
      ensures Value() == Step(limits, old(Value()), Completed(error))
    {
      if completed {
        return;
      }
      if error.Some? {
        Finish(Error(Transport(error.value)));
      } else if response.Some? {
        Finish(Success(body, response.value));
      } else {
        Finish(Error(InvalidResponse));
      }
    }

    /** The callback is taken out before it is called, and never called again. */
    method Finish(result: Result)
      modifies this
      ensures Value() == Finished(old(Value()), result)
    {
      if completed {
        return;
      }
      completed := true;
      var callback := armed;
      armed := false;
      if callback {
        delivered := delivered + [result];
      }
    }
  }

  // ----- What a sequence of events must deliver, said without the state -----

  /** The (last) HTTP response among the events. */
  function ResponseOf(events: seq<Event>): Option<Response> {
    if events == [] then None
    else var e := events[|events| - 1];
      if e.Received? && e.response.Some? then e.response else ResponseOf(events[..|events| - 1])
  }

  /** The bytes of the chunks that come after a response. */
  function StreamOf(events: seq<Event>): seq<Byte> {
    if events == [] then []
    else var before := events[..|events| - 1];
      var e := events[|events| - 1];
      if e.Chunk? && ResponseOf(before).Some? then StreamOf(before) + e.data else StreamOf(before)
  }

  function Responses(events: seq<Event>): nat {
    if events == [] then 0
    else Responses(events[..|events| - 1]) + if events[|events| - 1].Received? then 1 else 0
  }

  /** The last of `events` ends the exchange, if nothing before it did. */
  predicate Decisive(l: Limits, events: seq<Event>)
    requires events != []
  {
    match events[|events| - 1]
    case Received(None) => true
    case Received(Some(r)) => DeclaredTooLarge(l, r)
    case Chunk(_) =>
      var r := ResponseOf(events);
      r.Some? && |StreamOf(events)| > Max(0, LimitFor(l, r.value))
    case Completed(_) => true
  }

  /** What ending the exchange there delivers. */
  function Outcome(l: Limits, events: seq<Event>): Result
    requires events != []
  {
    var r := ResponseOf(events);
    match events[|events| - 1]
    case Received(None) => Error(InvalidResponse)
    case Received(Some(_)) => Error(TooLarge(l.success))
    case Chunk(_) =>
      if r.None? then Error(InvalidResponse)
      else if Successful(r.value) then Error(TooLarge(l.success)) else Success(Take(l.error, StreamOf(events)), r.value)
    case Completed(Some(code)) => Error(Transport(code))
    case Completed(None) =>
      if r.None? then Error(InvalidResponse) else Success(StreamOf(events), r.value)
  }

  /** Event `j` would end the exchange. */
  predicate Ends(l: Limits, events: seq<Event>, j: nat) {
    j < |events| && Decisive(l, events[..j + 1])
  }

  /** The first event that ends the exchange. */
  ghost predicate Decides(l: Limits, events: seq<Event>, k: nat) {
    Ends(l, events, k) && forall j: nat :: j < k ==> !Ends(l, events, j)
  }

  ghost predicate Undecided(l: Limits, events: seq<Event>) {
    forall j: nat :: !Ends(l, events, j)
  }

  // ----- The delegate delivers it -----

  lemma {:induction false} ResponseZero(events: seq<Event>)
    ensures Responses(events) == 0 ==> ResponseOf(events).None?
  {
    if events != [] {
      ResponseZero(events[..|events| - 1]);
    }
  }

  lemma {:induction false} NoResponseNoStream(events: seq<Event>)
    ensures ResponseOf(events).None? ==> StreamOf(events) == []
  {
    if events != [] {
      NoResponseNoStream(events[..|events| - 1]);
    }
  }

  /**
   While nothing has ended the exchange the delegate holds the response and the whole stream, which is within
   the limit.
   */
  lemma {:induction false} Open(l: Limits, events: seq<Event>)
    requires Responses(events) <= 1 && Undecided(l, events)
    ensures Run(l, FRESH, events) == State(StreamOf(events), ResponseOf(events), false, true, [])
    ensures ResponseOf(events).Some? ==> |StreamOf(events)| <= Max(0, LimitFor(l, ResponseOf(events).value))
  {
    if events != [] {
      var before, e := events[..|events| - 1], events[|events| - 1];
      UndecidedPrefix(l, events, |events| - 1);
      ResponsesMonotone(events, |events| - 1);
      Open(l, before);
      ResponseZero(before);
      NoResponseNoStream(before);
      assert events == before + [e] == events[..|events| - 1 + 1];
      assert !Ends(l, events, |events| - 1);
      OpenStep(l, before, e);
    }
  }

  lemma OpenStep(l: Limits, before: seq<Event>, e: Event)
    requires !Decisive(l, before + [e]) && Responses(before + [e]) <= 1
    requires Responses(before) == 0 ==> ResponseOf(before).None?
    requires ResponseOf(before).None? ==> StreamOf(before) == []
    requires ResponseOf(before).Some? ==> |StreamOf(before)| <= Max(0, LimitFor(l, ResponseOf(before).value))
    ensures var now := before + [e];
            && Step(l, State(StreamOf(before), ResponseOf(before), false, true, []), e)
               == State(StreamOf(now), ResponseOf(now), false, true, [])
            && (ResponseOf(now).Some? ==> |StreamOf(now)| <= Max(0, LimitFor(l, ResponseOf(now).value)))
  {
    var now := before + [e];
    assert now[..|now| - 1] == before && now[|now| - 1] == e;
  }

  lemma UndecidedPrefix(l: Limits, events: seq<Event>, n: nat)
    requires n <= |events| && forall j: nat :: j < n ==> !Ends(l, events, j)
    ensures Undecided(l, events[..n])
  {
    forall j: nat
      ensures !Ends(l, events[..n], j)
    {
      if j < n {
        assert events[..n][..j + 1] == events[..j + 1];
        assert !Ends(l, events, j);
      }
    }
  }

  lemma {:induction false} ResponsesMonotone(events: seq<Event>, n: nat)
    requires n <= |events|
    ensures Responses(events[..n]) <= Responses(events)
    decreases |events| - n
  {
    if n == |events| {
      assert events[..n] == events;
    } else {
      ResponsesMonotone(events, n + 1);
      assert events[..n + 1][..n] == events[..n];
    }
  }

  lemma Deciding(l: Limits, events: seq<Event>, k: nat)
    requires Responses(events) <= 1 && Decides(l, events, k)
    ensures Run(l, FRESH, events[..k + 1]).completed
    ensures Run(l, FRESH, events[..k + 1]).delivered == [Outcome(l, events[..k + 1])]
  {
    var now := events[..k + 1];
    var before := events[..k];
    assert now[..|now| - 1] == before && now[|now| - 1] == events[k];
    ResponsesMonotone(events, k);
    ResponsesMonotone(events, k + 1);
    UndecidedPrefix(l, events, k);
    Open(l, before);
    ResponseZero(before);
    NoResponseNoStream(before);
    DecidingStep(l, before, events[k]);
    assert now == before + [events[k]];
  }

  lemma DecidingStep(l: Limits, before: seq<Event>, e: Event)
    requires Decisive(l, before + [e]) && Responses(before + [e]) <= 1
    requires ResponseOf(before).Some? ==> |StreamOf(before)| <= Max(0, LimitFor(l, ResponseOf(before).value))
    requires ResponseOf(before).None? ==> StreamOf(before) == []
    ensures var s := Step(l, State(StreamOf(before), ResponseOf(before), false, true, []), e);
            s.completed && s.delivered == [Outcome(l, before + [e])]
  {
    var now := before + [e];
    assert now[..|now| - 1] == before && now[|now| - 1] == e;
    if e.Chunk? {
      var limit := LimitFor(l, ResponseOf(before).value);
      var stream := StreamOf(before);
      var remaining := Max(0, limit - |stream|);
      assert Take(limit, stream + e.data) == stream + e.data[..remaining];
    }
  }

  /** Once completed, nothing is delivered any more. */
  lemma {:induction false} Closed(l: Limits, events: seq<Event>, n: nat)
    requires n <= |events| && Run(l, FRESH, events[..n]).completed
    ensures Run(l, FRESH, events).completed
    ensures Run(l, FRESH, events).delivered == Run(l, FRESH, events[..n]).delivered
    decreases |events| - n
  {
    if n == |events| {
      assert events[..n] == events;
    } else {
      assert events[..n + 1][..n] == events[..n];
      Closed(l, events, n + 1);
    }
  }

  /**
   Over every sequence of events with at most one response the callback is called once, with the
   outcome of the first decisive event, or not at all when there is none.
   */
  lemma DeliversTheOutcome(l: Limits, events: seq<Event>)
    requires Responses(events) <= 1
    ensures Undecided(l, events) ==> Run(l, FRESH, events).delivered == []
    ensures forall k: nat :: Decides(l, events, k) ==> Run(l, FRESH, events).delivered == [Outcome(l, events[..k + 1])]
    ensures Undecided(l, events) || exists k: nat :: Decides(l, events, k)
    ensures (exists i :: 0 <= i < |events| && events[i].Completed?) ==> |Run(l, FRESH, events).delivered| == 1
  {
    forall k: nat | Decides(l, events, k)
      ensures Run(l, FRESH, events).delivered == [Outcome(l, events[..k + 1])]
    {
      Deciding(l, events, k);
      Closed(l, events, k + 1);
    }
    forall i | 0 <= i < |events| && events[i].Completed?
      ensures Ends(l, events, i)
    {
      assert events[..i + 1][|events[..i + 1]| - 1] == events[i];
    }
    if Undecided(l, events) {
      Open(l, events);
    } else {
      var last: nat :| Ends(l, events, last);
      var k := FirstDecision(l, events, 0, last);
    }
  }

  lemma FirstDecision(l: Limits, events: seq<Event>, from: nat, last: nat) returns (k: nat)
    requires from <= last && Ends(l, events, last)
    requires forall j: nat :: j < from ==> !Ends(l, events, j)
    ensures Decides(l, events, k)
    decreases last - from
  {
    if Ends(l, events, from) {
      k := from;
    } else {
      k := FirstDecision(l, events, from + 1, last);
    }
  }

  /** The callback is called at most once over every sequence of events, with any number of responses. */
  lemma {:induction false} AtMostOnce(l: Limits, events: seq<Event>)
    ensures var s := Run(l, FRESH, events);
            |s.delivered| <= 1 && (s.completed <==> |s.delivered| == 1) && (s.armed <==> !s.completed)
  {
    if events != [] {
      AtMostOnce(l, events[..|events| - 1]);
    }
  }

  // ----- One ordinary exchange, cut into chunks in any way -----

  function Chunks(chunks: seq<seq<Byte>>): seq<Event> {
    seq(|chunks|, i requires 0 <= i < |chunks| => Chunk(chunks[i]))
  }

  function Exchange(r: Response, chunks: seq<seq<Byte>>): seq<Event> {
    [Received(Some(r))] + Chunks(chunks) + [Completed(None)]
  }

  /** What the exchange is meant to deliver: a function of the byte stream alone. */
  function Meant(l: Limits, r: Response, stream: seq<Byte>): Result {
    if 200 <= r.status <= 299 then
      if (|stream| > 0 && |stream| > l.success) || (r.expectedLength >= 0 && r.expectedLength > l.success)
      then Error(TooLarge(l.success))
      else Success(stream, r)
    else if |stream| <= l.error then Success(stream, r)
    else if l.error > 0 then Success(stream[..l.error], r)
    else Success([], r)
  }

  function Started(r: Response, chunks: seq<seq<Byte>>): seq<Event> {
    [Received(Some(r))] + Chunks(chunks)
  }

  lemma {:induction false} AfterChunks(l: Limits, r: Response, chunks: seq<seq<Byte>>)
    ensures var s := Run(l, FRESH, Started(r, chunks));
            var limit := Max(0, LimitFor(l, r));
            var stream := Flatten(chunks);
            && s.response == Some(r)
            && (DeclaredTooLarge(l, r) ==>
                  s.completed && s.delivered == [Error(TooLarge(l.success))])
            && (!DeclaredTooLarge(l, r) ==>
                  if |stream| <= limit then s == State(stream, Some(r), false, true, [])
                  else s.completed && s.delivered == [Meant(l, r, stream)])
  {
    var events := Started(r, chunks);
    if chunks == [] {
      assert events == [Received(Some(r))];
      assert events[..0] == [];
      assert Run(l, FRESH, []) == FRESH;
    } else {
      var n := |chunks| - 1;
      var before := chunks[..n];
      assert chunks == before + [chunks[n]];
      assert Chunks(chunks) == Chunks(before) + [Chunk(chunks[n])];
      assert events[..|events| - 1] == Started(r, before);
      assert events[|events| - 1] == Chunk(chunks[n]);
      AfterChunks(l, r, before);
      FlattenSnoc(before, chunks[n]);
      ChunkStep(l, r, Run(l, FRESH, Started(r, before)), Flatten(before), chunks[n]);
    }
  }

  lemma ChunkStep(l: Limits, r: Response, s: State, stream: seq<Byte>, data: seq<Byte>)
    requires !DeclaredTooLarge(l, r) && s.response == Some(r) ==>
      if |stream| <= Max(0, LimitFor(l, r)) then s == State(stream, Some(r), false, true, [])
      else s.completed && s.delivered == [Meant(l, r, stream)]
    ensures !DeclaredTooLarge(l, r) && s.response == Some(r) ==>
      var t := Step(l, s, Chunk(data));
      if |stream + data| <= Max(0, LimitFor(l, r)) then t == State(stream + data, Some(r), false, true, [])
      else t.completed && t.delivered == [Meant(l, r, stream + data)]
  {
    var limit := LimitFor(l, r);
    var remaining := Max(0, limit - |stream|);
    if |stream| <= Max(0, limit) < |stream + data| {
      assert Take(limit, stream + data) == stream + data[..remaining];
    } else if Max(0, limit) < |stream| {
      assert Take(limit, stream + data) == Take(limit, stream);
    }
  }

  /** However the stream is cut into chunks, the exchange delivers the same result once. */
  lemma ChunkingIsInvisible(l: Limits, r: Response, chunks: seq<seq<Byte>>)
    ensures Run(l, FRESH, Exchange(r, chunks)).delivered == [Meant(l, r, Flatten(chunks))]
  {
    var events := Exchange(r, chunks);
    assert events[..|events| - 1] == Started(r, chunks);
    AfterChunks(l, r, chunks);
    var stream := Flatten(chunks);
    assert |stream| <= Max(0, l.error) ==> Take(l.error, stream) == stream;
  }
}
