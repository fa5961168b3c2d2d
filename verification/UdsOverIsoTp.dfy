/** Diagnostic requests carried by ISO-TP reach the server as if they had been handed to it directly. */
module UdsOverIsoTp {
  import opened Bytes
  import opened IsoTp
  import opened IsoTpStreams
  import opened Uds
  import opened UdsEndpoint
  import Tp = IsoTpTheorems
  import History = UdsHistory

  // ---------------------------------------------------------------------------
  // A server behind a link
  // ---------------------------------------------------------------------------

  /** What reaches the gateway: CAN payloads and clock ticks. */
  datatype Wire = Payload(frame: Frame) | Clock

  /** A link in front of the server: a completed message is handled at once. */
  datatype Gateway<D> = Gateway(link: Link, endpoint: Endpoint<D>)

  function Receive<D>(p: DataProvider<D>, g: Gateway<D>, w: Wire): Gateway<D> {
    match w
    case Clock => g.(endpoint := Elapse(g.endpoint))
    case Payload(frame) =>
      var fed := FeedFrame(g.link, frame);
      Gateway(fed.link, if fed.result.Completes() then Serve(p, g.endpoint, fed.result.event.message) else g.endpoint)
  }

  function Run<D>(p: DataProvider<D>, g: Gateway<D>, ws: seq<Wire>): Gateway<D> {
    if ws == [] then g else Receive(p, Run(p, g, ws[..|ws| - 1]), ws[|ws| - 1])
  }

  function Payloads(fs: seq<Frame>): (ws: seq<Wire>)
    ensures |ws| == |fs| && forall i :: 0 <= i < |fs| ==> ws[i] == Payload(fs[i])
  {
    seq(|fs|, i requires 0 <= i < |fs| => Payload(fs[i]))
  }

  lemma {:induction false} RunConcat<D>(p: DataProvider<D>, g: Gateway<D>, a: seq<Wire>, b: seq<Wire>)
    ensures Run(p, g, a + b) == Run(p, Run(p, g, a), b)
    decreases |b|
  {
    if b == [] {
      assert a + b == a;
    } else {
      var n := |b| - 1;
      assert (a + b)[..|a + b| - 1] == a + b[..n];
      RunConcat(p, g, a, b[..n]);
    }
  }

  /** The CAN payloads of what reaches the gateway. */
  function FramesOn(ws: seq<Wire>): seq<Frame> {
    if ws == [] then []
    else
      var before := FramesOn(ws[..|ws| - 1]);
      match ws[|ws| - 1]
      case Payload(frame) => before + [frame]
      case Clock => before
  }

  /** What the server behind link `l` gets to see: the clock ticks, and each completed message where it is completed. */
  function EventsOn(l: Link, ws: seq<Wire>): seq<History.Event> {
    if ws == [] then []
    else
      var pre := ws[..|ws| - 1];
      match ws[|ws| - 1]
      case Clock => EventsOn(l, pre) + [History.Tick]
      case Payload(frame) =>
        var result := FeedFrame(Tp.Run(l, FramesOn(pre)), frame).result;
        if result.Completes() then EventsOn(l, pre) + [History.Request(result.event.message)] else EventsOn(l, pre)
  }

  /**
    * Whatever frames and clock ticks arrive, in whatever order, the server is where it would be if just the
    * messages that the link completes and the ticks had been handed to it directly.
    */
  lemma {:induction false} GatewayServes<D>(p: DataProvider<D>, g: Gateway<D>, ws: seq<Wire>)
    ensures Run(p, g, ws) == Gateway(Tp.Run(g.link, FramesOn(ws)), Direct(p, g.endpoint, EventsOn(g.link, ws)))
    decreases |ws|
  {
    hide FeedFrame;
    if ws != [] {
      var pre, last := ws[..|ws| - 1], ws[|ws| - 1];
      GatewayServes(p, g, pre);
      match last
      case Clock =>
        DirectOneMore(p, g.endpoint, EventsOn(g.link, pre), History.Tick);
      case Payload(frame) =>
        Tp.RunStep(g.link, FramesOn(pre), frame);
        var result := FeedFrame(Tp.Run(g.link, FramesOn(pre)), frame).result;
        if result.Completes() {
          DirectOneMore(p, g.endpoint, EventsOn(g.link, pre), History.Request(result.event.message));
        }
    }
  }

  /** The requests among those events are the link's completions. */
  lemma {:induction false} EventsAreCompletions(l: Link, ws: seq<Wire>)
    ensures RequestsIn(EventsOn(l, ws)) == Tp.Completions(l, FramesOn(ws))
    decreases |ws|
  {
    hide FeedFrame;
    if ws != [] {
      var pre, last := ws[..|ws| - 1], ws[|ws| - 1];
      EventsAreCompletions(l, pre);
      match last
      case Clock =>
        RequestsInOneMore(EventsOn(l, pre), History.Tick);
      case Payload(frame) =>
        Tp.CompletionsStep(l, FramesOn(pre), frame);
        var result := FeedFrame(Tp.Run(l, FramesOn(pre)), frame).result;
        if result.Completes() {
          RequestsInOneMore(EventsOn(l, pre), History.Request(result.event.message));
        }
    }
  }

  function Ticks(ws: seq<Wire>): nat {
    if ws == [] then 0 else Ticks(ws[..|ws| - 1]) + if ws[|ws| - 1].Clock? then 1 else 0
  }

  lemma {:induction false} FramesOnPayloads(fs: seq<Frame>)
    ensures FramesOn(Payloads(fs)) == fs && Ticks(Payloads(fs)) == 0
    decreases |fs|
  {
    if fs != [] {
      var m := |fs| - 1;
      assert Payloads(fs)[..m] == Payloads(fs[..m]);
      FramesOnPayloads(fs[..m]);
      assert fs == fs[..m] + [fs[m]];
    }
  }

  /** Without clock ticks the events are the requests alone. */
  lemma {:induction false} NoTicks(l: Link, ws: seq<Wire>)
    requires Ticks(ws) == 0
    ensures EventsOn(l, ws) == AsEvents(RequestsIn(EventsOn(l, ws)))
    decreases |ws|
  {
    hide FeedFrame;
    if ws != [] {
      var pre, last := ws[..|ws| - 1], ws[|ws| - 1];
      NoTicks(l, pre);
      if last.Payload? {
        var result := FeedFrame(Tp.Run(l, FramesOn(pre)), last.frame).result;
        if result.Completes() {
          RequestsInOneMore(EventsOn(l, pre), History.Request(result.event.message));
        }
      }
    }
  }

  /** The requests, with no ticks between them. */
  function AsEvents(requests: seq<seq<byte>>): (h: seq<History.Event>)
    ensures |h| == |requests| && forall i :: 0 <= i < |h| ==> h[i] == History.Request(requests[i])
  {
    seq(|requests|, i requires 0 <= i < |requests| => History.Request(requests[i]))
  }

  /** So frames alone hand the link's completions to the server, one after another. */
  lemma FramesServe<D>(p: DataProvider<D>, g: Gateway<D>, fs: seq<Frame>)
    ensures Run(p, g, Payloads(fs)) ==
            Gateway(Tp.Run(g.link, fs), Direct(p, g.endpoint, AsEvents(Tp.Completions(g.link, fs))))
  {
    GatewayServes(p, g, Payloads(fs));
    FramesOnPayloads(fs);
    EventsAreCompletions(g.link, Payloads(fs));
    NoTicks(g.link, Payloads(fs));
  }

  lemma ServeOne<D>(p: DataProvider<D>, e: Endpoint<D>, request: seq<byte>)
    ensures Direct(p, e, AsEvents([request])) == Serve(p, e, request)
    ensures Direct(p, e, AsEvents([])) == e
  {
    assert AsEvents([request])[..0] == [];
  }

  // ---------------------------------------------------------------------------
  // Lossy channels
  // ---------------------------------------------------------------------------

  /** A request of which some frames are lost and some repeated: carried out as often as it arrives. */
  lemma LossyRequest<D>(p: DataProvider<D>, g: Gateway<D>, framing: Framing, request: seq<byte>, ks: seq<nat>)
    requires |request| <= ISOTP_MAX_MESSAGE && |request| <= |g.link.buf|
    requires Tp.InOrder(ks) && forall i :: 0 <= i < |ks| ==> ks[i] < FrameCount(|request|)
    requires Tp.StartsAfresh(g.link.receiving, ks)
    ensures Run(p, g, Payloads(framing.Sent(request, ks))).endpoint ==
            Direct(p, g.endpoint, AsEvents(Tp.Repeat(request, framing.Arrivals(|request|, ks))))
    ensures Run(p, g, Payloads(framing.Sent(request, ks))).link.receiving <==>
            framing.LeavesOpen(g.link.receiving, |request|, ks)
  {
    FramesServe(p, g, framing.Sent(request, ks));
    LossyFraming(framing, g.link, request, ks);
  }

  /**
    * Request after request, with clock ticks anywhere, also between the frames of one: those that get through
    * are carried out, in order, and no others are, and every tick counts where it falls.
    */
  lemma LossyRequests<D>(p: DataProvider<D>, g: Gateway<D>, framing: Framing, ds: seq<Delivery>, ws: seq<Wire>)
    requires AllValid(|g.link.buf|, ds) && Separated(framing, g.link.receiving, ds)
    requires FramesOn(ws) == Stream(framing, |g.link.buf|, ds)
    ensures Run(p, g, ws).endpoint == Direct(p, g.endpoint, EventsOn(g.link, ws))
    ensures RequestsIn(EventsOn(g.link, ws)) == Arriving(framing, ds)
    ensures Run(p, g, ws).link.receiving <==> StaysOpen(framing, g.link.receiving, ds)
  {
    GatewayServes(p, g, ws);
    EventsAreCompletions(g.link, ws);
    LossyStream(framing, g.link, ds);
  }

  // ---------------------------------------------------------------------------
  // Transport without loss
  // ---------------------------------------------------------------------------

  /** The requests that a link of capacity `n` has room for. */
  predicate Sendable(n: nat, h: seq<History.Event>) {
    forall k :: 0 <= k < |h| && h[k].Request? ==> |h[k].bytes| <= ISOTP_MAX_MESSAGE && |h[k].bytes| <= n
  }

  /** The event of `h` at `k` is a tick, or a request that its frames carry. */
  predicate GetsThrough(framing: Framing, e: History.Event) {
    e.Request? ==> framing.Carries(|e.bytes|)
  }

  /** `h` without the requests that do not get through. */
  function Through(framing: Framing, h: seq<History.Event>): seq<History.Event> {
    if h == [] then []
    else
      var m := |h| - 1;
      var before := Through(framing, h[..m]);
      if GetsThrough(framing, h[m]) then before + [h[m]] else before
  }

  /** The events of `h` on the wire, every request as its frames. */
  function OnWire(framing: Framing, h: seq<History.Event>, n: nat): seq<Wire>
    requires Sendable(n, h)
  {
    if h == [] then []
    else
      OnWire(framing, h[..|h| - 1], n) +
      match h[|h| - 1]
      case Request(bytes) => Payloads(framing.AllFrames(bytes))
      case Tick => [Clock]
  }

  /** One request, complete and in order, to a link in any state. */
  lemma RequestOverWire<D>(p: DataProvider<D>, g: Gateway<D>, framing: Framing, request: seq<byte>)
    requires |request| <= ISOTP_MAX_MESSAGE && |request| <= |g.link.buf|
    ensures Run(p, g, Payloads(framing.AllFrames(request))).endpoint ==
            if framing.Carries(|request|) then Serve(p, g.endpoint, request) else g.endpoint
    ensures |Run(p, g, Payloads(framing.AllFrames(request))).link.buf| == |g.link.buf|
  {
    FramesServe(p, g, framing.AllFrames(request));
    ServeOne(p, g.endpoint, request);
    match framing
    case CutOff => Tp.TrimmedCompletions(g.link, request);
    case ZeroPadded => Tp.PaddedRoundTripExactly(g.link, request);
  }

  /** Its frames but the last leave the server alone. */
  lemma FramesInFlight<D>(p: DataProvider<D>, g: Gateway<D>, request: seq<byte>, i: nat)
    requires 1 <= |request| <= ISOTP_MAX_MESSAGE && |request| <= |g.link.buf| && i < FrameCount(|request|)
    ensures Run(p, g, Payloads(Tp.Frames(request)[..i])).endpoint == g.endpoint
  {
    var all := Tp.Frames(request);
    var fs := all[..i];
    forall k | 0 <= k < i ensures !Tp.CompletesAt(g.link, fs, k) {
      assert fs[..k] == all[..k];
      Tp.TrimmedRoundTrip(g.link, request, k);
    }
    Tp.NoCompletions(g.link, fs);
    FramesServe(p, g, fs);
    ServeOne(p, g.endpoint, request);
  }

  /**
    * Requests and ticks sent over the wire leave the same responses and the same server as those that get
    * through, handed over directly. This includes what a request that did not get through left on the link.
    */
  lemma {:induction false} TransportExactly<D>(
    p: DataProvider<D>, g: Gateway<D>, framing: Framing, h: seq<History.Event>)
    requires Sendable(|g.link.buf|, h)
    ensures Run(p, g, OnWire(framing, h, |g.link.buf|)).endpoint == Direct(p, g.endpoint, Through(framing, h))
    ensures |Run(p, g, OnWire(framing, h, |g.link.buf|)).link.buf| == |g.link.buf|
    decreases |h|
  {
    hide Framing.Carries;
    if h != [] {
      var n, m := |g.link.buf|, |h| - 1;
      var pre, last := h[..m], h[m];
      TransportExactly(p, g, framing, pre);
      var before := Run(p, g, OnWire(framing, pre, n));
      DirectOneMore(p, g.endpoint, Through(framing, pre), last);
      match last
      case Tick =>
        RunConcat(p, g, OnWire(framing, pre, n), [Clock]);
        assert [Clock][..0] == [];
      case Request(bytes) =>
        RunConcat(p, g, OnWire(framing, pre, n), Payloads(framing.AllFrames(bytes)));
        RequestOverWire(p, before, framing, bytes);
    }
  }

  ghost predicate AllGetThrough(framing: Framing, h: seq<History.Event>) {
    forall k :: 0 <= k < |h| ==> GetsThrough(framing, h[k])
  }

  lemma AllGetThroughStep(framing: Framing, h: seq<History.Event>, last: History.Event)
    ensures AllGetThrough(framing, h + [last]) <==> AllGetThrough(framing, h) && GetsThrough(framing, last)
    ensures GetsThrough(framing, last) || last.Request?
  {
    hide Framing.Carries;
    var all := h + [last];
    assert all[|h|] == last && forall k :: 0 <= k < |h| ==> all[k] == h[k];
    if AllGetThrough(framing, all) {
      forall k | 0 <= k < |h| ensures GetsThrough(framing, h[k]) {
        assert GetsThrough(framing, all[k]);
      }
    }
  }

  lemma ThroughStep(framing: Framing, h: seq<History.Event>, last: History.Event)
    ensures Through(framing, h + [last]) ==
            if GetsThrough(framing, last) then Through(framing, h) + [last] else Through(framing, h)
  {
    hide GetsThrough;
    assert (h + [last])[..|h|] == h;
  }

  /** No more requests get through than there are, as many only if all do, and then nothing changes. */
  ghost predicate LossesShow(framing: Framing, h: seq<History.Event>) {
    && |RequestsIn(Through(framing, h))| <= |RequestsIn(h)|
    && (|RequestsIn(Through(framing, h))| == |RequestsIn(h)| <==> AllGetThrough(framing, h))
    && (AllGetThrough(framing, h) ==> Through(framing, h) == h)
  }

  lemma LossesStep(framing: Framing, h: seq<History.Event>, last: History.Event)
    requires LossesShow(framing, h)
    ensures LossesShow(framing, h + [last])
  {
    AllGetThroughStep(framing, h, last);
    ThroughStep(framing, h, last);
    RequestsInOneMore(h, last);
    RequestsInOneMore(Through(framing, h), last);
    hide AllGetThrough, GetsThrough, RequestsIn, Through;
  }

  /** Requests are lost exactly when some request does not get through. */
  lemma {:induction false} LossesExactly(framing: Framing, h: seq<History.Event>)
    ensures LossesShow(framing, h)
    decreases |h|
  {
    if h != [] {
      var m := |h| - 1;
      LossesExactly(framing, h[..m]);
      LossesStep(framing, h[..m], h[m]);
      assert h == h[..m] + [h[m]];
    }
  }

  /**
    * The transport is transparent if and only if every request has a length that its frames carry: any
    * length but 0 when they are cut off, 1 to 7 or a full last frame when they are padded.
    */
  lemma TransparentExactly<D>(p: DataProvider<D>, g: Gateway<D>, framing: Framing, h: seq<History.Event>)
    requires Sendable(|g.link.buf|, h) && !g.endpoint.Stopped() && |g.endpoint.buffer| >= 10
    ensures Run(p, g, OnWire(framing, h, |g.link.buf|)).endpoint == Direct(p, g.endpoint, h) <==>
            AllGetThrough(framing, h)
  {
    hide Direct, Run, OnWire, Through, RequestsIn, AllGetThrough;
    TransportExactly(p, g, framing, h);
    LossesExactly(framing, h);
    EveryRequestIsAnswered(p, g.endpoint, h);
    EveryRequestIsAnswered(p, g.endpoint, Through(framing, h));
  }

  /** Trimmed frames carry every request that is not empty, so they give what handing it over directly gives. */
  lemma TransportIsTransparent<D>(p: DataProvider<D>, g: Gateway<D>, h: seq<History.Event>)
    requires Sendable(|g.link.buf|, h) && forall k :: 0 <= k < |h| && h[k].Request? ==> h[k].bytes != []
    ensures Run(p, g, OnWire(CutOff, h, |g.link.buf|)).endpoint == Direct(p, g.endpoint, h)
  {
    TransportExactly(p, g, CutOff, h);
    assert AllGetThrough(CutOff, h);
    LossesExactly(CutOff, h);
  }
}
