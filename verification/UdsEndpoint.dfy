/** A diagnostic server with its response buffer, as a tester sees it over a whole conversation. */
module UdsEndpoint {
  import opened Bytes
  import opened Uds
  import History = UdsHistory

  /** A server, its response buffer, and what its calls of `handle` have written, in order. */
  datatype Endpoint<D> = Endpoint(server: Server<D>, buffer: seq<byte>, responses: seq<Written>) {
    /** The latest call aborted, so there is nothing left to serve with. */
    predicate Stopped() {
      responses != [] && responses[|responses| - 1].outcome.Aborted?
    }
  }

  function Serve<D>(p: DataProvider<D>, e: Endpoint<D>, request: seq<byte>): Endpoint<D> {
    if e.Stopped() then e
    else
      var a := Respond(p, e.server, request, e.buffer);
      Endpoint(a.server, a.written.buffer, e.responses + [a.written])
  }

  function Elapse<D>(e: Endpoint<D>): Endpoint<D> {
    if e.Stopped() then e else e.(server := AfterTick(e.server))
  }

  /** Requests and ticks, one after another. */
  function Direct<D>(p: DataProvider<D>, e: Endpoint<D>, h: seq<History.Event>): Endpoint<D> {
    if h == [] then e
    else
      var before := Direct(p, e, h[..|h| - 1]);
      match h[|h| - 1]
      case Request(bytes) => Serve(p, before, bytes)
      case Tick => Elapse(before)
  }

  lemma DirectOneMore<D>(p: DataProvider<D>, e: Endpoint<D>, h: seq<History.Event>, last: History.Event)
    ensures Direct(p, e, h + [last]) == match last
                                        case Request(bytes) => Serve(p, Direct(p, e, h), bytes)
                                        case Tick => Elapse(Direct(p, e, h))
  {
    assert (h + [last])[..|h|] == h;
  }

  /** The requests of a history, in order. */
  function RequestsIn(h: seq<History.Event>): seq<seq<byte>> {
    if h == [] then []
    else
      var before := RequestsIn(h[..|h| - 1]);
      match h[|h| - 1]
      case Request(bytes) => before + [bytes]
      case Tick => before
  }

  lemma RequestsInOneMore(h: seq<History.Event>, last: History.Event)
    ensures RequestsIn(h + [last]) == match last
                                      case Request(bytes) => RequestsIn(h) + [bytes]
                                      case Tick => RequestsIn(h)
  {
    assert (h + [last])[..|h|] == h;
  }

  /** With a buffer that is long enough there is a response, or `None`, to every request. */
  lemma {:induction false} EveryRequestIsAnswered<D>(p: DataProvider<D>, e: Endpoint<D>, h: seq<History.Event>)
    requires !e.Stopped() && |e.buffer| >= 10
    ensures var r := Direct(p, e, h);
            !r.Stopped() && |r.buffer| == |e.buffer| && |r.responses| == |e.responses| + |RequestsIn(h)|
    decreases |h|
  {
    if h != [] {
      var m := |h| - 1;
      EveryRequestIsAnswered(p, e, h[..m]);
      if h[m].Request? {
        var before := Direct(p, e, h[..m]);
        History.AbortsExactly(p, before.server, h[m].bytes, before.buffer);
      }
    }
  }

  // ---------------------------------------------------------------------------
  // Reserved identifiers are confidential
  // ---------------------------------------------------------------------------

  /** Two providers that differ in nothing but what reading a reserved identifier gives. */
  ghost predicate SameButReserved<D(!new)>(p: DataProvider<D>, q: DataProvider<D>) {
    && (forall store, did :: p.readLen(store, did) == q.readLen(store, did))
    && (forall store, did, data :: p.write(store, did, data) == q.write(store, did, data))
    && (forall store, did, out :: !ReservedDid(did) ==> p.read(store, did, out) == q.read(store, did, out))
  }

  /** No request can tell them apart. */
  ghost predicate Indistinguishable<D>(p: DataProvider<D>, q: DataProvider<D>, s: Server<D>) {
    forall request, buffer :: Respond(p, s, request, buffer) == Respond(q, s, request, buffer)
  }

  lemma LockedHidesReserved<D(!new)>(
    p: DataProvider<D>, q: DataProvider<D>, s: Server<D>, request: seq<byte>, buffer: seq<byte>)
    requires SameButReserved(p, q) && s.security == Locked
    ensures Respond(p, s, request, buffer) == Respond(q, s, request, buffer)
  {
    var d := Decide(p, s, request);
    assert Decide(q, s, request) == d;
    assert d.reply.Value? ==> !ReservedDid(d.reply.did);
  }

  /** A provider whose reserved identifiers all hold the one byte `secret`. */
  function KeeperOf<D>(secret: byte): DataProvider<D> {
    DataProvider((_, _) => Some(1),
                 (_, did, out) => if ReservedDid(did) && |out| == 1 then [secret] else out,
                 (store, _, _) => (store, true))
  }

  lemma UnlockedReveals<D(!new)>(s: Server<D>)
    requires s.security == Unlocked
    ensures SameButReserved(KeeperOf<D>(0), KeeperOf<D>(1)) && !Indistinguishable(KeeperOf(0), KeeperOf(1), s)
  {
    var request, buffer := [READ_DATA, 0xF1, 0x00], Zeros(4);
    assert Did(request) == 0xF100;
    assert Respond(KeeperOf(0), s, request, buffer).written.buffer[3] == 0;
    assert Respond(KeeperOf(1), s, request, buffer).written.buffer[3] == 1;
    assert Respond(KeeperOf(0), s, request, buffer) != Respond(KeeperOf(1), s, request, buffer);
  }

  /** The lock is what keeps reserved values confidential: no request reveals any of them exactly while it holds. */
  lemma ConfidentialExactly<D(!new)>(s: Server<D>)
    ensures (forall p, q :: SameButReserved(p, q) ==> Indistinguishable(p, q, s)) <==> s.security == Locked
  {
    if s.security == Locked {
      forall p, q | SameButReserved(p, q) ensures Indistinguishable(p, q, s) {
        forall request, buffer ensures Respond(p, s, request, buffer) == Respond(q, s, request, buffer) {
          LockedHidesReserved(p, q, s, request, buffer);
        }
      }
    } else {
      UnlockedReveals(s);
    }
  }

  /** Without a correct key a server that begins locked stays locked. */
  lemma StaysLocked<D>(p: DataProvider<D>, e: Endpoint<D>, event: History.Event)
    requires e.server.security == Locked && !History.IsKey(event)
    ensures match event
            case Request(bytes) => Serve(p, e, bytes).server.security == Locked
            case Tick => Elapse(e).server.security == Locked
  {
    History.PrivilegeStep(p, e.server, event);
  }

  /**
    * Over a whole conversation without a correct key, everything a tester is sent, and the server and its
    * store as well, are the same whatever the reserved identifiers hold.
    */
  lemma {:induction false} ConfidentialWithoutKey<D(!new)>(
    p: DataProvider<D>, q: DataProvider<D>, e: Endpoint<D>, h: seq<History.Event>)
    requires SameButReserved(p, q) && e.server.security == Locked && forall k :: 0 <= k < |h| ==> !History.IsKey(h[k])
    ensures Direct(p, e, h) == Direct(q, e, h) && Direct(p, e, h).server.security == Locked
    decreases |h|
  {
    hide Respond, SameButReserved, AfterTick;
    if h != [] {
      var m := |h| - 1;
      ConfidentialWithoutKey(p, q, e, h[..m]);
      var before := Direct(p, e, h[..m]);
      StaysLocked(p, before, h[m]);
      if h[m].Request? {
        LockedHidesReserved(p, q, before.server, h[m].bytes, before.buffer);
      }
    }
  }
}
