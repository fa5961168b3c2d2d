/** The UDS diagnostic server: session, security level and tester-present watchdog. */
module Uds {
  import opened Bytes

  const UDS_MAX_PAYLOAD := 7
  const TESTER_PRESENT_TIMEOUT := 5

  const SESSION_CONTROL: byte := 0x10
  const ECU_RESET: byte := 0x11
  const READ_DATA: byte := 0x22
  const SECURITY_ACCESS: byte := 0x27
  const WRITE_DATA: byte := 0x2E
  const TESTER_PRESENT: byte := 0x3E

  datatype UdsNrc =
    | ServiceNotSupported
    | SubFunctionNotSupported
    | RequestOutOfRange
    | SecurityAccessDenied
    | InvalidKey
  {
    function ToByte(): byte {
      match this
      case ServiceNotSupported => 0x11
      case SubFunctionNotSupported => 0x12
      case RequestOutOfRange => 0x31
      case SecurityAccessDenied => 0x33
      case InvalidKey => 0x35
    }
  }

  datatype UdsSession = DefaultSession | Extended

  datatype UdsSecurityLevel = Locked | Unlocked

  /**
    * `UdsDataProvider` over stores of type `D`: the length of a readable identifier, what reading it
    * leaves in an output slice with given contents, and the store and verdict of a write.
    */
  datatype DataProvider<!D> = DataProvider(
    readLen: (D, nat) -> Option<nat>,
    read: (D, nat, seq<byte>) -> seq<byte>,
    write: (D, nat, seq<byte>) -> (D, bool)
  ) {
    /** A slice keeps its length, whatever is written into it. */
    function ReadInto(store: D, did: nat, out: seq<byte>): (r: seq<byte>)
      ensures |r| == |out|
    {
      var r := read(store, did, out);
      if |r| == |out| then r else out
    }
  }

  datatype Server<D> = Server(store: D, session: UdsSession, security: UdsSecurityLevel, pending: Option<nat>)

  function NewServer<D>(store: D): Server<D> {
    Server(store, DefaultSession, Locked, None)
  }

  predicate ReservedDid(did: nat) { 0xF100 <= did <= 0xF1FF }

  function Did(request: seq<byte>): nat
    requires |request| >= 3
  {
    request[1] as int * 256 + request[2]
  }

  predicate Supported(sid: byte) {
    sid in {SESSION_CONTROL, ECU_RESET, READ_DATA, SECURITY_ACCESS, WRITE_DATA, TESTER_PRESENT}
  }

  /** What a request is due: nothing, a negative response, fixed bytes, or the value of an identifier. */
  datatype Reply =
    | Silent
    | Negative(sid: byte, nrc: UdsNrc)
    | Plain(bytes: seq<byte>)
    | Value(head: seq<byte>, did: nat, len: nat)

  datatype Decision<D> = Decision(server: Server<D>, reply: Reply)

  /** The effect of a request on the server, and what it is due. */
  function Decide<D>(p: DataProvider<D>, s: Server<D>, request: seq<byte>): Decision<D> {
    if request == [] then Decision(s, Silent)
    else if !Supported(request[0]) then Decision(s, Negative(request[0], ServiceNotSupported))
    else if request[0] == TESTER_PRESENT then DecideTesterPresent(s, request)
    else if request[0] == SESSION_CONTROL then DecideSession(s, request)
    else if request[0] == ECU_RESET then DecideReset(s, request)
    else if request[0] == SECURITY_ACCESS then DecideSecurity(s, request)
    else if request[0] == READ_DATA then DecideRead(p, s, request)
    else DecideWrite(p, s, request)
  }

  function DecideTesterPresent<D>(s: Server<D>, request: seq<byte>): Decision<D>
    requires request != []
  {
    if |request| > 1 && request[1] % 0x80 != 0 then Decision(s, Negative(request[0], SubFunctionNotSupported))
    else Decision(s.(pending := Some(TESTER_PRESENT_TIMEOUT)), Plain([0x7E, 0x00]))
  }

  function DecideSession<D>(s: Server<D>, request: seq<byte>): Decision<D> {
    if |request| < 2 || (request[1] != 0x01 && request[1] != 0x03) then Decision(s, Silent)
    else
      Decision(s.(session := if request[1] == 0x01 then DefaultSession else Extended),
               Plain([0x50, request[1], 0x00, 0x32]))
  }

  function DecideReset<D>(s: Server<D>, request: seq<byte>): Decision<D> {
    if |request| < 2 then Decision(s, Silent)
    else if request[1] != 0x01 then Decision(s, Negative(request[0], SubFunctionNotSupported))
    else Decision(s.(session := DefaultSession, security := Locked), Plain([0x51, 0x01]))
  }

  function DecideSecurity<D>(s: Server<D>, request: seq<byte>): Decision<D> {
    if |request| < 2 then Decision(s, Silent)
    else if request[1] == 0x01 then Decision(s, Plain([0x67, 0x01, 0xAA]))
    else if request[1] == 0x02 then
      if |request| < 3 then Decision(s, Silent)
      else if request[2] == 0x55 then Decision(s.(security := Unlocked), Plain([0x67, 0x02]))
      else Decision(s, Negative(request[0], InvalidKey))
    else Decision(s, Negative(request[0], SubFunctionNotSupported))
  }

  function DecideRead<D>(p: DataProvider<D>, s: Server<D>, request: seq<byte>): Decision<D> {
    if |request| < 3 then Decision(s, Silent)
    else
      var did := Did(request);
      var len := p.readLen(s.store, did);
      if len.None? || len.value > UDS_MAX_PAYLOAD then Decision(s, Negative(request[0], RequestOutOfRange))
      else if s.security == Locked && ReservedDid(did) then Decision(s, Negative(request[0], SecurityAccessDenied))
      else Decision(s, Value([0x62, request[1], request[2]], did, len.value))
  }

  function DecideWrite<D>(p: DataProvider<D>, s: Server<D>, request: seq<byte>): Decision<D>
    requires request != []
  {
    if s.security == Locked then Decision(s, Negative(request[0], SecurityAccessDenied))
    else if |request| < 3 then Decision(s, Silent)
    else
      var (store, accepted) := p.write(s.store, Did(request), request[3..]);
      Decision(s.(store := store),
               if accepted then Plain([0x6E, request[1], request[2]]) else Negative(request[0], RequestOutOfRange))
  }

  /** How a call of `handle` ends: `Aborted` stands for the abort on an index past the end of the response. */
  datatype Outcome = Returned(len: Option<nat>) | Aborted

  datatype Written = Written(buffer: seq<byte>, outcome: Outcome)

  /** Bytes assigned one by one without a bounds check: those that fit are there, and the next one aborts. */
  function Put(buffer: seq<byte>, bytes: seq<byte>): (w: Written)
    ensures |w.buffer| == |buffer|
  {
    if |bytes| <= |buffer| then Written(Overwrite(buffer, 0, bytes), Returned(Some(|bytes|)))
    else Written(bytes[..|buffer|], Aborted)
  }

  /** What `handle` leaves in the response buffer, and how it ends. */
  function Write<D>(p: DataProvider<D>, store: D, reply: Reply, buffer: seq<byte>): (w: Written)
    ensures |w.buffer| == |buffer|
  {
    match reply
    case Silent => Written(buffer, Returned(None))
    case Negative(sid, nrc) =>
      if |buffer| < 3 then Written(buffer, Returned(None)) else Put(buffer, [0x7F, sid, nrc.ToByte()])
    case Plain(bytes) => Put(buffer, bytes)
    case Value(head, did, len) =>
      if |buffer| < |head| then Put(buffer, head)
      else if |buffer| < |head| + len then Written(Overwrite(buffer, 0, head), Aborted)
      else Put(buffer, head + p.ReadInto(store, did, buffer[|head|..|head| + len]))
  }

  lemma OverwriteTwice(buffer: seq<byte>, head: seq<byte>, value: seq<byte>)
    requires |head| + |value| <= |buffer|
    ensures Overwrite(Overwrite(buffer, 0, head), |head|, value) == Overwrite(buffer, 0, head + value)
  {
  }

  datatype Answer<D> = Answer(server: Server<D>, written: Written)

  /** The whole effect of `handle`. */
  function Respond<D>(p: DataProvider<D>, s: Server<D>, request: seq<byte>, buffer: seq<byte>): (a: Answer<D>)
    ensures |a.written.buffer| == |buffer|
  {
    var d := Decide(p, s, request);
    Answer(d.server, Write(p, d.server.store, d.reply, buffer))
  }

  /** The watchdog runs out on this tick. */
  predicate FiresNow<D>(s: Server<D>) { s.pending.Some? && s.pending.value <= 1 }

  function AfterTick<D>(s: Server<D>): Server<D> {
    if FiresNow(s) then s.(session := DefaultSession, security := Locked, pending := None)
    else if s.pending.Some? then s.(pending := Some(s.pending.value - 1))
    else s
  }

  class UdsServer<D> {
    const provider: DataProvider<D>
    var store: D
    var session: UdsSession
    var security: UdsSecurityLevel
    var pending: Option<nat>

    ghost function View(): Server<D>
      reads this
    {
      Server(store, session, security, pending)
    }

    constructor (provider: DataProvider<D>, store: D)
      ensures View() == NewServer(store) && this.provider == provider
    {
      this.provider, this.store := provider, store;
      session, security, pending := DefaultSession, Locked, None;
    }

    method IsHeld() returns (held: bool)
      ensures held <==> View().pending.Some?
    {
      held := pending.Some?;
    }

    method Tick() returns (disarmed: bool)
      modifies this
      ensures View() == AfterTick(old(View())) && disarmed == FiresNow(old(View()))
    {
      match pending
      case None =>
        disarmed := false;
      case Some(n) =>
        if n == 0 || n - 1 == 0 {
          session, security, pending := DefaultSession, Locked, None;
          disarmed := true;
        } else {
          pending := Some(n - 1);
          disarmed := false;
        }
    }

    /** The assignments of `bytes` to the front of the response, up to the first that is out of range. */
    method PutBytes(response: array<byte>, bytes: seq<byte>) returns (r: Outcome)
      modifies response
      ensures Written(response[..], r) == Put(old(response[..]), bytes)
    {
      if response.Length < |bytes| {
        CopyFromSlice(response, 0, bytes[..response.Length]);
        return Aborted;
      }
      CopyFromSlice(response, 0, bytes);
      r := Returned(Some(|bytes|));
    }

    method Nrc(response: array<byte>, sid: byte, nrc: UdsNrc) returns (r: Outcome)
      modifies response
      ensures Written(response[..], r) == Write(provider, store, Negative(sid, nrc), old(response[..]))
    {
      if response.Length < 3 {
        return Returned(None);
      }
      r := PutBytes(response, [0x7F, sid, nrc.ToByte()]);
    }

    method Handle(request: seq<byte>, response: array<byte>) returns (r: Outcome)
      modifies this, response
      ensures Answer(View(), Written(response[..], r)) == Respond(provider, old(View()), request, old(response[..]))
    {
      if request == [] {
        return Returned(None);
      }
      var sid := request[0];
      if !Supported(sid) {
        r := Nrc(response, sid, ServiceNotSupported);
        return;
      }
      var params := request[1..];
      if sid == TESTER_PRESENT {
        var sub := if |params| > 0 then params[0] else 0;
        if sub % 0x80 != 0 {
          r := Nrc(response, sid, SubFunctionNotSupported);
          return;
        }
        pending := Some(TESTER_PRESENT_TIMEOUT);
        r := PutBytes(response, [0x7E, 0x00]);
      } else if sid == SESSION_CONTROL {
        if |params| < 1 || (params[0] != 0x01 && params[0] != 0x03) {
          return Returned(None);
        }
        session := if params[0] == 0x01 then DefaultSession else Extended;
        r := PutBytes(response, [0x50, params[0], 0x00, 0x32]);
      } else if sid == ECU_RESET {
        if |params| < 1 {
          return Returned(None);
        }
        if params[0] != 0x01 {
          r := Nrc(response, sid, SubFunctionNotSupported);
          return;
        }
        session, security := DefaultSession, Locked;
        r := PutBytes(response, [0x51, params[0]]);
      } else if sid == SECURITY_ACCESS {
        r := HandleSecurity(request, response);
      } else if sid == READ_DATA {
        r := HandleRead(request, response);
      } else {
        r := HandleWrite(request, response);
      }
    }

    method HandleSecurity(request: seq<byte>, response: array<byte>) returns (r: Outcome)
      requires request != [] && request[0] == SECURITY_ACCESS
      modifies this`security, response
      ensures var d := DecideSecurity(old(View()), request);
              View() == d.server && Written(response[..], r) == Write(provider, d.server.store, d.reply, old(response[..]))
    {
      if |request| < 2 {
        return Returned(None);
      }
      if request[1] == 0x01 {
        r := PutBytes(response, [0x67, 0x01, 0xAA]);
      } else if request[1] == 0x02 {
        if |request| < 3 {
          return Returned(None);
        }
        if request[2] == 0x55 {
          security := Unlocked;
          r := PutBytes(response, [0x67, 0x02]);
        } else {
          r := Nrc(response, request[0], InvalidKey);
        }
      } else {
        r := Nrc(response, request[0], SubFunctionNotSupported);
      }
    }

    method HandleRead(request: seq<byte>, response: array<byte>) returns (r: Outcome)
      requires request != [] && request[0] == READ_DATA
      modifies response
      ensures var d := DecideRead(provider, View(), request);
              d.server == View() && Written(response[..], r) == Write(provider, store, d.reply, old(response[..]))
    {
      if |request| < 3 {
        return Returned(None);
      }
      var did := Did(request);
      var len := provider.readLen(store, did);
      if len.None? || len.value > UDS_MAX_PAYLOAD {
        r := Nrc(response, request[0], RequestOutOfRange);
        return;
      }
      if security == Locked && ReservedDid(did) {
        r := Nrc(response, request[0], SecurityAccessDenied);
        return;
      }
      r := PutValue(response, [0x62, request[1], request[2]], did, len.value);
    }

    /** The head of a read response, and behind it the value, which the provider writes into its slice. */
    method PutValue(response: array<byte>, head: seq<byte>, did: nat, len: nat) returns (r: Outcome)
      modifies response
      ensures Written(response[..], r) == Write(provider, store, Value(head, did, len), old(response[..]))
    {
      r := PutBytes(response, head);
      if r.Aborted? {
        return;
      }
      if response.Length < |head| + len {
        return Aborted;
      }
      ghost var was := old(response[..]);
      assert response[|head|..|head| + len] == was[|head|..|head| + len];
      var value := provider.ReadInto(store, did, response[|head|..|head| + len]);
      CopyFromSlice(response, |head|, value);
      OverwriteTwice(was, head, value);
      r := Returned(Some(|head| + len));
    }

    method HandleWrite(request: seq<byte>, response: array<byte>) returns (r: Outcome)
      requires request != [] && request[0] == WRITE_DATA
      modifies this`store, response
      ensures var d := DecideWrite(provider, old(View()), request);
              View() == d.server && Written(response[..], r) == Write(provider, d.server.store, d.reply, old(response[..]))
    {
      if security == Locked {
        r := Nrc(response, request[0], SecurityAccessDenied);
        return;
      }
      if |request| < 3 {
        return Returned(None);
      }
      var (next, accepted) := provider.write(store, Did(request), request[3..]);
      store := next;
      if !accepted {
        r := Nrc(response, request[0], RequestOutOfRange);
        return;
      }
      r := PutBytes(response, [0x6E, request[1], request[2]]);
    }
  }
}
