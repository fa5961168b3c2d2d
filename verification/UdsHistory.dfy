/** The diagnostic server's state as a function of its history, and what that history protects. */
module UdsHistory {
  import opened Bytes
  import opened Uds

  datatype Event = Request(bytes: seq<byte>) | Tick

  function Apply<D>(p: DataProvider<D>, s: Server<D>, e: Event): Server<D> {
    match e
    case Request(bytes) => Decide(p, s, bytes).server
    case Tick => AfterTick(s)
  }

  /** A server that began on `store`, after the first `n` events of `h`. */
  function At<D>(p: DataProvider<D>, store: D, h: seq<Event>, n: nat): Server<D>
    requires n <= |h|
  {
    if n == 0 then NewServer(store) else Apply(p, At(p, store, h, n - 1), h[n - 1])
  }

  // ---------------------------------------------------------------------------
  // What can be read off the events alone
  // ---------------------------------------------------------------------------

  /** TesterPresent without a sub-function other than 0, the suppress bit aside. */
  predicate IsTesterPresent(e: Event) {
    e.Request? && e.bytes != [] && e.bytes[0] == TESTER_PRESENT && (|e.bytes| > 1 ==> e.bytes[1] % 0x80 == 0)
  }

  predicate IsReset(e: Event) {
    e.Request? && |e.bytes| >= 2 && e.bytes[0] == ECU_RESET && e.bytes[1] == 0x01
  }

  /** The correct key: the complement of the fixed seed 0xAA. */
  predicate IsKey(e: Event) {
    e.Request? && |e.bytes| >= 3 && e.bytes[0] == SECURITY_ACCESS && e.bytes[1] == 0x02 && e.bytes[2] == 0x55
  }

  predicate IsSessionChange(e: Event) {
    e.Request? && |e.bytes| >= 2 && e.bytes[0] == SESSION_CONTROL && (e.bytes[1] == 0x01 || e.bytes[1] == 0x03)
  }

  predicate IsWrite(e: Event) {
    e.Request? && |e.bytes| >= 3 && e.bytes[0] == WRITE_DATA
  }

  /** The number of ticks among the events `from` up to `to`. */
  function Ticks(h: seq<Event>, from: nat, to: nat): nat
    requires to <= |h|
  {
    if to <= from then 0 else Ticks(h, from, to - 1) + if h[to - 1].Tick? then 1 else 0
  }

  /** Event `t` is the latest accepted TesterPresent before position `n`. */
  ghost predicate LatestTesterPresent(h: seq<Event>, t: nat, n: nat) {
    t < n <= |h| && IsTesterPresent(h[t]) && forall j :: t < j < n ==> !IsTesterPresent(h[j])
  }

  /** Event `k` is the fifth tick since the latest TesterPresent before it. */
  ghost predicate Fires(h: seq<Event>, k: nat) {
    k < |h| && h[k].Tick? && exists t: nat :: LatestTesterPresent(h, t, k) && Ticks(h, t + 1, k + 1) == 5
  }

  ghost predicate Disarms(h: seq<Event>, k: nat) {
    k < |h| && (IsReset(h[k]) || Fires(h, k))
  }

  /** A correct key was accepted before position `n`, with no reset and no firing since. */
  ghost predicate UnlockedBy(h: seq<Event>, n: nat) {
    exists k :: 0 <= k < n <= |h| && IsKey(h[k]) && forall j :: k < j < n ==> !Disarms(h, j)
  }

  /** The latest session change, reset or firing before position `n` is a change to session 0x03. */
  ghost predicate ExtendedBy(h: seq<Event>, n: nat) {
    exists k :: 0 <= k < n <= |h| && IsSessionChange(h[k]) && h[k].bytes[1] == 0x03
                && forall j :: k < j < n ==> !Disarms(h, j) && !IsSessionChange(h[j])
  }

  // ---------------------------------------------------------------------------
  // The watchdog
  // ---------------------------------------------------------------------------

  lemma LatestIsUnique(h: seq<Event>, t: nat, u: nat, n: nat)
    requires LatestTesterPresent(h, t, n) && LatestTesterPresent(h, u, n)
    ensures t == u
  {
  }

  /** The counter that history leaves: 5 less the ticks since the latest TesterPresent, until they reach 5. */
  ghost predicate CounterIs(h: seq<Event>, n: nat, pending: Option<nat>)
    requires n <= |h|
  {
    && (pending.Some? ==> exists t: nat :: LatestTesterPresent(h, t, n)
                                      && Ticks(h, t + 1, n) < 5
                                      && pending.value == 5 - Ticks(h, t + 1, n))
    && (pending.None? ==> forall t: nat :: LatestTesterPresent(h, t, n) ==> Ticks(h, t + 1, n) >= 5)
  }

  lemma LatestStep(h: seq<Event>, n: nat)
    requires n < |h|
    ensures IsTesterPresent(h[n]) ==> LatestTesterPresent(h, n, n + 1)
    ensures !IsTesterPresent(h[n]) ==>
              forall t: nat :: LatestTesterPresent(h, t, n + 1) <==> LatestTesterPresent(h, t, n)
  {
  }

  lemma PendingStep<D>(p: DataProvider<D>, s: Server<D>, e: Event)
    ensures Apply(p, s, e).pending ==
            if IsTesterPresent(e) then Some(5)
            else if e.Tick? then AfterTick(s).pending else s.pending
  {
  }

  /** The counter is a function of history, always absent or 1 to 5, and fires on exactly the fifth tick. */
  lemma {:induction false} Watchdog<D>(p: DataProvider<D>, store: D, h: seq<Event>, n: nat)
    requires n <= |h|
    ensures CounterIs(h, n, At(p, store, h, n).pending)
    ensures At(p, store, h, n).pending.Some? ==> 1 <= At(p, store, h, n).pending.value <= 5
    ensures n < |h| && h[n].Tick? ==> (FiresNow(At(p, store, h, n)) <==> Fires(h, n))
  {
    if n > 0 {
      Watchdog(p, store, h, n - 1);
      var s, e := At(p, store, h, n - 1), h[n - 1];
      PendingStep(p, s, e);
      LatestStep(h, n - 1);
      CounterStep(h, n - 1, s.pending, At(p, store, h, n).pending);
    }
    var s := At(p, store, h, n);
    if n < |h| && h[n].Tick? {
      if s.pending.Some? {
        var t: nat :| LatestTesterPresent(h, t, n) && s.pending.value == 5 - Ticks(h, t + 1, n);
        assert Ticks(h, t + 1, n + 1) == Ticks(h, t + 1, n) + 1;
        if Fires(h, n) {
          var u: nat :| LatestTesterPresent(h, u, n) && Ticks(h, u + 1, n + 1) == 5;
          LatestIsUnique(h, t, u, n);
        }
      }
    }
  }

  lemma CounterStep(h: seq<Event>, n: nat, before: Option<nat>, after: Option<nat>)
    requires n < |h| && CounterIs(h, n, before) && (before.Some? ==> before.value >= 1)
    requires after == if IsTesterPresent(h[n]) then Some(5)
                      else if h[n].Tick? && before.Some? then
                        if before.value <= 1 then None else Some(before.value - 1)
                      else before
    ensures CounterIs(h, n + 1, after)
  {
    LatestStep(h, n);
    if IsTesterPresent(h[n]) {
      assert Ticks(h, n + 1, n + 1) == 0;
    } else {
      forall t: nat | LatestTesterPresent(h, t, n)
        ensures Ticks(h, t + 1, n + 1) == Ticks(h, t + 1, n) + if h[n].Tick? then 1 else 0
      {
      }
      var next := n + 1;
      if before.Some? {
        var t: nat :| LatestTesterPresent(h, t, n) && before.value == 5 - Ticks(h, t + 1, n)
                      && Ticks(h, t + 1, n) < 5;
        assert LatestTesterPresent(h, t, n + 1);
        forall u: nat | LatestTesterPresent(h, u, next) ensures u == t {
          LatestIsUnique(h, t, u, n + 1);
        }
      } else {
        forall t: nat | LatestTesterPresent(h, t, next)
          ensures Ticks(h, t + 1, next) >= 5
        {
          assert LatestTesterPresent(h, t, n);
        }
      }
    }
  }

  // ---------------------------------------------------------------------------
  // Session and security
  // ---------------------------------------------------------------------------

  lemma UnlockedStep(h: seq<Event>, n: nat)
    requires n < |h|
    ensures UnlockedBy(h, n + 1) <==> IsKey(h[n]) || (UnlockedBy(h, n) && !Disarms(h, n))
  {
    if UnlockedBy(h, n) && !Disarms(h, n) {
      var k :| 0 <= k < n <= |h| && IsKey(h[k]) && forall j :: k < j < n ==> !Disarms(h, j);
      assert forall j :: k < j < n + 1 ==> !Disarms(h, j);
    }
    if UnlockedBy(h, n + 1) && !IsKey(h[n]) {
      var k :| 0 <= k < n + 1 <= |h| && IsKey(h[k]) && forall j :: k < j < n + 1 ==> !Disarms(h, j);
      assert k < n;
    }
  }

  lemma ExtendedStep(h: seq<Event>, n: nat)
    requires n < |h|
    ensures ExtendedBy(h, n + 1) <==> if IsSessionChange(h[n]) then h[n].bytes[1] == 0x03
                                      else ExtendedBy(h, n) && !Disarms(h, n)
  {
    if !IsSessionChange(h[n]) && ExtendedBy(h, n) && !Disarms(h, n) {
      var k :| 0 <= k < n <= |h| && IsSessionChange(h[k]) && h[k].bytes[1] == 0x03
               && forall j :: k < j < n ==> !Disarms(h, j) && !IsSessionChange(h[j]);
      assert forall j :: k < j < n + 1 ==> !Disarms(h, j) && !IsSessionChange(h[j]);
    }
    if ExtendedBy(h, n + 1) {
      var k :| 0 <= k < n + 1 <= |h| && IsSessionChange(h[k]) && h[k].bytes[1] == 0x03
               && forall j :: k < j < n + 1 ==> !Disarms(h, j) && !IsSessionChange(h[j]);
      if k < n {
        assert !IsSessionChange(h[n]) && !Disarms(h, n);
      }
    }
  }

  lemma PrivilegeStep<D>(p: DataProvider<D>, s: Server<D>, e: Event)
    ensures var r, disarmed := Apply(p, s, e), IsReset(e) || (e.Tick? && FiresNow(s));
            && r.security == (if IsKey(e) then Unlocked else if disarmed then Locked else s.security)
            && r.session == (if IsSessionChange(e) then (if e.bytes[1] == 0x03 then Extended else DefaultSession)
                             else if disarmed then DefaultSession else s.session)
  {
  }

  /** Security level and session are exactly what the history says. */
  lemma {:induction false} StateIsHistory<D>(p: DataProvider<D>, store: D, h: seq<Event>, n: nat)
    requires n <= |h|
    ensures At(p, store, h, n).security == Unlocked <==> UnlockedBy(h, n)
    ensures At(p, store, h, n).session == Extended <==> ExtendedBy(h, n)
  {
    if n > 0 {
      StateIsHistory(p, store, h, n - 1);
      Watchdog(p, store, h, n - 1);
      PrivilegeStep(p, At(p, store, h, n - 1), h[n - 1]);
      UnlockedStep(h, n - 1);
      ExtendedStep(h, n - 1);
      assert Fires(h, n - 1) ==> h[n - 1].Tick?;
    }
  }

  // ---------------------------------------------------------------------------
  // What the security level protects
  // ---------------------------------------------------------------------------

  /** The store moves only in writes made while a correct key is in force. */
  lemma StoreChangesUnlockedOnly<D>(p: DataProvider<D>, store: D, h: seq<Event>, n: nat)
    requires n < |h|
    ensures At(p, store, h, n + 1).store != At(p, store, h, n).store ==> IsWrite(h[n]) && UnlockedBy(h, n)
  {
    StateIsHistory(p, store, h, n);
  }

  /** Without a correct key the store stays as it began. */
  lemma {:induction false} NoKeyNoChange<D>(p: DataProvider<D>, store: D, h: seq<Event>, n: nat)
    requires n <= |h| && forall k :: 0 <= k < n ==> !IsKey(h[k])
    ensures At(p, store, h, n).store == store
  {
    if n > 0 {
      NoKeyNoChange(p, store, h, n - 1);
      StoreChangesUnlockedOnly(p, store, h, n - 1);
    }
  }

  /** The value of a reserved identifier is handed out only while a correct key is in force. */
  lemma ReservedReadsUnlockedOnly<D>(p: DataProvider<D>, store: D, h: seq<Event>, n: nat)
    requires n < |h| && h[n].Request?
    requires var reply := Decide(p, At(p, store, h, n), h[n].bytes).reply;
             reply.Value? && ReservedDid(reply.did)
    ensures UnlockedBy(h, n)
  {
    StateIsHistory(p, store, h, n);
  }

  /** A response of at most 10 bytes, negative with the request's identifier or positive with it plus 0x40. */
  ghost predicate WellFormedResponse(request: seq<byte>, w: Written) {
    w.outcome.Returned? && w.outcome.len.Some? ==>
      var n := w.outcome.len.value;
      && request != [] && 2 <= n <= 10 && n <= |w.buffer|
      && (|| (n == 3 && w.buffer[0] == 0x7F && w.buffer[1] == request[0])
          || w.buffer[0] as int == request[0] as int + 0x40)
  }

  /** What a reply to `request` may be. */
  predicate WellFormedReply(request: seq<byte>, reply: Reply) {
    match reply
    case Silent => true
    case Negative(sid, _) => request != [] && sid == request[0]
    case Plain(bytes) => request != [] && 2 <= |bytes| <= 4 && bytes[0] as int == request[0] as int + 0x40
    case Value(head, _, len) => request != [] && |head| == 3 && head[0] as int == request[0] as int + 0x40 && len <= 7
  }

  lemma RepliesAreWellFormed<D>(p: DataProvider<D>, s: Server<D>, request: seq<byte>)
    ensures WellFormedReply(request, Decide(p, s, request).reply)
  {
  }

  lemma WrittenReplyIsWellFormed<D>(p: DataProvider<D>, store: D, request: seq<byte>, reply: Reply, buffer: seq<byte>)
    requires WellFormedReply(request, reply)
    ensures WellFormedResponse(request, Write(p, store, reply, buffer))
  {
  }

  /** Every response that is returned is well-formed. */
  lemma ResponsesAreWellFormed<D>(p: DataProvider<D>, s: Server<D>, request: seq<byte>, buffer: seq<byte>)
    ensures WellFormedResponse(request, Respond(p, s, request, buffer).written)
  {
    var d := Decide(p, s, request);
    RepliesAreWellFormed(p, s, request);
    WrittenReplyIsWellFormed(p, d.server.store, request, d.reply, buffer);
  }

  // ---------------------------------------------------------------------------
  // Response buffers that are too short
  // ---------------------------------------------------------------------------

  predicate IsSeedRequest(e: Event) {
    e.Request? && |e.bytes| >= 2 && e.bytes[0] == SECURITY_ACCESS && e.bytes[1] == 0x01
  }

  /** A read of an identifier that the provider has, that fits a frame, and that the security level allows. */
  predicate IsAllowedRead<D>(p: DataProvider<D>, s: Server<D>, e: Event) {
    && e.Request? && |e.bytes| >= 3 && e.bytes[0] == READ_DATA
    && p.readLen(s.store, Did(e.bytes)).Some? && p.readLen(s.store, Did(e.bytes)).value <= UDS_MAX_PAYLOAD
    && (s.security == Locked ==> !ReservedDid(Did(e.bytes)))
  }

  /** A write that the security level allows and the provider accepts. */
  predicate IsAcceptedWrite<D>(p: DataProvider<D>, s: Server<D>, e: Event) {
    IsWrite(e) && s.security == Unlocked && p.write(s.store, Did(e.bytes), e.bytes[3..]).1
  }

  /** The response bytes that a request needs if it is to succeed, service by service; 0 if it will not. */
  function Needed<D>(p: DataProvider<D>, s: Server<D>, request: seq<byte>): nat {
    var e := Request(request);
    if IsSessionChange(e) then 4
    else if IsTesterPresent(e) || IsReset(e) || IsKey(e) then 2
    else if IsSeedRequest(e) || IsAcceptedWrite(p, s, e) then 3
    else if IsAllowedRead(p, s, e) then 3 + p.readLen(s.store, Did(request)).value
    else 0
  }

  /** `handle` aborts exactly when the request would succeed and the response buffer is shorter than it needs. */
  lemma AbortsExactly<D>(p: DataProvider<D>, s: Server<D>, request: seq<byte>, buffer: seq<byte>)
    ensures Respond(p, s, request, buffer).written.outcome.Aborted? <==> |buffer| < Needed(p, s, request)
  {
  }

  /** A request that is due no response: empty, short of parameters, or asking for a session that does not exist. */
  predicate DueNothing<D>(s: Server<D>, request: seq<byte>) {
    || request == []
    || (request[0] == SESSION_CONTROL && (|request| < 2 || (request[1] != 0x01 && request[1] != 0x03)))
    || (request[0] == ECU_RESET && |request| < 2)
    || (request[0] == SECURITY_ACCESS && (|request| < 2 || (request[1] == 0x02 && |request| < 3)))
    || (request[0] == READ_DATA && |request| < 3)
    || (request[0] == WRITE_DATA && s.security == Unlocked && |request| < 3)
  }

  /**
    * `handle` returns `None` exactly for requests that are due nothing, and for those that will not succeed
    * if their negative response does not fit.
    */
  lemma NoneForWantOfRoomExactly<D>(p: DataProvider<D>, s: Server<D>, request: seq<byte>, buffer: seq<byte>)
    ensures Respond(p, s, request, buffer).written.outcome == Returned(None) <==>
            DueNothing(s, request) || (Needed(p, s, request) == 0 && |buffer| < 3)
  {
  }

  /** A change to the extended session takes effect and then aborts if only 3 bytes are there for its 4. */
  lemma SessionChangeAborts<D>(p: DataProvider<D>, s: Server<D>, buffer: seq<byte>)
    requires |buffer| == 3
    ensures var a := Respond(p, s, [0x10, 0x03], buffer);
            a.written == Written([0x50, 0x03, 0x00], Aborted) && a.server == s.(session := Extended)
  {
  }

  /** A provider whose every identifier holds 7 bytes. */
  function SevenByteProvider<D>(): DataProvider<D> {
    DataProvider((_, _) => Some(7), (_, _, out) => out, (store, _, _) => (store, true))
  }

  /** No request to any server aborts on a buffer of `n` bytes. */
  ghost predicate NeverAborts<D(!new)>(n: nat) {
    forall p: DataProvider<D>, s: Server<D>, request, buffer: seq<byte> :: |buffer| == n ==>
      !Respond(p, s, request, buffer).written.outcome.Aborted?
  }

  /** A response buffer is safe for every provider, server and request if and only if it has at least 10 bytes. */
  lemma TenBytesSufficeExactly<D(!new)>(store: D, n: nat)
    ensures NeverAborts<D>(n) <==> n >= 10
  {
    if n >= 10 {
      forall p: DataProvider<D>, s: Server<D>, request, buffer: seq<byte> | |buffer| == n
        ensures !Respond(p, s, request, buffer).written.outcome.Aborted?
      {
        AbortsExactly(p, s, request, buffer);
      }
    } else {
      var p, s, request, buffer := SevenByteProvider<D>(), NewServer(store), [READ_DATA, 0, 0], Zeros(n);
      AbortsExactly(p, s, request, buffer);
      assert IsAllowedRead(p, s, Request(request));
      assert Respond(p, s, request, buffer).written.outcome.Aborted?;
    }
  }
}
