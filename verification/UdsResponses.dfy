/** What the diagnostic server answers, byte by byte, and what becomes of the data that it is given. */
module UdsResponses {
  import opened Bytes
  import opened Uds
  import opened UdsHistory

  // ---------------------------------------------------------------------------
  // Refusals
  // ---------------------------------------------------------------------------

  /** The response is just `bytes`; the buffer behind them is as it was. */
  predicate Answers(w: Written, buffer: seq<byte>, bytes: seq<byte>) {
    |bytes| <= |buffer| && w == Written(bytes + buffer[|bytes|..], Returned(Some(|bytes|)))
  }

  predicate Refuses(w: Written, buffer: seq<byte>, request: seq<byte>, code: byte) {
    request != [] && Answers(w, buffer, [0x7F, request[0], code])
  }

  predicate HasService(request: seq<byte>, sid: byte, len: nat) {
    |request| >= len >= 1 && request[0] == sid
  }

  predicate UnknownService(request: seq<byte>) {
    request != [] && request[0] !in {0x10, 0x11, 0x22, 0x27, 0x2E, 0x3E}
  }

  predicate UnknownSubFunction(request: seq<byte>) {
    || (HasService(request, 0x3E, 2) && request[1] != 0 && request[1] != 0x80)
    || (HasService(request, 0x11, 2) && request[1] != 1)
    || (HasService(request, 0x27, 2) && request[1] != 1 && request[1] != 2)
  }

  /** A read that names an identifier with a value of at most 7 bytes. */
  predicate NamesReadable<D>(p: DataProvider<D>, store: D, request: seq<byte>) {
    HasService(request, 0x22, 3) &&
    var len := p.readLen(store, request[1] as int * 256 + request[2]);
    len.Some? && len.value <= 7
  }

  predicate OutOfRange<D>(p: DataProvider<D>, s: Server<D>, request: seq<byte>) {
    || (HasService(request, 0x22, 3) && !NamesReadable(p, s.store, request))
    || (HasService(request, 0x2E, 3) && s.security == Unlocked
        && !p.write(s.store, request[1] as int * 256 + request[2], request[3..]).1)
  }

  /** Every write, and a read of an identifier 0xF100 to 0xF1FF, needs an unlocked server. */
  predicate Denied<D>(p: DataProvider<D>, s: Server<D>, request: seq<byte>) {
    s.security == Locked
    && (HasService(request, 0x2E, 1) || (NamesReadable(p, s.store, request) && request[1] == 0xF1))
  }

  predicate WrongKey(request: seq<byte>) {
    HasService(request, 0x27, 3) && request[1] == 2 && request[2] != 0x55
  }

  /** Which requests get which negative response. */
  lemma RefusalsExactly<D>(p: DataProvider<D>, s: Server<D>, request: seq<byte>, buffer: seq<byte>)
    requires |buffer| >= 3
    ensures var w := Respond(p, s, request, buffer).written;
            && (Refuses(w, buffer, request, 0x11) <==> UnknownService(request))
            && (Refuses(w, buffer, request, 0x12) <==> UnknownSubFunction(request))
            && (Refuses(w, buffer, request, 0x31) <==> OutOfRange(p, s, request))
            && (Refuses(w, buffer, request, 0x33) <==> Denied(p, s, request))
            && (Refuses(w, buffer, request, 0x35) <==> WrongKey(request))
  {
    var d, w := Decide(p, s, request), Respond(p, s, request, buffer).written;
    DecidesRefusal(p, s, request);
    if d.reply.Negative? {
      forall code: byte ensures Refuses(w, buffer, request, code) <==> d.reply.nrc.ToByte() == code {
        RefusalCode(w, buffer, request, d.reply.nrc.ToByte(), code);
      }
    } else {
      ResponseStarts(p, s, request, buffer);
      forall code: byte ensures !Refuses(w, buffer, request, code) {
        NotARefusal(w, buffer, request, code);
      }
    }
  }

  lemma RefusalCode(w: Written, buffer: seq<byte>, request: seq<byte>, actual: byte, code: byte)
    requires |buffer| >= 3 && request != []
    requires w == Written(Overwrite(buffer, 0, [0x7F, request[0], actual]), Returned(Some(3)))
    ensures Refuses(w, buffer, request, code) <==> actual == code
  {
    assert w.buffer == [0x7F, request[0], actual] + buffer[3..];
    assert w.buffer[2] == actual && ([0x7F, request[0], code] + buffer[3..])[2] == code;
  }

  lemma NotARefusal(w: Written, buffer: seq<byte>, request: seq<byte>, code: byte)
    requires w.outcome.Returned? && w.outcome.len.Some? ==> w.buffer != [] && w.buffer[0] != 0x7F
    ensures !Refuses(w, buffer, request, code)
  {
    assert request != [] ==> ([0x7F, request[0], code] + if |buffer| >= 3 then buffer[3..] else [])[0] == 0x7F;
  }

  /** The same of the reply, before it is written. */
  lemma DecidesRefusal<D>(p: DataProvider<D>, s: Server<D>, request: seq<byte>)
    ensures var r := Decide(p, s, request).reply;
            var code := if r.Negative? then r.nrc.ToByte() as int else 0;
            && (r.Negative? ==> request != [] && r.sid == request[0])
            && (code == 0x11 <==> UnknownService(request)) && (code == 0x12 <==> UnknownSubFunction(request))
            && (code == 0x31 <==> OutOfRange(p, s, request)) && (code == 0x33 <==> Denied(p, s, request))
            && (code == 0x35 <==> WrongKey(request))
  {
  }

  /** A response that is not negative does not start like one. */
  lemma ResponseStarts<D>(p: DataProvider<D>, s: Server<D>, request: seq<byte>, buffer: seq<byte>)
    requires !Decide(p, s, request).reply.Negative?
    ensures var w := Respond(p, s, request, buffer).written;
            w.outcome.Returned? && w.outcome.len.Some? ==> w.outcome.len.value >= 2 && w.buffer[0] != 0x7F
  {
  }

  // ---------------------------------------------------------------------------
  // Positive responses
  // ---------------------------------------------------------------------------

  /** `bytes` is the response if there is room for it; otherwise the call aborts with the front of it written. */
  predicate AnswersOrAborts(w: Written, buffer: seq<byte>, bytes: seq<byte>) {
    if |bytes| <= |buffer| then Answers(w, buffer, bytes) else w == Written(bytes[..|buffer|], Aborted)
  }

  /** The positive responses: the service plus 0x40, the sub-function or the identifier, and what the service adds. */
  lemma PositiveResponses<D>(p: DataProvider<D>, s: Server<D>, request: seq<byte>, buffer: seq<byte>)
    ensures var w := Respond(p, s, request, buffer).written;
            && (HasService(request, 0x3E, 1) && (|request| > 1 ==> request[1] == 0 || request[1] == 0x80) ==>
                  AnswersOrAborts(w, buffer, [0x7E, 0x00]))
            && (HasService(request, 0x10, 2) && (request[1] == 1 || request[1] == 3) ==>
                  AnswersOrAborts(w, buffer, [0x50, request[1], 0x00, 0x32]))
            && (HasService(request, 0x11, 2) && request[1] == 1 ==> AnswersOrAborts(w, buffer, [0x51, 0x01]))
            && (HasService(request, 0x27, 2) && request[1] == 1 ==> AnswersOrAborts(w, buffer, [0x67, 0x01, 0xAA]))
            && (HasService(request, 0x27, 3) && request[1] == 2 && request[2] == 0x55 ==>
                  AnswersOrAborts(w, buffer, [0x67, 0x02]))
            && (HasService(request, 0x2E, 3) && s.security == Unlocked && !OutOfRange(p, s, request) ==>
                  AnswersOrAborts(w, buffer, [0x6E, request[1], request[2]]))
  {
  }

  /** A read of `high`, `low` that is neither out of range nor denied gets the value of that identifier. */
  lemma PositiveRead<D>(p: DataProvider<D>, s: Server<D>, request: seq<byte>, buffer: seq<byte>, value: seq<byte>)
    requires NamesReadable(p, s.store, request) && !Denied(p, s, request)
    requires p.readLen(s.store, request[1] as int * 256 + request[2]) == Some(|value|) && |buffer| >= 3 + |value|
    requires p.read(s.store, request[1] as int * 256 + request[2], buffer[3..3 + |value|]) == value
    ensures Answers(Respond(p, s, request, buffer).written, buffer, [0x62, request[1], request[2]] + value)
    ensures Respond(p, s, request, buffer).server == s
  {
    var head := [0x62, request[1], request[2]];
    assert Decide(p, s, request) == Decision(s, Value(head, request[1] as int * 256 + request[2], |value|));
    assert Overwrite(buffer, 0, head + value) == (head + value) + buffer[3 + |value|..];
  }

  /** The same read into a buffer that is too short aborts: its head is written as far as it fits, the value not at all. */
  lemma AbortedRead<D>(p: DataProvider<D>, s: Server<D>, request: seq<byte>, buffer: seq<byte>)
    requires NamesReadable(p, s.store, request) && !Denied(p, s, request)
    requires |buffer| < 3 + p.readLen(s.store, request[1] as int * 256 + request[2]).value
    ensures var head := [0x62, request[1], request[2]];
            Respond(p, s, request, buffer).written ==
            Written(if |buffer| < 3 then head[..|buffer|] else head + buffer[3..], Aborted)
  {
    var head := [0x62, request[1], request[2]];
    assert |buffer| >= 3 ==> Overwrite(buffer, 0, head) == head + buffer[3..];
  }

  /** Over every run without a correct key, a read of an identifier 0xF100 to 0xF1FF is refused. */
  lemma ReservedStaysHidden<D>(p: DataProvider<D>, store: D, h: seq<Event>, n: nat, request: seq<byte>, buffer: seq<byte>)
    requires n <= |h| && forall k :: 0 <= k < n ==> !IsKey(h[k])
    requires HasService(request, 0x22, 3) && request[1] == 0xF1 && |buffer| >= 3
    ensures var w := Respond(p, At(p, store, h, n), request, buffer).written;
            if NamesReadable(p, store, request) then Refuses(w, buffer, request, 0x33)
            else Refuses(w, buffer, request, 0x31)
  {
    StateIsHistory(p, store, h, n);
    NoKeyNoChange(p, store, h, n);
    RefusalsExactly(p, At(p, store, h, n), request, buffer);
  }

  /** The handshake: the key that unlocks is the complement of the seed that was handed out, and no other. */
  lemma SeedAndKey<D>(p: DataProvider<D>, s: Server<D>, buffer: seq<byte>, key: byte)
    requires |buffer| >= 3
    ensures var seeded := Respond(p, s, [0x27, 0x01], buffer);
            var seed := seeded.written.buffer[2];
            var keyed := Respond(p, seeded.server, [0x27, 0x02, key], buffer);
            && seeded.server == s && Answers(seeded.written, buffer, [0x67, 0x01, seed])
            && keyed.server == (if key == 0xFF - seed then s.(security := Unlocked) else s)
            && (Answers(keyed.written, buffer, [0x67, 0x02]) <==> key == 0xFF - seed)
            && (Refuses(keyed.written, buffer, [0x27, 0x02, key], 0x35) <==> key != 0xFF - seed)
  {
    PositiveResponses(p, s, [0x27, 0x01], buffer);
    PositiveResponses(p, s, [0x27, 0x02, key], buffer);
    RefusalsExactly(p, s, [0x27, 0x02, key], buffer);
    assert ([0x67, 0x01, 0xAA] + buffer[3..])[2] == 0xAA;
    assert Decide(p, s, [0x27, 0x01]).server == s;
  }

  // ---------------------------------------------------------------------------
  // What is written, and what is read back
  // ---------------------------------------------------------------------------

  /** Event `k` is a write that reaches the provider: a correct key is in force. */
  ghost predicate WriteReaches(h: seq<Event>, k: nat) {
    k < |h| && h[k].Request? && HasService(h[k].bytes, 0x2E, 3) && UnlockedBy(h, k)
  }

  /** The identifier that the first two bytes after the service name. */
  function Target(request: seq<byte>): nat
    requires |request| >= 3
  {
    request[1] as int * 256 + request[2]
  }

  /** `store` with the writes of the first `n` events that reach the provider applied to it, and nothing else. */
  ghost function StoreOf<D>(p: DataProvider<D>, store: D, h: seq<Event>, n: nat): D
    requires n <= |h|
  {
    if n == 0 then store
    else
      var before := StoreOf(p, store, h, n - 1);
      if WriteReaches(h, n - 1)
      then p.write(before, Target(h[n - 1].bytes), h[n - 1].bytes[3..]).0
      else before
  }

  lemma StoreStep<D>(p: DataProvider<D>, s: Server<D>, e: Event)
    ensures Apply(p, s, e).store ==
            if e.Request? && HasService(e.bytes, 0x2E, 3) && s.security == Unlocked
            then p.write(s.store, Target(e.bytes), e.bytes[3..]).0 else s.store
  {
  }

  /** Over every run the store is what the accepted and refused writes under a correct key have made of it. */
  lemma {:induction false} StoreIsWrites<D>(p: DataProvider<D>, store: D, h: seq<Event>, n: nat)
    requires n <= |h|
    ensures At(p, store, h, n).store == StoreOf(p, store, h, n)
  {
    if n > 0 {
      StoreIsWrites(p, store, h, n - 1);
      StateIsHistory(p, store, h, n - 1);
      StoreStep(p, At(p, store, h, n - 1), h[n - 1]);
    }
  }

  /** Reading `did` gives `value`, with that length. */
  ghost predicate Holds<D>(p: DataProvider<D>, store: D, did: nat, value: seq<byte>) {
    p.readLen(store, did) == Some(|value|) && forall out :: |out| == |value| ==> p.read(store, did, out) == value
  }

  /** A provider that keeps what it accepts, until it accepts something else for the same identifier. */
  ghost predicate KeepsData<D(!new)>(p: DataProvider<D>) {
    && (forall store, did, data :: p.write(store, did, data).1 ==> Holds(p, p.write(store, did, data).0, did, data))
    && (forall store, did, data, other, value ::
          (other != did || !p.write(store, did, data).1) && Holds(p, store, other, value) ==>
            Holds(p, p.write(store, did, data).0, other, value))
  }

  /** There are such providers. */
  function MapProvider(): DataProvider<map<nat, seq<byte>>> {
    DataProvider((m: map<nat, seq<byte>>, did: nat) => if did in m then Some(|m[did]|) else None,
                 (m: map<nat, seq<byte>>, did: nat, out: seq<byte>) => if did in m then m[did] else out,
                 (m: map<nat, seq<byte>>, did: nat, data: seq<byte>) => (m[did := data], true))
  }

  lemma MapProviderKeepsData()
    ensures KeepsData(MapProvider())
  {
  }

  /** Event `k` is a write of `data` to `did` that is accepted. */
  ghost predicate Accepted<D>(p: DataProvider<D>, store: D, h: seq<Event>, k: nat, did: nat, data: seq<byte>) {
    && WriteReaches(h, k) && Target(h[k].bytes) == did && h[k].bytes[3..] == data
    && p.write(StoreOf(p, store, h, k), did, data).1
  }

  /** None of the events after `k` and before `n` is an accepted write to `did`. */
  ghost predicate Undisturbed<D>(p: DataProvider<D>, store: D, h: seq<Event>, k: nat, n: nat, did: nat) {
    forall j, data :: k < j < n ==> !Accepted(p, store, h, j, did, data)
  }

  lemma {:induction false} HeldSince<D(!new)>(
    p: DataProvider<D>, store: D, h: seq<Event>, k: nat, n: nat, did: nat, data: seq<byte>)
    requires KeepsData(p) && k < n <= |h|
    requires Accepted(p, store, h, k, did, data) && Undisturbed(p, store, h, k, n, did)
    ensures Holds(p, StoreOf(p, store, h, n), did, data)
    decreases n
  {
    if k + 1 < n {
      HeldSince(p, store, h, k, n - 1, did, data);
      if WriteReaches(h, n - 1) {
        assert !Accepted(p, store, h, n - 1, did, h[n - 1].bytes[3..]);
      }
    }
  }

  /**
    * Read-back: whatever happens in between, a read returns what the latest accepted write to its identifier
    * wrote, provided that it fits a response and the identifier may be read.
    */
  lemma ReadsBack<D(!new)>(
    p: DataProvider<D>, store: D, h: seq<Event>, k: nat, n: nat, request: seq<byte>, data: seq<byte>, buffer: seq<byte>)
    requires KeepsData(p) && k < n <= |h| && HasService(request, 0x22, 3)
    requires Accepted(p, store, h, k, Target(request), data) && Undisturbed(p, store, h, k, n, Target(request))
    requires |data| <= 7 && |buffer| >= 3 + |data| && (request[1] == 0xF1 ==> UnlockedBy(h, n))
    ensures Answers(Respond(p, At(p, store, h, n), request, buffer).written, buffer, [0x62, request[1], request[2]] + data)
  {
    HeldSince(p, store, h, k, n, Target(request), data);
    StoreIsWrites(p, store, h, n);
    StateIsHistory(p, store, h, n);
    PositiveRead(p, At(p, store, h, n), request, buffer, data);
  }
}
