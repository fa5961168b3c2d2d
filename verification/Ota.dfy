/** The A/B over-the-air update engine over its RAM storage backend. */
module Ota {
  import opened Bytes

  const OTA_FORMAT_VERSION: byte := 1
  const OTA_MAX_PAYLOAD := 4096
  const HEADER_LEN := 10
  const RAM_SLOT_CAP := 1024

  /** The bytes of "TPT1". */
  function Magic(): seq<byte> { [0x54, 0x50, 0x54, 0x31] }

  datatype OtaError = BadPackage | BadSignature | PayloadTooLarge | WriteFailed | NoCandidate | InvalidState | Storage

  /** `SignatureScheme::verify`: data and signature. */
  type Verifier = (seq<byte>, seq<byte>) -> bool

  // ---------------------------------------------------------------------------
  // The journal
  // ---------------------------------------------------------------------------

  datatype SlotState =
    | ActiveSlot0
    | ActiveSlot1
    | Pending(candidate: byte)
    | Testing(active: byte, fallback: byte)
  {
    /** Slots are 0 and 1; anything else makes `1 - candidate` underflow. */
    predicate Valid() {
      match this
      case Pending(c) => c <= 1
      case Testing(a, f) => a <= 1 && f <= 1
      case _ => true
    }

    function ActiveSlot(): (slot: nat)
      requires Valid()
      ensures slot <= 1
    {
      match this
      case ActiveSlot0 => 0
      case ActiveSlot1 => 1
      case Pending(c) => 1 - c
      case Testing(a, _) => a
    }

    function Encode(): (r: (byte, byte))
      requires Valid()
    {
      match this
      case ActiveSlot0 => (0, 0)
      case ActiveSlot1 => (0, 1)
      case Pending(c) => (1, c)
      case Testing(a, f) => (2, a * 2 + f)
    }
  }

  function Settled(slot: nat): SlotState { if slot == 0 then ActiveSlot0 else ActiveSlot1 }

  function DecodeState(bytes: (byte, byte)): Option<SlotState> {
    if bytes.0 == 0 then
      if bytes.1 == 0 then Some(ActiveSlot0) else if bytes.1 == 1 then Some(ActiveSlot1) else None
    else if bytes.0 == 1 then
      if bytes.1 <= 1 then Some(Pending(bytes.1)) else None
    else if bytes.0 == 2 then
      if bytes.1 / 2 <= 1 && bytes.1 % 2 <= 1 then Some(Testing(bytes.1 / 2, bytes.1 % 2)) else None
    else None
  }

  /** The journal codec is a bijection between the valid states and the bytes it accepts. */
  lemma JournalRoundTrip(s: SlotState, bytes: (byte, byte))
    ensures s.Valid() ==> DecodeState(s.Encode()) == Some(s)
    ensures DecodeState(bytes).Some? ==> DecodeState(bytes).value.Valid() && DecodeState(bytes).value.Encode() == bytes
  {
    if s.Testing? && s.Valid() {
      assert (s.active * 2 + s.fallback) / 2 == s.active;
      assert (s.active * 2 + s.fallback) % 2 == s.fallback;
    }
  }

  // ---------------------------------------------------------------------------
  // Packages
  // ---------------------------------------------------------------------------

  datatype UpdatePackage = UpdatePackage(slot: byte, payloadLen: nat) {
    predicate Valid() { payloadLen < 0x1_0000_0000 }
  }

  type Package = p: UpdatePackage | p.Valid() witness UpdatePackage(0, 0)

  function Header(p: Package): (h: seq<byte>)
    ensures |h| == HEADER_LEN
  {
    Magic() + [OTA_FORMAT_VERSION, p.slot] + ToBe32(p.payloadLen)
  }

  method EncodeHeader(p: Package, out: array<byte>)
    requires out.Length >= HEADER_LEN
    modifies out
    ensures out[..] == Overwrite(old(out[..]), 0, Header(p))
  {
    CopyFromSlice(out, 0, Magic());
    out[4] := OTA_FORMAT_VERSION;
    out[5] := p.slot;
    CopyFromSlice(out, 6, ToBe32(p.payloadLen));
  }

  function DecodeHeader(bytes: seq<byte>): Option<Package> {
    if |bytes| < HEADER_LEN then None
    else if bytes[0..4] != Magic() then None
    else if bytes[4] != OTA_FORMAT_VERSION then None
    else if bytes[5] > 1 then None
    else Some(UpdatePackage(bytes[5], FromBe32(bytes[6..10])))
  }

  /** Headers decode to what they were made from unless they name a slot that does not exist. */
  lemma HeaderRoundTrip(p: Package, rest: seq<byte>)
    ensures DecodeHeader(Header(p) + rest) == if p.slot <= 1 then Some(p) else None
  {
    var h := Header(p) + rest;
    ToThenFromBe32(p.payloadLen);
    assert h[0..4] == Magic();
    assert h[6..10] == ToBe32(p.payloadLen);
  }

  lemma HeaderRoundTripBack(bytes: seq<byte>)
    requires DecodeHeader(bytes).Some?
    ensures Header(DecodeHeader(bytes).value) == bytes[..HEADER_LEN]
  {
    FromThenToBe32(bytes[6..10]);
    assert bytes[..10] == bytes[0..4] + [bytes[4], bytes[5]] + bytes[6..10];
  }

  /** What a package signature covers. */
  function Signed(p: Package, payload: seq<byte>): seq<byte> { Header(p) + payload }

  /** A signature binds the target slot and the image: no other package has the same signed bytes. */
  lemma SignedBindsSlotAndImage(p: Package, payload: seq<byte>, q: Package, other: seq<byte>)
    requires Signed(p, payload) == Signed(q, other)
    ensures p == q && payload == other
  {
    var s := Signed(p, payload);
    assert s[5] == p.slot && s[5] == q.slot;
    assert s[6..10] == ToBe32(p.payloadLen) && s[6..10] == ToBe32(q.payloadLen);
    ToThenFromBe32(p.payloadLen);
    ToThenFromBe32(q.payloadLen);
    assert s[10..] == payload && s[10..] == other;
  }

  // ---------------------------------------------------------------------------
  // Storage
  // ---------------------------------------------------------------------------

  /** The persistent bytes: two image slots of one capacity, and the journal. */
  datatype StoreState = StoreState(slots: seq<seq<byte>>, state: SlotState) {
    predicate Valid() { |slots| == 2 && |slots[0]| == |slots[1]| && state.Valid() }
  }

  type Store = s: StoreState | s.Valid() witness StoreState([[], []], ActiveSlot0)

  function Capacity(s: Store): nat { |s.slots[0]| }

  /** `slot` with `data` written from its first byte on. */
  function WithImage(s: Store, slot: nat, data: seq<byte>): (r: Store)
    requires slot <= 1 && |data| <= Capacity(s)
    ensures r.slots[slot] == Overwrite(s.slots[slot], 0, data)
    ensures r.slots[1 - slot] == s.slots[1 - slot] && r.state == s.state
  {
    s.(slots := s.slots[slot := Overwrite(s.slots[slot], 0, data)])
  }

  class ZephyrOtaStorage {
    const slot0: array<byte>
    const slot1: array<byte>
    var state: SlotState

    ghost predicate Valid()
      reads this
    {
      slot0 != slot1 && slot0.Length == RAM_SLOT_CAP && slot1.Length == RAM_SLOT_CAP && state.Valid()
    }

    ghost function View(): StoreState
      reads this, slot0, slot1
    {
      StoreState([slot0[..], slot1[..]], state)
    }

    constructor ()
      ensures Valid() && fresh(slot0) && fresh(slot1)
      ensures View() == StoreState([Zeros(1024), Zeros(1024)], ActiveSlot0)
    {
      slot0 := new byte[RAM_SLOT_CAP](_ => 0);
      slot1 := new byte[RAM_SLOT_CAP](_ => 0);
      state := ActiveSlot0;
      new;
      assert slot0[..] == Zeros(RAM_SLOT_CAP) && slot1[..] == Zeros(RAM_SLOT_CAP);
    }

    method WriteSlot(slot: byte, offset: nat, data: seq<byte>) returns (r: Result<(), OtaError>)
      requires Valid()
      modifies slot0, slot1
      ensures Valid()
      ensures r.Ok? <==> slot <= 1 && offset + |data| <= RAM_SLOT_CAP
      ensures r.Err? ==> r.error == Storage && View() == old(View())
      ensures r.Ok? ==>
                View() == old(View()).(slots := old(View()).slots[slot := Overwrite(old(View()).slots[slot], offset, data)])
    {
      if slot > 1 {
        return Err(Storage);
      }
      var s := if slot == 0 then slot0 else slot1;
      if offset + |data| > s.Length {
        return Err(Storage);
      }
      CopyFromSlice(s, offset, data);
      r := Ok(());
    }

    method ReadSlot(slot: byte, offset: nat, buf: array<byte>) returns (r: Result<(), OtaError>)
      requires Valid() && buf != slot0 && buf != slot1
      modifies buf
      ensures r.Ok? <==> slot <= 1 && offset + buf.Length <= RAM_SLOT_CAP
      ensures r.Err? ==> r.error == Storage && buf[..] == old(buf[..])
      ensures r.Ok? ==> buf[..] == View().slots[slot][offset..offset + buf.Length]
    {
      if slot > 1 {
        return Err(Storage);
      }
      var s := if slot == 0 then slot0 else slot1;
      if offset + buf.Length > s.Length {
        return Err(Storage);
      }
      CopyFromSlice(buf, 0, s[offset..offset + buf.Length]);
      r := Ok(());
    }

    method WriteState(next: SlotState) returns (r: Result<(), OtaError>)
      requires Valid() && next.Valid()
      modifies this`state
      ensures Valid() && r == Ok(()) && View() == old(View()).(state := next)
    {
      state := next;
      r := Ok(());
    }

    method ReadState() returns (r: Result<SlotState, OtaError>)
      ensures r == Ok(View().state)
    {
      r := Ok(state);
    }
  }

  // ---------------------------------------------------------------------------
  // The engine's commands
  // ---------------------------------------------------------------------------

  /** Why `stage` refuses a package, in the order in which it looks; it never looks at the journal. */
  function StageFault(verify: Verifier, s: Store, p: Package, payload: seq<byte>, sig: seq<byte>): Option<OtaError> {
    if |payload| != p.payloadLen then Some(BadPackage)
    else if |payload| > Capacity(s) || |payload| > OTA_MAX_PAYLOAD then Some(PayloadTooLarge)
    else if !verify(Signed(p, payload), sig) then Some(BadSignature)
    else if p.slot > 1 then Some(WriteFailed)
    else None
  }

  function AfterStage(verify: Verifier, s: Store, p: Package, payload: seq<byte>, sig: seq<byte>): Store {
    if StageFault(verify, s, p, payload, sig).Some? then s
    else WithImage(s, p.slot, payload).(state := Pending(p.slot))
  }

  function AfterPromote(s: Store): Store {
    if s.state.Pending? then s.(state := Testing(s.state.candidate, 1 - s.state.candidate)) else s
  }

  function AfterCommit(s: Store): Store {
    if s.state.Testing? then s.(state := Settled(s.state.active)) else s
  }

  function AfterRollback(s: Store): Store {
    if s.state.Testing? then s.(state := Settled(s.state.fallback)) else s
  }

  /** `recover` promotes a pending candidate and gives up one under test. */
  function AfterRecover(s: Store): Store {
    if s.state.Pending? then AfterPromote(s) else AfterRollback(s)
  }

  class OtaEngine {
    const storage: ZephyrOtaStorage
    const verify: Verifier

    constructor (storage: ZephyrOtaStorage, verify: Verifier)
      ensures this.storage == storage && this.verify == verify
    {
      this.storage, this.verify := storage, verify;
    }

    method Recover() returns (r: Result<nat, OtaError>)
      requires storage.Valid()
      modifies storage`state
      ensures storage.Valid() && storage.View() == AfterRecover(old(storage.View()))
      ensures r == Ok(storage.View().state.ActiveSlot())
    {
      var read := storage.ReadState();
      var resolved := match read.value
        case Pending(c) => Testing(c, 1 - c)
        case Testing(_, f) => if f == 0 then ActiveSlot0 else ActiveSlot1
        case other => other;
      var active := resolved.ActiveSlot();
      var _ := storage.WriteState(resolved);
      r := Ok(active);
    }

    method Stage(p: Package, payload: seq<byte>, sig: seq<byte>) returns (r: Result<(), OtaError>)
      requires storage.Valid()
      modifies storage`state, storage.slot0, storage.slot1
      ensures storage.Valid() && storage.View() == AfterStage(verify, old(storage.View()), p, payload, sig)
      ensures var fault := StageFault(verify, old(storage.View()), p, payload, sig);
              r == if fault.Some? then Err(fault.value) else Ok(())
    {
      if |payload| != p.payloadLen {
        return Err(BadPackage);
      }
      if |payload| > RAM_SLOT_CAP || |payload| > OTA_MAX_PAYLOAD {
        return Err(PayloadTooLarge);
      }
      var signed := new byte[HEADER_LEN + OTA_MAX_PAYLOAD](_ => 0);
      EncodeHeader(p, signed);
      CopyFromSlice(signed, HEADER_LEN, payload);
      assert signed[..HEADER_LEN + |payload|] == Signed(p, payload);
      if !verify(signed[..HEADER_LEN + |payload|], sig) {
        return Err(BadSignature);
      }
      var written := storage.WriteSlot(p.slot, 0, payload);
      if written.Err? {
        return Err(WriteFailed);
      }
      var _ := storage.WriteState(Pending(p.slot));
      r := Ok(());
    }

    method Promote() returns (r: Result<byte, OtaError>)
      requires storage.Valid()
      modifies storage`state
      ensures storage.Valid() && storage.View() == AfterPromote(old(storage.View()))
      ensures var s := old(storage.View()).state;
              r == if s.Pending? then Ok(s.candidate) else Err(NoCandidate)
    {
      var read := storage.ReadState();
      match read.value
      case Pending(c) =>
        var _ := storage.WriteState(Testing(c, 1 - c));
        r := Ok(c);
      case _ =>
        r := Err(NoCandidate);
    }

    method Commit() returns (r: Result<byte, OtaError>)
      requires storage.Valid()
      modifies storage`state
      ensures storage.Valid() && storage.View() == AfterCommit(old(storage.View()))
      ensures var s := old(storage.View()).state;
              r == if s.Testing? then Ok(s.active) else Err(InvalidState)
    {
      var read := storage.ReadState();
      match read.value
      case Testing(a, _) =>
        var _ := storage.WriteState(if a == 0 then ActiveSlot0 else ActiveSlot1);
        r := Ok(a);
      case _ =>
        r := Err(InvalidState);
    }

    /** Returns the slot that was under test, not the one it restores. */
    method Rollback() returns (r: Result<byte, OtaError>)
      requires storage.Valid()
      modifies storage`state
      ensures storage.Valid() && storage.View() == AfterRollback(old(storage.View()))
      ensures var s := old(storage.View()).state;
              r == if s.Testing? then Ok(s.active) else Err(InvalidState)
    {
      var read := storage.ReadState();
      match read.value
      case Testing(a, f) =>
        var _ := storage.WriteState(if f == 0 then ActiveSlot0 else ActiveSlot1);
        r := Ok(a);
      case _ =>
        r := Err(InvalidState);
    }
  }
}
