/** The life cycle of one update, which packages get through it, and the bytes that make a package and a journal. */
module OtaLifeCycle {
  import opened Bytes
  import opened Ota
  import opened OtaSafety

  // ---------------------------------------------------------------------------
  // Which packages are staged
  // ---------------------------------------------------------------------------

  /** A package whose length is right and small enough, whose signature is accepted, and whose slot exists. */
  predicate Acceptable(verify: Verifier, s: Store, p: Package, payload: seq<byte>, sig: seq<byte>) {
    && |payload| == p.payloadLen && |payload| <= |s.slots[0]| && |payload| <= 4096
    && verify(Signed(p, payload), sig) && (p.slot == 0 || p.slot == 1)
  }

  /** Acceptable packages are staged, whatever the journal says, and every other package changes nothing. */
  lemma StagedExactly(verify: Verifier, s: Store, p: Package, payload: seq<byte>, sig: seq<byte>)
    ensures StageFault(verify, s, p, payload, sig).None? <==> Acceptable(verify, s, p, payload, sig)
    ensures var r := AfterStage(verify, s, p, payload, sig);
            if !Acceptable(verify, s, p, payload, sig) then r == s
            else
              && r.state == Pending(p.slot) && r.slots[1 - p.slot] == s.slots[1 - p.slot]
              && r.slots[p.slot] == payload + s.slots[p.slot][|payload|..]
  {
  }

  /** Why a package is refused: the first of the checks that it fails, the signature before the slot. */
  lemma RefusalsExactly(verify: Verifier, s: Store, p: Package, payload: seq<byte>, sig: seq<byte>)
    ensures var fault := StageFault(verify, s, p, payload, sig);
            var fits := |payload| == p.payloadLen && |payload| <= |s.slots[0]| && |payload| <= 4096;
            && (fault == Some(BadPackage) <==> |payload| != p.payloadLen)
            && (fault == Some(PayloadTooLarge) <==> |payload| == p.payloadLen && !fits)
            && (fault == Some(BadSignature) <==> fits && !verify(Signed(p, payload), sig))
            && (fault == Some(WriteFailed) <==> fits && verify(Signed(p, payload), sig) && p.slot >= 2)
  {
  }

  // ---------------------------------------------------------------------------
  // The life cycle
  // ---------------------------------------------------------------------------

  /** The journal is settled on `slot`. */
  predicate SettledOn(j: SlotState, slot: nat) {
    (slot == 0 && j.ActiveSlot0?) || (slot == 1 && j.ActiveSlot1?)
  }

  /** The slot has the payload at its front, and behind it what was there before. */
  predicate Installed(s: Store, before: Store, slot: nat, payload: seq<byte>)
    requires slot <= 1
  {
    |payload| <= |before.slots[slot]| && s.slots[slot] == payload + before.slots[slot][|payload|..]
  }

  /**
    * An acceptable package for the inactive slot of a settled device. Staged, it leaves the old image in charge;
    * promoted, it is in charge with the old one to fall back to; then committing settles on it with the
    * payload in place, and rolling back restores the journal. The old image is never touched.
    */
  lemma UpdateLifeCycle(verify: Verifier, s: Store, p: Package, payload: seq<byte>, sig: seq<byte>, previous: nat)
    requires previous <= 1 && SettledOn(s.state, previous) && p.slot == 1 - previous && Acceptable(verify, s, p, payload, sig)
    ensures var staged := AfterStage(verify, s, p, payload, sig);
            var promoted := AfterPromote(staged);
            var committed, rolled := AfterCommit(promoted), AfterRollback(promoted);
            && staged.state == Pending(p.slot) && staged.state.ActiveSlot() == previous
            && promoted.state == Testing(p.slot, previous) && promoted.state.ActiveSlot() == p.slot as nat
            && SettledOn(committed.state, p.slot) && committed.state.ActiveSlot() == p.slot as nat
            && rolled.state == s.state && rolled.state.ActiveSlot() == previous
            && (forall r :: r in {staged, promoted, committed, rolled} ==>
                  Installed(r, s, p.slot, payload) && r.slots[previous] == s.slots[previous])
  {
    StagedExactly(verify, s, p, payload, sig);
  }

  /** A device that restarts on the way: once into the new image, and twice back to the old one. */
  lemma UpdateRestarts(verify: Verifier, s: Store, p: Package, payload: seq<byte>, sig: seq<byte>)
    requires IsSettled(s.state) && p.slot != s.state.ActiveSlot() && Acceptable(verify, s, p, payload, sig)
    ensures var staged := AfterStage(verify, s, p, payload, sig);
            && AfterRecover(s) == s
            && AfterRecover(staged) == AfterPromote(staged)
            && AfterRecover(AfterPromote(staged)) == AfterRollback(AfterPromote(staged))
            && AfterRecover(AfterRecover(staged)).state == s.state
            && AfterRecover(AfterCommit(AfterPromote(staged))) == AfterCommit(AfterPromote(staged))
  {
    StagedExactly(verify, s, p, payload, sig);
  }

  /** Outside their states, the three commands do nothing; a journal never moves in any other way. */
  lemma CommandsOutOfPlace(s: Store)
    ensures AfterPromote(s) != s <==> s.state.Pending?
    ensures AfterCommit(s) != s <==> s.state.Testing?
    ensures AfterRollback(s) != s <==> s.state.Testing?
    ensures AfterRecover(s) != s <==> s.state.Pending? || s.state.Testing?
  {
  }

  // ---------------------------------------------------------------------------
  // Bytes
  // ---------------------------------------------------------------------------

  /** The ten bytes of a package header. */
  lemma HeaderLayout(p: Package)
    ensures var h := Header(p);
            && |h| == 10 && (forall i :: 0 <= i < 4 ==> h[i] == "TPT1"[i] as int)
            && h[4] == 1 && h[5] == p.slot
            && ((h[6] as int * 256 + h[7]) * 256 + h[8]) * 256 + h[9] == p.payloadLen
  {
    ToThenFromBe32(p.payloadLen);
    var h, len := Header(p), ToBe32(p.payloadLen);
    assert h[6] == len[0] && h[7] == len[1] && h[8] == len[2] && h[9] == len[3];
  }

  /** The signature covers these ten bytes and the payload, in that order. */
  lemma SignedLayout(p: Package, payload: seq<byte>)
    ensures |Signed(p, payload)| == 10 + |payload|
    ensures Signed(p, payload)[..10] == Header(p) && Signed(p, payload)[10..] == payload
  {
  }

  /** The two journal bytes of each state; all other bytes are refused. */
  lemma JournalBytes(tag: byte, slots: byte)
    ensures var j := DecodeState((tag, slots));
            && (j == Some(ActiveSlot0) <==> tag == 0 && slots == 0)
            && (j == Some(ActiveSlot1) <==> tag == 0 && slots == 1)
            && (forall c: byte :: j == Some(Pending(c)) <==> tag == 1 && slots == c && c <= 1)
            && (forall a: byte, f: byte ::
                  j == Some(Testing(a, f)) <==> tag == 2 && slots == 2 * a + f && a <= 1 && f <= 1)
            && (j.None? <==> tag >= 3 || slots >= (if tag == 2 then 4 else 2))
  {
  }
}
