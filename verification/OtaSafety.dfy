/** What the update engine guarantees over every run, with power loss at any point. */
module OtaSafety {
  import opened Bytes
  import opened Ota

  // ---------------------------------------------------------------------------
  // Runs with power loss
  // ---------------------------------------------------------------------------

  /**
    * One step of a run. The journal is written atomically and last, so power loss during `promote`,
    * `commit`, `rollback` or `recover` leaves the store as if the call had not begun or had returned.
    * `StageCut` is power loss during or after the slot write of `stage`: `written` is whatever the
    * interrupted write left in the bytes it was to cover, the payload itself if only the journal is missing.
    */
  datatype Event =
    | Stage(package: Package, payload: seq<byte>, sig: seq<byte>)
    | StageCut(package: Package, payload: seq<byte>, sig: seq<byte>, written: seq<byte>)
    | Promote
    | Commit
    | Rollback
    | Recover

  /** The event gets past the checks of `stage` and writes to its slot. */
  predicate Writes(verify: Verifier, s: Store, e: Event) {
    && (e.Stage? || e.StageCut?)
    && StageFault(verify, s, e.package, e.payload, e.sig).None?
    && (e.StageCut? ==> |e.written| == |e.payload|)
  }

  /** The bytes that a write leaves at the front of its slot. */
  function Image(e: Event): seq<byte>
    requires e.Stage? || e.StageCut?
  {
    if e.Stage? then e.payload else e.written
  }

  function Apply(verify: Verifier, s: Store, e: Event): (r: Store)
    ensures Capacity(r) == Capacity(s)
  {
    match e
    case Stage(p, payload, sig) => AfterStage(verify, s, p, payload, sig)
    case StageCut(p, _, _, written) => if Writes(verify, s, e) then WithImage(s, p.slot, written) else s
    case Promote => AfterPromote(s)
    case Commit => AfterCommit(s)
    case Rollback => AfterRollback(s)
    case Recover => AfterRecover(s)
  }

  /** The store after the first `n` events of a run that begins with `s`. */
  function At(verify: Verifier, s: Store, es: seq<Event>, n: nat): (r: Store)
    requires n <= |es|
    ensures Capacity(r) == Capacity(s)
  {
    if n == 0 then s else Apply(verify, At(verify, s, es, n - 1), es[n - 1])
  }

  /** The bytes of a slot at that point. */
  function SlotAt(verify: Verifier, s: Store, es: seq<Event>, n: nat, slot: nat): (bytes: seq<byte>)
    requires n <= |es| && slot <= 1
    ensures |bytes| == Capacity(s)
  {
    At(verify, s, es, n).slots[slot]
  }

  predicate IsSettled(s: SlotState) { s.ActiveSlot0? || s.ActiveSlot1? }

  /** If `kept` goes on holding from one point to the next exactly where `cond` does, they hold throughout together. */
  lemma {:induction false} ThroughoutExactly(kept: seq<bool>, cond: seq<bool>)
    requires |kept| == |cond| + 1 && kept[0]
    requires forall k :: 0 <= k < |cond| && kept[k] ==> (kept[k + 1] <==> cond[k])
    ensures (forall m :: 0 <= m < |kept| ==> kept[m]) <==> (forall k :: 0 <= k < |cond| ==> cond[k])
    decreases |cond|
  {
    if forall m :: 0 <= m < |kept| ==> kept[m] {
      forall k | 0 <= k < |cond| ensures cond[k] {
        assert kept[k] && kept[k + 1];
      }
    }
    if cond != [] && forall k :: 0 <= k < |cond| ==> cond[k] {
      var n := |cond| - 1;
      ThroughoutExactly(kept[..n + 1], cond[..n]);
      forall m | 0 <= m <= n ensures kept[m] {
        assert kept[..n + 1][m];
      }
      assert kept[n] && cond[n];
    }
  }

  // ---------------------------------------------------------------------------
  // The last known good slot
  // ---------------------------------------------------------------------------

  /** The slot that the journal itself treats as good: where an uncommitted update falls back to. */
  function Good(s: SlotState): (slot: nat)
    requires s.Valid()
    ensures slot <= 1
  {
    match s
    case Testing(_, f) => f
    case _ => s.ActiveSlot()
  }

  /** The event commits an image under test. */
  predicate Commits(s: Store, e: Event) { e.Commit? && s.state.Testing? }

  /** The slot committed last in the run, or the good slot it began with. */
  function LastGood(verify: Verifier, s: Store, es: seq<Event>, n: nat): (slot: nat)
    requires n <= |es|
    ensures slot <= 1
  {
    if n == 0 then Good(s.state)
    else
      var before := At(verify, s, es, n - 1);
      if Commits(before, es[n - 1]) then before.state.active else LastGood(verify, s, es, n - 1)
  }

  /** The bytes of that slot when it became the good one. */
  function GoodImage(verify: Verifier, s: Store, es: seq<Event>, n: nat): seq<byte>
    requires n <= |es|
  {
    if n == 0 then s.slots[Good(s.state)]
    else
      var before := At(verify, s, es, n - 1);
      if Commits(before, es[n - 1]) then before.slots[before.state.active] else GoodImage(verify, s, es, n - 1)
  }

  /** The journal points to the last known good slot, and the slot holds the bytes it became good with. */
  predicate KeepsGood(verify: Verifier, s: Store, es: seq<Event>, n: nat)
    requires n <= |es|
  {
    && Good(At(verify, s, es, n).state) == LastGood(verify, s, es, n)
    && At(verify, s, es, n).slots[LastGood(verify, s, es, n)] == GoodImage(verify, s, es, n)
  }

  /** No staging into the good slot completes, and none that is cut short changes a byte of it. */
  predicate SparesGood(verify: Verifier, s: Store, e: Event) {
    Writes(verify, s, e) && e.package.slot == Good(s.state) ==>
      e.StageCut? && s.slots[Good(s.state)][..|e.written|] == e.written
  }

  predicate SparesGoodAt(verify: Verifier, s: Store, es: seq<Event>, k: nat)
    requires k < |es|
  {
    SparesGood(verify, At(verify, s, es, k), es[k])
  }

  /** Only a completed staging into the good slot makes the journal point elsewhere without a commit. */
  lemma StageMovesGood(verify: Verifier, s: Store, e: Event)
    ensures !Commits(s, e) ==>
              (Good(Apply(verify, s, e).state) == Good(s.state) <==>
               !(e.Stage? && Writes(verify, s, e) && e.package.slot == Good(s.state)))
    ensures Commits(s, e) ==> Good(Apply(verify, s, e).state) == s.state.active && Apply(verify, s, e).slots == s.slots
  {
  }

  /** A step keeps the good slot's bytes exactly when it writes elsewhere, or writes what is already there. */
  lemma GoodBytesKeptExactly(verify: Verifier, s: Store, e: Event)
    ensures Apply(verify, s, e).slots[Good(s.state)] == s.slots[Good(s.state)] <==>
            (Writes(verify, s, e) && e.package.slot == Good(s.state) ==>
               s.slots[Good(s.state)][..|Image(e)|] == Image(e))
  {
    if Writes(verify, s, e) && e.package.slot == Good(s.state) {
      RewriteIsSame(s.slots[Good(s.state)], Image(e));
    }
  }

  /** Writing over the front of a buffer changes nothing exactly when the bytes are there already. */
  lemma RewriteIsSame(was: seq<byte>, image: seq<byte>)
    requires |image| <= |was|
    ensures Overwrite(was, 0, image)[..|image|] == image
    ensures Overwrite(was, 0, image) == was <==> was[..|image|] == image
  {
    assert was == was[..|image|] + was[|image|..];
  }

  lemma KeepsGoodStep(verify: Verifier, s: Store, es: seq<Event>, n: nat)
    requires n < |es| && KeepsGood(verify, s, es, n)
    ensures KeepsGood(verify, s, es, n + 1) <==> SparesGoodAt(verify, s, es, n)
  {
    StageMovesGood(verify, At(verify, s, es, n), es[n]);
    GoodBytesKeptExactly(verify, At(verify, s, es, n), es[n]);
  }

  /**
    * Crash safety: if the good slot is spared, then wherever power fails the journal points to it, it
    * holds the bytes it became good with, and two calls of `recover` return to it.
    */
  lemma {:induction false} CrashSafety(verify: Verifier, s: Store, es: seq<Event>, n: nat)
    requires n <= |es| && forall k :: 0 <= k < n ==> SparesGoodAt(verify, s, es, k)
    ensures KeepsGood(verify, s, es, n)
    ensures var now := At(verify, s, es, n);
            var booted := AfterRecover(AfterRecover(now));
            booted.state == Settled(LastGood(verify, s, es, n)) && booted.slots == now.slots
  {
    if n > 0 {
      CrashSafety(verify, s, es, n - 1);
      KeepsGoodStep(verify, s, es, n - 1);
    }
    RecoverSettles(At(verify, s, es, n));
  }

  /** The hypothesis is exact: the good slot is kept throughout a run just when every event spares it. */
  lemma GoodSlotKeptExactly(verify: Verifier, s: Store, es: seq<Event>, n: nat)
    requires n <= |es|
    ensures (forall m :: 0 <= m <= n ==> KeepsGood(verify, s, es, m)) <==>
            (forall k :: 0 <= k < n ==> SparesGoodAt(verify, s, es, k))
  {
    var kept := seq(n + 1, m requires 0 <= m <= n => KeepsGood(verify, s, es, m));
    var cond := seq(n, k requires 0 <= k < n => SparesGoodAt(verify, s, es, k));
    forall k | 0 <= k < n && kept[k] ensures kept[k + 1] <==> cond[k] {
      KeepsGoodStep(verify, s, es, k);
    }
    ThroughoutExactly(kept, cond);
    assert forall m :: 0 <= m <= n ==> kept[m] == KeepsGood(verify, s, es, m);
    assert forall k :: 0 <= k < n ==> cond[k] == SparesGoodAt(verify, s, es, k);
  }

  /** The journal points to the last known good slot. */
  predicate TracksGood(verify: Verifier, s: Store, es: seq<Event>, n: nat)
    requires n <= |es|
  {
    Good(At(verify, s, es, n).state) == LastGood(verify, s, es, n)
  }

  /** Event `k` completes a staging into the good slot. */
  predicate StagesIntoGood(verify: Verifier, s: Store, es: seq<Event>, k: nat)
    requires k < |es|
  {
    es[k].Stage? && Writes(verify, At(verify, s, es, k), es[k]) && es[k].package.slot == Good(At(verify, s, es, k).state)
  }

  lemma TracksGoodStep(verify: Verifier, s: Store, es: seq<Event>, n: nat)
    requires n < |es| && TracksGood(verify, s, es, n)
    ensures TracksGood(verify, s, es, n + 1) <==> !StagesIntoGood(verify, s, es, n)
  {
    StageMovesGood(verify, At(verify, s, es, n), es[n]);
  }

  /** For the journal alone, torn writes do not matter: it is exact that no staging completes into the good slot. */
  lemma SparingIsNecessary(verify: Verifier, s: Store, es: seq<Event>, n: nat)
    requires n <= |es|
    ensures (forall m :: 0 <= m <= n ==> TracksGood(verify, s, es, m)) <==>
            (forall k :: 0 <= k < n ==> !StagesIntoGood(verify, s, es, k))
  {
    var kept := seq(n + 1, m requires 0 <= m <= n => TracksGood(verify, s, es, m));
    var cond := seq(n, k requires 0 <= k < n => !StagesIntoGood(verify, s, es, k));
    forall k | 0 <= k < n && kept[k] ensures kept[k + 1] <==> cond[k] {
      TracksGoodStep(verify, s, es, k);
    }
    ThroughoutExactly(kept, cond);
    assert forall m :: 0 <= m <= n ==> kept[m] == TracksGood(verify, s, es, m);
    assert forall k :: 0 <= k < n ==> cond[k] == !StagesIntoGood(verify, s, es, k);
  }

  /** Staging into the fallback during a test overwrites the good image, and settles on the image under test. */
  lemma StagingIntoFallbackLosesIt(verify: Verifier, s: Store, p: Package, payload: seq<byte>, sig: seq<byte>)
    requires s.state.Testing? && s.state.fallback == 1 - s.state.active && p.slot == s.state.fallback
    requires StageFault(verify, s, p, payload, sig).None?
    ensures var r := AfterStage(verify, s, p, payload, sig);
            && r.slots[s.state.fallback][..|payload|] == payload
            && AfterRecover(AfterRecover(r)).state == Settled(s.state.active)
  {
    var r := AfterStage(verify, s, p, payload, sig);
    RewriteIsSame(s.slots[s.state.fallback], payload);
    RecoverSettles(r);
  }

  // ---------------------------------------------------------------------------
  // Authenticity of what boots: where each slot's bytes came from
  // ---------------------------------------------------------------------------

  /** Event `k` of the run wrote to `slot`. */
  predicate WritesTo(verify: Verifier, s: Store, es: seq<Event>, k: nat, slot: nat) {
    k < |es| && Writes(verify, At(verify, s, es, k), es[k]) && es[k].package.slot == slot
  }

  /** The write was not torn: all of the payload is in the slot. */
  predicate WroteWhole(e: Event)
    requires e.Stage? || e.StageCut?
  {
    Image(e) == e.payload
  }

  /** `bytes` begin with the whole payload of `e`, which the signature that came with it covers. */
  predicate SignedBy(verify: Verifier, e: Event, bytes: seq<byte>) {
    && (e.Stage? || e.StageCut?)
    && e.package.payloadLen == |e.payload| <= |bytes|
    && verify(Signed(e.package, e.payload), e.sig) && bytes[..|e.payload|] == e.payload
  }

  /** Event `k` wrote its whole payload to `slot` under a signature of its own, and `bytes` are what was there then. */
  predicate LeftBy(verify: Verifier, s: Store, es: seq<Event>, k: nat, slot: nat, bytes: seq<byte>) {
    && k < |es| && slot <= 1 && WritesTo(verify, s, es, k, slot) && WroteWhole(es[k])
    && bytes == SlotAt(verify, s, es, k + 1, slot) && SignedBy(verify, es[k], bytes)
  }

  /**
    * The first `n` events account for `bytes` in `slot`: they are, byte for byte, what the slot was shipped
    * with, or what it held right after one of the events had written a whole signed image there.
    */
  ghost predicate Accounted(
    verify: Verifier, s: Store, es: seq<Event>, n: nat, shipped: set<nat>, slot: nat, bytes: seq<byte>)
    requires n <= |es| && slot <= 1
  {
    || (slot in shipped && bytes == s.slots[slot])
    || (exists k: nat :: k < n && LeftBy(verify, s, es, k, slot, bytes))
  }

  ghost predicate Authentic(verify: Verifier, s: Store, es: seq<Event>, n: nat, shipped: set<nat>, slot: nat)
    requires n <= |es| && slot <= 1
  {
    Accounted(verify, s, es, n, shipped, slot, SlotAt(verify, s, es, n, slot))
  }

  /** For each slot, the contents that are accounted for. */
  type Accounts = a: seq<set<seq<byte>>> | |a| == 2 witness [{}, {}]

  /** The accounts after the first `n` events, kept up to date event by event. */
  function AccountsAt(verify: Verifier, s: Store, es: seq<Event>, n: nat, shipped: set<nat>): Accounts
    requires n <= |es|
  {
    if n == 0 then [if 0 in shipped then {s.slots[0]} else {}, if 1 in shipped then {s.slots[1]} else {}]
    else AccountsAfter(verify, At(verify, s, es, n - 1), AccountsAt(verify, s, es, n - 1, shipped), es[n - 1])
  }

  /** Whole images are entered into the account of their slot. */
  function AccountsAfter(verify: Verifier, s: Store, known: Accounts, e: Event): Accounts {
    if Writes(verify, s, e) && WroteWhole(e)
    then known[e.package.slot := known[e.package.slot] + {Overwrite(s.slots[e.package.slot], 0, e.payload)}]
    else known
  }

  lemma WriteLands(verify: Verifier, s: Store, es: seq<Event>, k: nat, slot: nat)
    requires slot <= 1 && WritesTo(verify, s, es, k, slot)
    ensures |Image(es[k])| <= Capacity(s)
    ensures SlotAt(verify, s, es, k + 1, slot) == Overwrite(SlotAt(verify, s, es, k, slot), 0, Image(es[k]))
    ensures SlotAt(verify, s, es, k + 1, slot)[..|Image(es[k])|] == Image(es[k])
  {
    RewriteIsSame(SlotAt(verify, s, es, k, slot), Image(es[k]));
  }

  /** What is entered is what a signed image left. */
  lemma WholeWriteIsSigned(verify: Verifier, s: Store, es: seq<Event>, k: nat, slot: nat, bytes: seq<byte>)
    requires slot <= 1 && WritesTo(verify, s, es, k, slot) && WroteWhole(es[k])
    ensures |es[k].payload| <= Capacity(s)
    ensures LeftBy(verify, s, es, k, slot, bytes) <==>
            bytes == Overwrite(SlotAt(verify, s, es, k, slot), 0, es[k].payload)
  {
    WriteLands(verify, s, es, k, slot);
  }

  lemma AccountsStep(verify: Verifier, s: Store, es: seq<Event>, n: nat, shipped: set<nat>, slot: nat, bytes: seq<byte>)
    requires n < |es| && slot <= 1
    ensures bytes in AccountsAt(verify, s, es, n + 1, shipped)[slot] <==>
            bytes in AccountsAt(verify, s, es, n, shipped)[slot] || LeftBy(verify, s, es, n, slot, bytes)
  {
    if WritesTo(verify, s, es, n, slot) && WroteWhole(es[n]) {
      WholeWriteIsSigned(verify, s, es, n, slot, bytes);
    }
  }

  lemma AccountedStep(verify: Verifier, s: Store, es: seq<Event>, n: nat, shipped: set<nat>, slot: nat, bytes: seq<byte>)
    requires n < |es| && slot <= 1
    ensures Accounted(verify, s, es, n + 1, shipped, slot, bytes) <==>
            Accounted(verify, s, es, n, shipped, slot, bytes) || LeftBy(verify, s, es, n, slot, bytes)
  {
    hide LeftBy;
  }

  /** The accounts are exact: they hold just the contents that the run accounts for. */
  lemma {:induction false} AccountsAreExact(
    verify: Verifier, s: Store, es: seq<Event>, n: nat, shipped: set<nat>, slot: nat, bytes: seq<byte>)
    requires n <= |es| && slot <= 1
    ensures bytes in AccountsAt(verify, s, es, n, shipped)[slot] <==>
            Accounted(verify, s, es, n, shipped, slot, bytes)
  {
    hide LeftBy;
    if n > 0 {
      var m: nat := n - 1;
      AccountsAreExact(verify, s, es, m, shipped, slot, bytes);
      AccountsStep(verify, s, es, m, shipped, slot, bytes);
      AccountedStep(verify, s, es, m, shipped, slot, bytes);
    }
  }

  /** The contents of a slot are accounted for. */
  predicate Known(s: Store, known: Accounts, slot: nat)
    requires slot <= 1
  {
    s.slots[slot] in known[slot]
  }

  /** What runs and what may run next is accounted for. */
  predicate Sound(s: Store, known: Accounts) {
    && Known(s, known, s.state.ActiveSlot())
    && (!IsSettled(s.state) ==> Known(s, known, 0) && Known(s, known, 1))
    && (s.state.Testing? ==> s.state.fallback == 1 - s.state.active)
  }

  /**
    * The writes that keep a device sound: a staging completes while the other slot is accounted for; or power
    * is lost in the slot write, with nothing but the journal missing, or in the inactive slot of a settled
    * journal, or leaving contents that are accounted for already.
    */
  predicate SafeWrite(verify: Verifier, s: Store, known: Accounts, e: Event)
    requires Writes(verify, s, e)
  {
    var slot := e.package.slot;
    if e.Stage? then Known(s, known, 1 - slot)
    else
      || WroteWhole(e) || (IsSettled(s.state) && slot != s.state.ActiveSlot())
      || Overwrite(s.slots[slot], 0, e.written) in known[slot]
  }

  /** One step: events that do not write always keep a device sound, and a write does exactly if it is safe. */
  lemma SoundStepExactly(verify: Verifier, s: Store, known: Accounts, e: Event)
    requires Sound(s, known)
    ensures Sound(Apply(verify, s, e), AccountsAfter(verify, s, known, e)) <==>
            (Writes(verify, s, e) ==> SafeWrite(verify, s, known, e))
  {
    if Writes(verify, s, e) {
      SoundWriteExactly(verify, s, known, e);
    }
  }

  lemma SoundWriteExactly(verify: Verifier, s: Store, known: Accounts, e: Event)
    requires Sound(s, known) && Writes(verify, s, e)
    ensures Sound(Apply(verify, s, e), AccountsAfter(verify, s, known, e)) <==> SafeWrite(verify, s, known, e)
  {
    var slot, r, after := e.package.slot, Apply(verify, s, e), AccountsAfter(verify, s, known, e);
    assert r.slots[slot] == Overwrite(s.slots[slot], 0, Image(e)) && r.slots[1 - slot] == s.slots[1 - slot];
    assert Known(r, after, 1 - slot) == Known(s, known, 1 - slot);
    assert WroteWhole(e) ==> Known(r, after, slot);
  }

  /** Losing power before a byte has changed is safe, whatever the journal says. */
  lemma UnchangedTearIsSafe(verify: Verifier, s: Store, known: Accounts, e: Event)
    requires Sound(s, known) && Writes(verify, s, e) && e.StageCut? && Apply(verify, s, e) == s
    ensures SafeWrite(verify, s, known, e)
  {
  }

  predicate SoundAt(verify: Verifier, s: Store, es: seq<Event>, n: nat, shipped: set<nat>)
    requires n <= |es|
  {
    Sound(At(verify, s, es, n), AccountsAt(verify, s, es, n, shipped))
  }

  predicate SafeAt(verify: Verifier, s: Store, es: seq<Event>, k: nat, shipped: set<nat>)
    requires k < |es|
  {
    var now := At(verify, s, es, k);
    Writes(verify, now, es[k]) ==> SafeWrite(verify, now, AccountsAt(verify, s, es, k, shipped), es[k])
  }

  lemma SoundAtStep(verify: Verifier, s: Store, es: seq<Event>, n: nat, shipped: set<nat>)
    requires n < |es| && SoundAt(verify, s, es, n, shipped)
    ensures SoundAt(verify, s, es, n + 1, shipped) <==> SafeAt(verify, s, es, n, shipped)
  {
    SoundStepExactly(verify, At(verify, s, es, n), AccountsAt(verify, s, es, n, shipped), es[n]);
  }

  /** A device whose active slot, and unless it is settled the other one too, are shipped with an image. */
  predicate ShippedSound(s: Store, shipped: set<nat>) {
    && s.state.ActiveSlot() in shipped && (!IsSettled(s.state) ==> {0, 1} <= shipped)
    && (s.state.Testing? ==> s.state.fallback == 1 - s.state.active)
  }

  lemma ShippedSoundIsSound(verify: Verifier, s: Store, es: seq<Event>, shipped: set<nat>)
    ensures ShippedSound(s, shipped) ==> SoundAt(verify, s, es, 0, shipped)
  {
  }

  /** A device that is shipped sound stays sound throughout a run if and only if every write of the run is safe. */
  lemma SoundThroughoutExactly(verify: Verifier, s: Store, es: seq<Event>, n: nat, shipped: set<nat>)
    requires n <= |es| && ShippedSound(s, shipped)
    ensures (forall m :: 0 <= m <= n ==> SoundAt(verify, s, es, m, shipped)) <==>
            (forall k :: 0 <= k < n ==> SafeAt(verify, s, es, k, shipped))
  {
    var kept := seq(n + 1, m requires 0 <= m <= n => SoundAt(verify, s, es, m, shipped));
    var cond := seq(n, k requires 0 <= k < n => SafeAt(verify, s, es, k, shipped));
    ShippedSoundIsSound(verify, s, es, shipped);
    forall k | 0 <= k < n && kept[k] ensures kept[k + 1] <==> cond[k] {
      SoundAtStep(verify, s, es, k, shipped);
    }
    ThroughoutExactly(kept, cond);
    assert forall m :: 0 <= m <= n ==> kept[m] == SoundAt(verify, s, es, m, shipped);
    assert forall k :: 0 <= k < n ==> cond[k] == SafeAt(verify, s, es, k, shipped);
  }

  /** The run accounts for every image that runs or may run next. */
  ghost predicate OnlyAuthenticImages(verify: Verifier, s: Store, es: seq<Event>, n: nat, shipped: set<nat>)
    requires n <= |es|
  {
    var j := At(verify, s, es, n).state;
    && Authentic(verify, s, es, n, shipped, j.ActiveSlot())
    && (!IsSettled(j) ==> Authentic(verify, s, es, n, shipped, 0) && Authentic(verify, s, es, n, shipped, 1))
    && (j.Testing? ==> j.fallback == 1 - j.active)
  }

  lemma SoundIsAuthentic(verify: Verifier, s: Store, es: seq<Event>, n: nat, shipped: set<nat>)
    requires n <= |es|
    ensures OnlyAuthenticImages(verify, s, es, n, shipped) <==> SoundAt(verify, s, es, n, shipped)
  {
    hide Accounted, AccountsAt, At;
    AccountsAreExact(verify, s, es, n, shipped, 0, SlotAt(verify, s, es, n, 0));
    AccountsAreExact(verify, s, es, n, shipped, 1, SlotAt(verify, s, es, n, 1));
  }

  /**
    * In terms of the run itself: the active slot, every candidate and every fallback hold what they were
    * shipped with or what a whole write under a checked signature left there, at every point of the run, if
    * and only if every write of the run is safe.
    */
  lemma OnlyTrustedImagesBoot(verify: Verifier, s: Store, es: seq<Event>, n: nat, shipped: set<nat>)
    requires n <= |es| && ShippedSound(s, shipped)
    ensures (forall m :: 0 <= m <= n ==> OnlyAuthenticImages(verify, s, es, m, shipped)) <==>
            (forall k :: 0 <= k < n ==> SafeAt(verify, s, es, k, shipped))
  {
    SoundThroughoutExactly(verify, s, es, n, shipped);
    forall m | 0 <= m <= n
      ensures OnlyAuthenticImages(verify, s, es, m, shipped) <==> SoundAt(verify, s, es, m, shipped)
    {
      SoundIsAuthentic(verify, s, es, m, shipped);
    }
  }

  // ---------------------------------------------------------------------------
  // Disciplines that a caller can follow
  // ---------------------------------------------------------------------------

  /** Settled journals stage the inactive slot, and power is not lost while others stage. */
  predicate Disciplined(verify: Verifier, s: Store, e: Event) {
    Writes(verify, s, e) ==>
      && (IsSettled(s.state) ==> e.package.slot != s.state.ActiveSlot())
      && (e.StageCut? ==> IsSettled(s.state))
  }

  lemma DisciplineIsSafe(verify: Verifier, s: Store, known: Accounts, e: Event)
    requires Sound(s, known) && Disciplined(verify, s, e) && Writes(verify, s, e)
    ensures SafeWrite(verify, s, known, e)
  {
  }

  predicate DisciplinedAt(verify: Verifier, s: Store, es: seq<Event>, k: nat)
    requires k < |es|
  {
    Disciplined(verify, At(verify, s, es, k), es[k])
  }

  lemma {:induction false} DisciplineKeepsSound(verify: Verifier, s: Store, es: seq<Event>, n: nat, shipped: set<nat>)
    requires n <= |es| && ShippedSound(s, shipped) && forall k :: 0 <= k < n ==> DisciplinedAt(verify, s, es, k)
    ensures SoundAt(verify, s, es, n, shipped)
  {
    hide SoundAt, DisciplinedAt, ShippedSound;
    if n == 0 {
      ShippedSoundIsSound(verify, s, es, shipped);
    } else {
      var m: nat := n - 1;
      DisciplineKeepsSound(verify, s, es, m, shipped);
      assert DisciplinedAt(verify, s, es, m);
      DisciplinedStep(verify, s, es, m, shipped);
    }
  }

  lemma DisciplinedStep(verify: Verifier, s: Store, es: seq<Event>, n: nat, shipped: set<nat>)
    requires n < |es| && SoundAt(verify, s, es, n, shipped) && DisciplinedAt(verify, s, es, n)
    ensures SoundAt(verify, s, es, n + 1, shipped)
  {
    var now := At(verify, s, es, n);
    SoundAtStep(verify, s, es, n, shipped);
    if Writes(verify, now, es[n]) {
      DisciplineIsSafe(verify, now, AccountsAt(verify, s, es, n, shipped), es[n]);
    }
  }

  /** Over a whole run, the discipline makes every image that runs or may run next authentic. */
  lemma DisciplineKeepsImagesAuthentic(verify: Verifier, s: Store, es: seq<Event>, n: nat, shipped: set<nat>)
    requires n <= |es| && ShippedSound(s, shipped) && forall k :: 0 <= k < n ==> DisciplinedAt(verify, s, es, k)
    ensures OnlyAuthenticImages(verify, s, es, n, shipped)
  {
    DisciplineKeepsSound(verify, s, es, n, shipped);
    SoundIsAuthentic(verify, s, es, n, shipped);
  }

  /** The discipline that needs no luck with the power supply: stage the inactive slot of a settled journal only. */
  predicate StagesInactiveOnly(verify: Verifier, s: Store, es: seq<Event>, k: nat)
    requires k < |es|
  {
    var j := At(verify, s, es, k).state;
    Writes(verify, At(verify, s, es, k), es[k]) ==> IsSettled(j) && es[k].package.slot != j.ActiveSlot()
  }

  /**
    * If every staging of a run is into the inactive slot of a settled journal, then wherever power fails, the
    * active slot, every candidate and every fallback are authentic, the good slot is spared, and every test
    * has the other slot to fall back to.
    */
  lemma InactiveSlotDisciplineIsSafe(verify: Verifier, s: Store, es: seq<Event>, n: nat, shipped: set<nat>)
    requires n <= |es| && ShippedSound(s, shipped)
    requires forall k :: 0 <= k < n ==> StagesInactiveOnly(verify, s, es, k)
    ensures OnlyAuthenticImages(verify, s, es, n, shipped) && KeepsGood(verify, s, es, n)
  {
    forall k | 0 <= k < n ensures DisciplinedAt(verify, s, es, k) && SparesGoodAt(verify, s, es, k) {
      assert StagesInactiveOnly(verify, s, es, k);
    }
    DisciplineKeepsImagesAuthentic(verify, s, es, n, shipped);
    CrashSafety(verify, s, es, n);
  }

  // ---------------------------------------------------------------------------
  // Torn writes into a pending candidate
  // ---------------------------------------------------------------------------

  /** The store after a torn write into a pending candidate and a call of `recover`. */
  lemma TornThenRecover(s: Store, verify: Verifier, e: Event)
    requires s.state.Pending? && e.StageCut? && Writes(verify, s, e) && e.package.slot == s.state.candidate
    ensures SparesGood(verify, s, e)
    ensures var r := AfterRecover(Apply(verify, s, e));
            && r.state.ActiveSlot() == s.state.candidate as nat
            && r.slots[s.state.candidate] == Overwrite(s.slots[s.state.candidate], 0, e.written)
  {
  }

  /** Neither a torn write nor a call of `recover` adds to the accounts. */
  lemma TornAndRecoverAddNothing(verify: Verifier, s: Store, es: seq<Event>, n: nat, shipped: set<nat>)
    requires n + 1 < |es| && es[n + 1] == Recover
    requires es[n].StageCut? && Writes(verify, At(verify, s, es, n), es[n]) && !WroteWhole(es[n])
    ensures At(verify, s, es, n + 2) == AfterRecover(Apply(verify, At(verify, s, es, n), es[n]))
    ensures AccountsAt(verify, s, es, n + 2, shipped) == AccountsAt(verify, s, es, n, shipped)
  {
    assert At(verify, s, es, n + 1) == Apply(verify, At(verify, s, es, n), es[n]);
    assert AccountsAt(verify, s, es, n + 1, shipped) == AccountsAt(verify, s, es, n, shipped);
  }

  /**
    * Sparing the good slot is not enough: whenever a candidate is pending and a second staging of it is
    * torn, `recover` boots the slot with what the tear left, which is authentic only by coincidence, that is
    * if and only if the slot was shipped with just those bytes or an earlier whole write left them.
    */
  lemma TornRestageBootsTornImage(verify: Verifier, s: Store, es: seq<Event>, n: nat, shipped: set<nat>)
    requires n + 1 < |es| && At(verify, s, es, n).state.Pending?
    requires es[n].StageCut? && Writes(verify, At(verify, s, es, n), es[n]) && !WroteWhole(es[n])
    requires es[n].package.slot == At(verify, s, es, n).state.candidate && es[n + 1] == Recover
    ensures SparesGoodAt(verify, s, es, n)
    ensures var slot := es[n].package.slot;
            var torn := Overwrite(SlotAt(verify, s, es, n, slot), 0, es[n].written);
            && At(verify, s, es, n + 2).state.ActiveSlot() == slot as nat
            && SlotAt(verify, s, es, n + 2, slot) == torn
            && (Authentic(verify, s, es, n + 2, shipped, slot) <==> Accounted(verify, s, es, n, shipped, slot, torn))
  {
    var slot := es[n].package.slot;
    var torn := Overwrite(SlotAt(verify, s, es, n, slot), 0, es[n].written);
    TornThenRecover(At(verify, s, es, n), verify, es[n]);
    TornAndRecoverAddNothing(verify, s, es, n, shipped);
    AccountsAreExact(verify, s, es, n, shipped, slot, torn);
    AccountsAreExact(verify, s, es, n + 2, shipped, slot, torn);
    hide At, AccountsAt, Accounted;
  }

  // ---------------------------------------------------------------------------
  // Progress
  // ---------------------------------------------------------------------------

  function Rank(s: SlotState): nat {
    match s
    case Pending(_) => 2
    case Testing(_, _) => 1
    case _ => 0
  }

  /** Two calls of `recover` settle any state on its good slot, and a third changes nothing. */
  lemma RecoverSettles(s: Store)
    ensures var once := AfterRecover(s);
            var twice := AfterRecover(once);
            && twice.state == Settled(Good(s.state)) && twice.slots == s.slots
            && AfterRecover(twice) == twice
  {
  }

  /** `recover` is idempotent exactly when no candidate is pending. */
  lemma RecoverIdempotentExactly(s: Store)
    ensures AfterRecover(AfterRecover(s)) == AfterRecover(s) <==> !s.state.Pending?
  {
  }

  /** How many of the first `n` calls moved the journal without staging. */
  function Moves(verify: Verifier, s: Store, es: seq<Event>, n: nat): nat
    requires n <= |es|
  {
    if n == 0 then 0
    else
      Moves(verify, s, es, n - 1) +
      if !es[n - 1].Stage? && At(verify, s, es, n).state != At(verify, s, es, n - 1).state then 1 else 0
  }

  /** How many of the first `n` calls put an uncommitted candidate in charge. */
  function Activations(verify: Verifier, s: Store, es: seq<Event>, n: nat): nat
    requires n <= |es|
  {
    if n == 0 then 0
    else
      Activations(verify, s, es, n - 1) +
      if !At(verify, s, es, n - 1).state.Testing? && At(verify, s, es, n).state.Testing? then 1 else 0
  }

  /** How many of the first `n` calls completed a staging. */
  function Stagings(verify: Verifier, s: Store, es: seq<Event>, n: nat): nat
    requires n <= |es|
  {
    if n == 0 then 0
    else
      Stagings(verify, s, es, n - 1) +
      if es[n - 1].Stage? && Writes(verify, At(verify, s, es, n - 1), es[n - 1]) then 1 else 0
  }

  /** Every call that moves the journal without staging lowers its rank. */
  lemma MovesDescend(verify: Verifier, s: Store, e: Event)
    requires !e.Stage? && Apply(verify, s, e).state != s.state
    ensures Rank(Apply(verify, s, e).state) < Rank(s.state)
  {
  }

  /** One step of the account: what a staging pays in, and what moves and activations take out. */
  lemma ProgressStep(verify: Verifier, s: Store, e: Event)
    ensures var r, staged := Apply(verify, s, e).state, e.Stage? && Writes(verify, s, e);
            && (if !e.Stage? && r != s.state then 1 else 0) + Rank(r) <= Rank(s.state) + (if staged then 2 else 0)
            && (if !s.state.Testing? && r.Testing? then 1 else 0) + (if r.Pending? then 1 else 0) <=
               (if s.state.Pending? then 1 else 0) + (if staged then 1 else 0)
  {
    if !e.Stage? && Apply(verify, s, e).state != s.state {
      MovesDescend(verify, s, e);
    }
  }

  /**
    * Each completed staging pays for at most two moves of the journal and one activation of a candidate,
    * so an update that is never committed is activated at most once and then given up.
    */
  lemma {:induction false} Progress(verify: Verifier, s: Store, es: seq<Event>, n: nat)
    requires n <= |es|
    ensures Moves(verify, s, es, n) + Rank(At(verify, s, es, n).state) <=
            Rank(s.state) + 2 * Stagings(verify, s, es, n)
    ensures Activations(verify, s, es, n) + (if At(verify, s, es, n).state.Pending? then 1 else 0) <=
            (if s.state.Pending? then 1 else 0) + Stagings(verify, s, es, n)
  {
    hide Apply, Writes;
    if n > 0 {
      Progress(verify, s, es, n - 1);
      ProgressStep(verify, At(verify, s, es, n - 1), es[n - 1]);
    }
  }
}
