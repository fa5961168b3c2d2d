/** The actuator interlock around an autonomy stack, nested to any depth. */
module Interlock {
  import opened Bytes
  import opened Telemetry

  datatype SensorSample = SensorSample(kind: nat, timestamp: nat, value: int)

  datatype VehicleState = VehicleState(speedCmps: nat, timestamp: nat)

  datatype ControlCommand = ControlCommand(steerDeciDeg: int, throttlePct: nat, brakePct: nat, timestamp: nat)

  datatype AutonomyError = InputFull | InvalidSample | NotReady

  type CommandResult = Result<Option<ControlCommand>, AutonomyError>

  /** `AutonomyStack` over stacks with state `S`. */
  datatype Autonomy<!S> = Autonomy(
    ingest: (S, SensorSample) -> (S, Result<(), AutonomyError>),
    next: (S, VehicleState) -> (S, CommandResult),
    hasControl: S -> bool
  )

  datatype InterlockState = Armed | Disarmed

  const TELEMETRY_ARM := 0xA001
  const TELEMETRY_DISARM := 0xA002
  const AUDIT_LEN := 8

  /** A stack inside any number of interlocks; an interlock is itself an `AutonomyStack`. */
  datatype Nest<S> = Bare(stack: S) | Layer(inner: Nest<S>, state: InterlockState, events: Ring) {
    predicate Valid() {
      Layer? ==> events.Valid() && |events.buf| == AUDIT_LEN && inner.Valid()
    }

    function Depth(): nat { if Bare? then 0 else 1 + inner.Depth() }

    function Innermost(): S { if Bare? then stack else inner.Innermost() }

    predicate AllArmed() { Layer? ==> state == Armed && inner.AllArmed() }

    /** The interlock `d` layers in, counted from the outside. */
    function At(d: nat): (n: Nest<S>)
      requires d < Depth()
      ensures n.Layer? && (Valid() ==> n.Valid())
    {
      if d == 0 then this else inner.At(d - 1)
    }
  }

  function Ingest<S>(a: Autonomy<S>, n: Nest<S>, sample: SensorSample): (Nest<S>, Result<(), AutonomyError>) {
    match n
    case Bare(s) => var (s', r) := a.ingest(s, sample); (Bare(s'), r)
    case Layer(inner, _, _) => var (inner', r) := Ingest(a, inner, sample); (n.(inner := inner'), r)
  }

  function NextCommand<S>(a: Autonomy<S>, n: Nest<S>, v: VehicleState): (Nest<S>, CommandResult) {
    match n
    case Bare(s) => var (s', r) := a.next(s, v); (Bare(s'), r)
    case Layer(inner, state, _) =>
      if state != Armed then (n, Ok(None))
      else var (inner', r) := NextCommand(a, inner, v); (n.(inner := inner'), r)
  }

  predicate HasControl<S>(a: Autonomy<S>, n: Nest<S>) {
    match n
    case Bare(s) => a.hasControl(s)
    case Layer(inner, state, _) => state == Armed && HasControl(a, inner)
  }

  function Transition(to: InterlockState): TelemetryRecord {
    TelemetryRecord(0, if to == Armed then TELEMETRY_ARM else TELEMETRY_DISARM, 1)
  }

  /** `arm` or `disarm` of the interlock `d` layers in. */
  function Switch<S>(n: Nest<S>, d: nat, to: InterlockState): (r: Nest<S>)
    requires n.Valid()
    ensures r.Valid() && r.Depth() == n.Depth() && r.Innermost() == n.Innermost()
  {
    if n.Bare? then n
    else if d == 0 then n.(state := to, events := n.events.Push(Transition(to)))
    else n.(inner := Switch(n.inner, d - 1, to))
  }

  class Interlock<S> {
    const autonomy: Autonomy<S>
    var stack: Nest<S>
    var state: InterlockState
    const events: TelemetryRing

    ghost function View(): Nest<S>
      reads this, events, events.buf
    {
      Layer(stack, state, events.View())
    }

    constructor (autonomy: Autonomy<S>, stack: Nest<S>)
      requires stack.Valid()
      ensures View() == Layer(stack, Disarmed, NewRing(AUDIT_LEN)) && View().Valid()
      ensures this.autonomy == autonomy && fresh(events) && fresh(events.buf)
    {
      this.autonomy, this.stack, state := autonomy, stack, Disarmed;
      events := new TelemetryRing(AUDIT_LEN);
    }

    method Arm()
      requires View().Valid()
      modifies this`state, events, events.buf
      ensures View() == Switch(old(View()), 0, Armed)
    {
      state := Armed;
      events.Push(TelemetryRecord(0, TELEMETRY_ARM, 1));
    }

    method Disarm()
      requires View().Valid()
      modifies this`state, events, events.buf
      ensures View() == Switch(old(View()), 0, Disarmed)
    {
      state := Disarmed;
      events.Push(TelemetryRecord(0, TELEMETRY_DISARM, 1));
    }

    method HasControlNow() returns (b: bool)
      ensures b <==> HasControl(autonomy, View())
    {
      b := state == Armed && HasControl(autonomy, stack);
    }

    method IngestSample(sample: SensorSample) returns (r: Result<(), AutonomyError>)
      modifies this`stack
      ensures (View(), r) == Ingest(autonomy, old(View()), sample)
    {
      var (inner, result) := Ingest(autonomy, stack, sample);
      stack, r := inner, result;
    }

    method Next(v: VehicleState) returns (r: CommandResult)
      modifies this`stack
      ensures (View(), r) == NextCommand(autonomy, old(View()), v)
    {
      if state != Armed {
        return Ok(None);
      }
      var (inner, result) := NextCommand(autonomy, stack, v);
      stack, r := inner, result;
    }
  }

  // ---------------------------------------------------------------------------
  // Call histories
  // ---------------------------------------------------------------------------

  datatype Call = Sample(sample: SensorSample) | Command(vehicle: VehicleState) | Set(depth: nat, to: InterlockState)

  /** `s` in `k` new interlocks. */
  function Wrapped<S>(s: S, k: nat): (n: Nest<S>)
    ensures n.Valid() && n.Depth() == k && n.Innermost() == s
  {
    if k == 0 then Bare(s) else Layer(Wrapped(s, k - 1), Disarmed, NewRing(AUDIT_LEN))
  }

  function Apply<S>(a: Autonomy<S>, n: Nest<S>, call: Call): Nest<S>
    requires n.Valid()
  {
    match call
    case Sample(sample) => Ingest(a, n, sample).0
    case Command(v) => NextCommand(a, n, v).0
    case Set(d, to) => Switch(n, d, to)
  }

  lemma {:induction false} IngestReachesStack<S>(a: Autonomy<S>, n: Nest<S>, sample: SensorSample)
    requires n.Valid()
    ensures var r := Ingest(a, n, sample);
            && r.0.Valid() && r.0.Depth() == n.Depth()
            && (r.0.Innermost(), r.1) == a.ingest(n.Innermost(), sample)
            && SameLocks(n, r.0)
  {
    if n.Layer? { IngestReachesStack(a, n.inner, sample); }
  }

  /** The two nests differ in their innermost stack only. */
  predicate SameLocks<S>(m: Nest<S>, n: Nest<S>) {
    if m.Bare? then n.Bare?
    else n.Layer? && m.state == n.state && m.events == n.events && SameLocks(m.inner, n.inner)
  }

  lemma {:induction false} CommandReachesStack<S>(a: Autonomy<S>, n: Nest<S>, v: VehicleState)
    requires n.Valid()
    ensures var r := NextCommand(a, n, v);
            && r.0.Valid() && r.0.Depth() == n.Depth() && SameLocks(n, r.0)
            && if n.AllArmed() then (r.0.Innermost(), r.1) == a.next(n.Innermost(), v)
               else r.0.Innermost() == n.Innermost() && r.1 == Ok(None)
  {
    if n.Layer? {
      CommandReachesStack(a, n.inner, v);
      SameLocksReflexive(n);
    }
  }

  lemma {:induction false} SameLocksReflexive<S>(n: Nest<S>)
    ensures SameLocks(n, n)
  {
    if n.Layer? { SameLocksReflexive(n.inner); }
  }

  lemma {:induction false} SameLocksAt<S>(m: Nest<S>, n: Nest<S>, d: nat)
    requires SameLocks(m, n) && d < m.Depth()
    ensures d < n.Depth() && n.At(d).state == m.At(d).state && n.At(d).events == m.At(d).events
  {
    if d > 0 { SameLocksAt(m.inner, n.inner, d - 1); }
  }

  lemma {:induction false} SwitchAt<S>(n: Nest<S>, d: nat, to: InterlockState, e: nat)
    requires n.Valid() && e < n.Depth()
    ensures var r := Switch(n, d, to);
            && r.At(e).state == (if e == d then to else n.At(e).state)
            && r.At(e).events == (if e == d then n.At(e).events.Push(Transition(to)) else n.At(e).events)
  {
    if d > 0 && e > 0 { SwitchAt(n.inner, d - 1, to, e - 1); }
  }

  ghost predicate EveryLayerArmed<S>(n: Nest<S>) {
    forall d: nat :: d < n.Depth() ==> n.At(d).state == Armed
  }

  lemma {:induction false} AllArmedIsEveryLayer<S>(n: Nest<S>)
    ensures n.AllArmed() <==> EveryLayerArmed(n)
  {
    if n.Layer? {
      AllArmedIsEveryLayer(n.inner);
      if n.AllArmed() {
        forall d: nat | d < n.Depth() ensures n.At(d).state == Armed {
          if d > 0 { assert n.inner.At(d - 1).state == Armed; }
        }
      }
      if EveryLayerArmed(n) {
        assert n.At(0).state == Armed;
        forall d: nat | d < n.inner.Depth() ensures n.inner.At(d).state == Armed {
          var e := d + 1;
          assert n.At(e).state == Armed;
        }
      }
    }
  }

  lemma {:induction false} HasControlExactly<S>(a: Autonomy<S>, n: Nest<S>)
    ensures HasControl(a, n) <==> n.AllArmed() && a.hasControl(n.Innermost())
  {
    if n.Layer? { HasControlExactly(a, n.inner); }
  }

  lemma ApplyKeepsValid<S>(a: Autonomy<S>, n: Nest<S>, call: Call)
    requires n.Valid()
    ensures Apply(a, n, call).Valid() && Apply(a, n, call).Depth() == n.Depth()
  {
    match call
    case Sample(sample) => IngestReachesStack(a, n, sample);
    case Command(v) => CommandReachesStack(a, n, v);
    case Set(_, _) =>
  }

  function Run<S>(a: Autonomy<S>, n: Nest<S>, calls: seq<Call>): (r: Nest<S>)
    requires n.Valid()
    ensures r.Valid() && r.Depth() == n.Depth()
  {
    if calls == [] then n
    else
      var before := Run(a, n, calls[..|calls| - 1]);
      ApplyKeepsValid(a, before, calls[|calls| - 1]);
      Apply(a, before, calls[|calls| - 1])
  }

  // ---------------------------------------------------------------------------
  // What can be read off the calls alone
  // ---------------------------------------------------------------------------

  /** Layer `d` was armed, and not disarmed since. */
  ghost predicate ArmedBy(calls: seq<Call>, d: nat) {
    exists i :: 0 <= i < |calls| && calls[i] == Set(d, Armed) && forall j :: i < j < |calls| ==> calls[j] != Set(d, Disarmed)
  }

  /** Each of `k` layers is armed. */
  ghost predicate Authorised(calls: seq<Call>, k: nat) {
    forall d: nat :: d < k ==> ArmedBy(calls, d)
  }

  /** The calls that `k` layers let through: every sample, and the command requests made while authorised. */
  ghost function Projection(calls: seq<Call>, k: nat): seq<Call> {
    if calls == [] then []
    else
      var pre, call := calls[..|calls| - 1], calls[|calls| - 1];
      Projection(pre, k) + if call.Sample? || (call.Command? && Authorised(pre, k)) then [call] else []
  }

  /** The stack run on its own; it has no interlock to set. */
  function BareRun<S>(a: Autonomy<S>, s: S, calls: seq<Call>): S {
    if calls == [] then s
    else
      var before := BareRun(a, s, calls[..|calls| - 1]);
      match calls[|calls| - 1]
      case Sample(sample) => a.ingest(before, sample).0
      case Command(v) => a.next(before, v).0
      case Set(_, _) => before
  }

  /** The transitions of layer `d`, in order. */
  function Transitions(calls: seq<Call>, d: nat): seq<TelemetryRecord> {
    if calls == [] then []
    else
      var call := calls[|calls| - 1];
      Transitions(calls[..|calls| - 1], d) +
      if call.Set? && call.depth == d then [TelemetryRecord(0, if call.to == Armed then 0xA001 else 0xA002, 1)] else []
  }

  lemma ArmedByStep(calls: seq<Call>, d: nat)
    requires calls != []
    ensures var pre, call := calls[..|calls| - 1], calls[|calls| - 1];
            ArmedBy(calls, d) <==> call == Set(d, Armed) || (ArmedBy(pre, d) && call != Set(d, Disarmed))
  {
    var n := |calls| - 1;
    var pre := calls[..n];
    if ArmedBy(pre, d) && calls[n] != Set(d, Disarmed) {
      var i :| 0 <= i < |pre| && pre[i] == Set(d, Armed) && forall j :: i < j < |pre| ==> pre[j] != Set(d, Disarmed);
      assert calls[i] == Set(d, Armed) && forall j :: i < j < |calls| ==> j < n ==> calls[j] == pre[j];
    }
    if ArmedBy(calls, d) && calls[n] != Set(d, Armed) {
      var i :| 0 <= i < |calls| && calls[i] == Set(d, Armed) && forall j :: i < j < |calls| ==> calls[j] != Set(d, Disarmed);
      assert pre[i] == Set(d, Armed) && forall j :: i < j < |pre| ==> pre[j] == calls[j];
    }
  }

  /** The lock state and the audit trail of layer `d` are what the calls say. */
  lemma {:induction false} LocksAreHistory<S>(a: Autonomy<S>, s: S, k: nat, calls: seq<Call>, d: nat)
    requires d < k
    ensures var layer := Run(a, Wrapped(s, k), calls).At(d);
            && (layer.state == Armed <==> ArmedBy(calls, d))
            && layer.events.Items() == LastOf(Transitions(calls, d), 8)
    decreases |calls|
  {
    if calls == [] {
      NewLayerAt(s, k, d);
    } else {
      var m := |calls| - 1;
      var pre, call := calls[..m], calls[m];
      LocksAreHistory(a, s, k, pre, d);
      ArmedByStep(calls, d);
      var before := Run(a, Wrapped(s, k), pre);
      match call
      case Sample(sample) =>
        IngestReachesStack(a, before, sample);
        SameLocksAt(before, Ingest(a, before, sample).0, d);
      case Command(v) =>
        CommandReachesStack(a, before, v);
        SameLocksAt(before, NextCommand(a, before, v).0, d);
      case Set(e, to) =>
        SwitchAt(before, e, to, d);
        if d == e {
          PushAppends(before.At(d).events, Transition(to));
          LastOfStep(Transitions(pre, d), Transition(to), AUDIT_LEN);
        }
    }
  }

  lemma {:induction false} NewLayerAt<S>(s: S, k: nat, d: nat)
    requires d < k
    ensures var layer := Wrapped(s, k).At(d); layer.state == Disarmed && layer.events == NewRing(AUDIT_LEN)
  {
    if d > 0 { NewLayerAt(s, k - 1, d - 1); }
  }

  /** A layer is armed exactly when its audit trail is not empty and its newest record is an arming. */
  lemma {:induction false} NewestRecordTellsState(calls: seq<Call>, d: nat)
    ensures var trail := LastOf(Transitions(calls, d), 8);
            ArmedBy(calls, d) <==> trail != [] && trail[|trail| - 1].code == 0xA001
    decreases |calls|
  {
    if calls != [] {
      NewestRecordTellsState(calls[..|calls| - 1], d);
      ArmedByStep(calls, d);
    }
  }

  /** For any history, a layer's own audit trail tells its state. */
  lemma AuditTrailTellsState<S>(a: Autonomy<S>, s: S, k: nat, calls: seq<Call>, d: nat)
    requires d < k
    ensures var layer := Run(a, Wrapped(s, k), calls).At(d);
            var trail := layer.events.Items();
            layer.state == Armed <==> trail != [] && trail[|trail| - 1].code == 0xA001
  {
    LocksAreHistory(a, s, k, calls, d);
    NewestRecordTellsState(calls, d);
  }

  lemma AuthorisedIsAllArmed<S>(a: Autonomy<S>, s: S, k: nat, calls: seq<Call>)
    ensures Run(a, Wrapped(s, k), calls).AllArmed() <==> Authorised(calls, k)
  {
    var n := Run(a, Wrapped(s, k), calls);
    AllArmedIsEveryLayer(n);
    forall d: nat | d < k ensures n.At(d).state == Armed <==> ArmedBy(calls, d) {
      LocksAreHistory(a, s, k, calls, d);
    }
    if EveryLayerArmed(n) {
      forall d: nat | d < k ensures ArmedBy(calls, d) {
        assert n.At(d).state == Armed;
      }
    }
    if Authorised(calls, k) {
      forall d: nat | d < n.Depth() ensures n.At(d).state == Armed {
        assert ArmedBy(calls, d);
      }
    }
  }

  /** The calls that are let through, one call later. */
  lemma InnermostStep<S>(a: Autonomy<S>, s: S, k: nat, calls: seq<Call>)
    requires calls != []
    requires var pre := calls[..|calls| - 1];
             Run(a, Wrapped(s, k), pre).Innermost() == BareRun(a, s, Projection(pre, k))
    ensures Run(a, Wrapped(s, k), calls).Innermost() == BareRun(a, s, Projection(calls, k))
  {
    var pre, call := calls[..|calls| - 1], calls[|calls| - 1];
    AuthorisedIsAllArmed(a, s, k, pre);
    var before, through := Run(a, Wrapped(s, k), pre), Projection(pre, k);
    assert (through + [call])[..|through|] == through && through + [] == through;
    match call
    case Sample(sample) => IngestReachesStack(a, before, sample);
    case Command(v) =>
      CommandReachesStack(a, before, v);
      assert Projection(calls, k) == if before.AllArmed() then through + [call] else through;
    case Set(_, _) =>
  }

  /**
    * For any history and any number of layers, the inner stack is where it would be on its own after the
    * calls that were let through. A command comes out only while every layer is armed, and then it is the
    * bare stack's own; otherwise the answer is a safe stop and the stack is not asked.
    */
  lemma {:induction false} GateIsProjection<S>(a: Autonomy<S>, s: S, k: nat, calls: seq<Call>)
    ensures var n, bare := Run(a, Wrapped(s, k), calls), BareRun(a, s, Projection(calls, k));
            && n.Innermost() == bare
            && (HasControl(a, n) <==> Authorised(calls, k) && a.hasControl(bare))
            && forall v :: NextCommand(a, n, v).1 == if Authorised(calls, k) then a.next(bare, v).1 else Ok(None)
    decreases |calls|
  {
    var n := Run(a, Wrapped(s, k), calls);
    if calls != [] {
      GateIsProjection(a, s, k, calls[..|calls| - 1]);
      InnermostStep(a, s, k, calls);
    }
    AuthorisedIsAllArmed(a, s, k, calls);
    HasControlExactly(a, n);
    forall v ensures NextCommand(a, n, v).1 == if n.AllArmed() then a.next(n.Innermost(), v).1 else Ok(None) {
      CommandReachesStack(a, n, v);
    }
  }
}
