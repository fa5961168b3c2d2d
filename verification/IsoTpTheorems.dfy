/** What segmentation and reassembly guarantee together, over exact, lossy and arbitrary deliveries. */
module IsoTpTheorems {
  import opened Bytes
  import opened IsoTp

  // ---------------------------------------------------------------------------
  // Runs
  // ---------------------------------------------------------------------------

  /** The link after `fs` has been fed to `l`, frame by frame. */
  function Run(l: Link, fs: seq<Frame>): (r: Link)
    ensures |r.buf| == |l.buf|
  {
    if fs == [] then l
    else FeedFrame(Run(l, fs[..|fs| - 1]), fs[|fs| - 1]).link
  }

  /** What `feed` returns for frame `i` of `fs`. */
  function ResultAt(l: Link, fs: seq<Frame>, i: nat): FeedResult
    requires i < |fs|
  {
    FeedFrame(Run(l, fs[..i]), fs[i]).result
  }

  predicate CompletesAt(l: Link, fs: seq<Frame>, i: nat)
    requires i < |fs|
  {
    ResultAt(l, fs, i).Completes()
  }

  /** Some frame of `fs` completes a message. */
  ghost predicate Completes(l: Link, fs: seq<Frame>)
  {
    exists i :: 0 <= i < |fs| && CompletesAt(l, fs, i)
  }

  lemma RunStep(l: Link, fs: seq<Frame>, f: Frame)
    ensures Run(l, fs + [f]) == FeedFrame(Run(l, fs), f).link
    ensures ResultAt(l, fs + [f], |fs|) == FeedFrame(Run(l, fs), f).result
    ensures forall i :: 0 <= i < |fs| ==> ResultAt(l, fs + [f], i) == ResultAt(l, fs, i)
  {
    assert forall i :: 0 <= i < |fs| ==> (fs + [f])[i] == fs[i];
    forall i | 0 <= i <= |fs|
      ensures (fs + [f])[..i] == fs[..i]
    {
    }
    assert fs[..|fs|] == fs;
  }

  /** The run of a prefix that is one frame longer. */
  lemma RunPrefix(l: Link, fs: seq<Frame>, n: nat)
    requires n < |fs|
    ensures Run(l, fs[..n + 1]) == FeedFrame(Run(l, fs[..n]), fs[n]).link
  {
    assert fs[..n + 1][..n] == fs[..n];
  }

  lemma RunLast(l: Link, fs: seq<Frame>)
    requires fs != []
    ensures Run(l, fs) == FeedFrame(Run(l, fs[..|fs| - 1]), fs[|fs| - 1]).link
  {
  }

  /** `Completes` of a run that is one frame longer. */
  lemma CompletesStep(l: Link, fs: seq<Frame>, f: Frame)
    ensures Completes(l, fs + [f]) <==> Completes(l, fs) || CompletesAt(l, fs + [f], |fs|)
  {
    RunStep(l, fs, f);
    assert forall i :: 0 <= i < |fs| ==> CompletesAt(l, fs + [f], i) == CompletesAt(l, fs, i);
    if Completes(l, fs) {
      var i :| 0 <= i < |fs| && CompletesAt(l, fs, i);
      assert CompletesAt(l, fs + [f], i);
    }
  }

  /** The messages that `l` completes while `fs` is fed to it, in order. */
  function Completions(l: Link, fs: seq<Frame>): seq<seq<byte>> {
    if fs == [] then []
    else
      var m := |fs| - 1;
      var before := Completions(l, fs[..m]);
      if CompletesAt(l, fs, m) then before + [ResultAt(l, fs, m).event.message] else before
  }

  lemma CompletionsStep(l: Link, fs: seq<Frame>, f: Frame)
    ensures var result := FeedFrame(Run(l, fs), f).result;
            Completions(l, fs + [f]) ==
            if result.Completes() then Completions(l, fs) + [result.event.message] else Completions(l, fs)
  {
    RunStep(l, fs, f);
    assert (fs + [f])[..|fs|] == fs;
  }

  lemma {:induction false} RunConcat(l: Link, a: seq<Frame>, b: seq<Frame>)
    ensures Run(l, a + b) == Run(Run(l, a), b)
    ensures Completions(l, a + b) == Completions(l, a) + Completions(Run(l, a), b)
    decreases |b|
  {
    if b == [] {
      assert a + b == a;
    } else {
      var n := |b| - 1;
      assert a + b == (a + b[..n]) + [b[n]] && b == b[..n] + [b[n]];
      RunConcat(l, a, b[..n]);
      RunStep(l, a + b[..n], b[n]);
      RunStep(Run(l, a), b[..n], b[n]);
      CompletionsStep(l, a + b[..n], b[n]);
      CompletionsStep(Run(l, a), b[..n], b[n]);
    }
  }

  /** The list is what `Completes` and `CompletesAt` speak of. */
  lemma {:induction false} CompletionsExactly(l: Link, fs: seq<Frame>)
    ensures Completes(l, fs) <==> Completions(l, fs) != []
    ensures forall i :: 0 <= i < |fs| && CompletesAt(l, fs, i) ==> ResultAt(l, fs, i).event.message in Completions(l, fs)
    decreases |fs|
  {
    if fs != [] {
      var m := |fs| - 1;
      assert fs == fs[..m] + [fs[m]];
      CompletionsExactly(l, fs[..m]);
      RunStep(l, fs[..m], fs[m]);
      CompletesStep(l, fs[..m], fs[m]);
      CompletionsStep(l, fs[..m], fs[m]);
      assert forall i :: 0 <= i < m ==> CompletesAt(l, fs, i) == CompletesAt(l, fs[..m], i);
    }
  }

  lemma {:induction false} NoCompletions(l: Link, fs: seq<Frame>)
    requires forall i :: 0 <= i < |fs| ==> !CompletesAt(l, fs, i)
    ensures Completions(l, fs) == []
    decreases |fs|
  {
    if fs != [] {
      var m := |fs| - 1;
      assert fs == fs[..m] + [fs[m]];
      RunStep(l, fs[..m], fs[m]);
      forall i | 0 <= i < m ensures !CompletesAt(l, fs[..m], i) {
        assert !CompletesAt(l, fs, i);
      }
      NoCompletions(l, fs[..m]);
    }
  }

  /** What the link was receiving before does not matter to a run whose first frame makes it irrelevant. */
  lemma {:induction false} FreshStart(l: Link, fs: seq<Frame>)
    requires fs != [] && FeedFrame(l, fs[0]) == FeedFrame(l.(receiving := false), fs[0])
    ensures Run(l, fs) == Run(l.(receiving := false), fs)
    ensures forall i :: 0 <= i < |fs| ==> ResultAt(l, fs, i) == ResultAt(l.(receiving := false), fs, i)
    decreases |fs|
  {
    var m := |fs| - 1;
    assert fs == fs[..m] + [fs[m]];
    RunStep(l, fs[..m], fs[m]);
    RunStep(l.(receiving := false), fs[..m], fs[m]);
    if m > 0 {
      FreshStart(l, fs[..m]);
    }
  }

  // ---------------------------------------------------------------------------
  // Arbitrary frames: the link holds exactly what an observer of the calls can compute
  // ---------------------------------------------------------------------------

  /** What an observer of the calls knows to be in flight: the declared length and the bytes so far. */
  datatype Transfer = Idle | InFlight(declared: nat, data: seq<byte>)

  /** What an observer of one more frame and its result knows. */
  function Observe(before: Transfer, f: Frame, result: FeedResult): Transfer {
    match result
    case Event(NeedFlowControl) => if |f| >= 2 then InFlight(DeclaredLength(f), f[2..]) else Idle
    case Event(Incomplete) => if before.InFlight? && f != [] then before.(data := before.data + f[1..]) else Idle
    case Event(Complete(_)) => Idle
    case _ => before
  }

  /** Computed from the frames and the results of `feed` alone. */
  function Observed(l: Link, fs: seq<Frame>): Transfer {
    if fs == [] then Idle
    else Observe(Observed(l, fs[..|fs| - 1]), fs[|fs| - 1], ResultAt(l, fs, |fs| - 1))
  }

  ghost predicate Agrees(l: Link, t: Transfer) {
    && (l.receiving <==> t.InFlight?)
    && (t.InFlight? ==>
          && l.total == t.declared && l.filled == |t.data| < t.declared <= |l.buf|
          && 7 <= t.declared && l.buf[..l.filled] == t.data)
  }

  /** A completed message is the data of one Single Frame, or all the bytes in flight at their declared length. */
  ghost predicate Justified(before: Transfer, f: Frame, msg: seq<byte>) {
    && f != []
    && (|| (f[0] / 16 == 0 && 1 <= f[0] % 16 <= 7 && f[0] % 16 < |f| && msg == f[1..1 + f[0] % 16])
        || (f[0] / 16 == 2 && before.InFlight? && msg == before.data + f[1..] && |msg| == before.declared))
  }

  /** One frame keeps the agreement between the link and its observer. */
  lemma AgreementStep(l: Link, t: Transfer, f: Frame)
    requires Agrees(l, t)
    ensures Agrees(FeedFrame(l, f).link, Observe(t, f, FeedFrame(l, f).result))
    ensures FeedFrame(l, f).result.Completes() ==> Justified(t, f, FeedFrame(l, f).result.event.message)
  {
    if f != [] && f[0] / 16 == 2 && l.receiving && f[0] % 16 == l.sn && l.filled + |f| - 1 <= l.total {
      AcceptedFrameEffect(l, f);
    }
  }

  /** Whatever the frames, the link holds exactly the transfer that its observer sees in flight. */
  lemma {:induction false} LinkHoldsTransfer(l: Link, fs: seq<Frame>)
    requires !l.receiving
    ensures Agrees(Run(l, fs), Observed(l, fs))
    decreases |fs|
  {
    if fs != [] {
      LinkHoldsTransfer(l, fs[..|fs| - 1]);
      AgreementStep(Run(l, fs[..|fs| - 1]), Observed(l, fs[..|fs| - 1]), fs[|fs| - 1]);
    }
  }

  /** Whatever the frames, a completed message is one that the frames justify. */
  lemma ReassemblyIsExact(l: Link, fs: seq<Frame>, i: nat)
    requires !l.receiving && i < |fs| && CompletesAt(l, fs, i)
    ensures Justified(Observed(l, fs[..i]), fs[i], ResultAt(l, fs, i).event.message)
  {
    LinkHoldsTransfer(l, fs[..i]);
    AgreementStep(Run(l, fs[..i]), Observed(l, fs[..i]), fs[i]);
  }

  /** A rejected frame leaves the link alone, except that a Consecutive Frame that overflows advances `sn`. */
  lemma RejectionLeavesLink(l: Link, f: Frame)
    requires FeedFrame(l, f).result.Rejected?
    ensures FeedFrame(l, f).link == if f != [] && f[0] / 16 == 2 && FeedFrame(l, f).result.error == Overflow
                                    then l.(sn := (l.sn + 1) % 16) else l
  {
    if f != [] && f[0] / 16 == 2 && l.receiving && f[0] % 16 == l.sn && l.filled + |f| - 1 > l.total {
      assert FeedFrame(l, f).link == l.(sn := (l.sn + 1) % 16);
    }
  }

  // ---------------------------------------------------------------------------
  // Deliveries of one message
  // ---------------------------------------------------------------------------

  /** The frames of `msg` with the given indices, in the given order. */
  function Delivered(msg: seq<byte>, ks: seq<nat>): (fs: seq<Frame>)
    requires |msg| <= ISOTP_MAX_MESSAGE
    requires forall i :: 0 <= i < |ks| ==> ks[i] < FrameCount(|msg|)
    ensures |fs| == |ks|
    ensures forall i :: 0 <= i < |ks| ==> fs[i] == Trimmed(msg, ks[i])
  {
    seq(|ks|, i requires 0 <= i < |ks| => Trimmed(msg, ks[i]))
  }

  /** The same delivery with the frames as `encode_message` pads them. */
  function DeliveredPadded(msg: seq<byte>, ks: seq<nat>): (fs: seq<Frame>)
    requires |msg| <= ISOTP_MAX_MESSAGE
    requires forall i :: 0 <= i < |ks| ==> ks[i] < FrameCount(|msg|)
    ensures |fs| == |ks|
    ensures forall i :: 0 <= i < |ks| ==> fs[i] == Padded(msg, ks[i])
  {
    seq(|ks|, i requires 0 <= i < |ks| => Padded(msg, ks[i]))
  }

  /** 0, 1, ..., n - 1. */
  function UpTo(n: nat): (ks: seq<nat>)
    ensures |ks| == n
    ensures forall i :: 0 <= i < n ==> ks[i] == i
  {
    seq(n, i => i)
  }

  function Frames(msg: seq<byte>): (fs: seq<Frame>)
    requires |msg| <= ISOTP_MAX_MESSAGE
    ensures |fs| == FrameCount(|msg|)
    ensures forall i :: 0 <= i < |fs| ==> fs[i] == Trimmed(msg, i)
  {
    Delivered(msg, UpTo(FrameCount(|msg|)))
  }

  function PaddedFrames(msg: seq<byte>): (fs: seq<Frame>)
    requires |msg| <= ISOTP_MAX_MESSAGE
    ensures |fs| == FrameCount(|msg|)
    ensures forall i :: 0 <= i < |fs| ==> fs[i] == Padded(msg, i)
  {
    DeliveredPadded(msg, UpTo(FrameCount(|msg|)))
  }

  /** Indices that a lossy in-order channel may deliver: none goes back, any may be missing or repeated. */
  predicate InOrder(ks: seq<nat>) {
    forall i, j :: 0 <= i < j < |ks| ==> ks[i] <= ks[j]
  }

  /** Every index up to and including `k` was delivered. */
  ghost predicate Covered(ks: seq<nat>, k: nat) {
    forall i: nat :: i <= k ==> i in ks
  }

  /**
    * The link is receiving `msg`, has accepted `j` Consecutive Frames, the latest of them frame `p`.
    * Sequence numbers are 4 bits wide, so `p` may be ahead of `j` by a multiple of 16.
    */
  ghost predicate Progress(l: Link, msg: seq<byte>, j: nat, p: nat) {
    && l.receiving
    && l.total == |msg| && l.filled == 7 * j + 6 && l.sn == (j + 1) % 16
    && j <= p < |msg| / 7 && (p - j) % 16 == 0
    && (j == p ==> l.buf[..l.filled] == msg[..l.filled])
  }

  lemma FirstFrameStep(l: Link, msg: seq<byte>)
    requires 7 < |msg| <= ISOTP_MAX_MESSAGE && |msg| <= |l.buf|
    ensures Progress(FeedFrame(l, Trimmed(msg, 0)).link, msg, 0, 0)
    ensures FeedFrame(l, Trimmed(msg, 0)).result == Event(NeedFlowControl)
  {
    var f := Trimmed(msg, 0);
    assert f[0] / 16 == 1;
    assert DeclaredLength(f) == |msg|;
    assert f[2..] == msg[..6];
    var r := FeedFrame(l, f).link;
    assert r.buf[0..0 + 6] == msg[..6];
    assert r.buf[..6] == r.buf[0..0 + 6];
  }

  /** Length of the data in Consecutive Frame `k` of a message of `len` bytes. */
  function ChunkLength(len: nat, k: nat): nat
    requires 7 < len && 1 <= k <= len / 7
  {
    if k < len / 7 then 7 else len - (7 * k - 1)
  }

  lemma ConsecutiveFrameShape(msg: seq<byte>, k: nat)
    requires 7 < |msg| <= ISOTP_MAX_MESSAGE && 1 <= k <= |msg| / 7
    ensures var f := Trimmed(msg, k);
            && f[0] / 16 == 2 && f[0] % 16 == k % 16
            && 1 <= ChunkLength(|msg|, k) <= 7
            && f[1..] == msg[7 * k - 1..7 * k - 1 + ChunkLength(|msg|, k)]
  {
  }

  lemma SequenceWraps(j: nat, p: nat, k: nat)
    requires j <= p <= k && (p - j) % 16 == 0 && k % 16 == (j + 1) % 16
    ensures j + 1 <= k && (k - (j + 1)) % 16 == 0
    ensures k == j + 1 ==> p == j
  {
    assert k % 16 == (j + 1) % 16 ==> (k - (j + 1)) % 16 == 0;
  }

  /** Frame `k` of `msg` arrives at a link that has accepted `j` Consecutive Frames. */
  lemma ConsecutiveFrameStep(l: Link, msg: seq<byte>, j: nat, p: nat, k: nat)
    requires 7 < |msg| <= ISOTP_MAX_MESSAGE && Progress(l, msg, j, p)
    requires 1 <= k && p <= k <= |msg| / 7
    ensures var r := FeedFrame(l, Trimmed(msg, k));
            if k % 16 != (j + 1) % 16 then r == Fed(l, Rejected(WrongSequence))
            else if k < |msg| / 7 then r.result == Event(Incomplete) && Progress(r.link, msg, j + 1, k)
            else if k == j + 1 then r.result == Event(Complete(msg)) && !r.link.receiving
            else r.result == Event(Incomplete) && r.link.receiving && r.link.sn == (k + 1) % 16
  {
    ConsecutiveFrameShape(msg, k);
    if k % 16 == (j + 1) % 16 {
      AcceptedFrameStep(l, msg, j, p, k, Trimmed(msg, k));
    }
  }

  lemma AcceptedFrameStep(l: Link, msg: seq<byte>, j: nat, p: nat, k: nat, f: Frame)
    requires 7 < |msg| <= ISOTP_MAX_MESSAGE && Progress(l, msg, j, p)
    requires 1 <= k && p <= k <= |msg| / 7 && k % 16 == (j + 1) % 16
    requires f != [] && f[0] / 16 == 2 && f[0] % 16 == k % 16
    requires f[1..] == msg[7 * k - 1..7 * k - 1 + ChunkLength(|msg|, k)]
    ensures var r := FeedFrame(l, f);
            if k < |msg| / 7 then r.result == Event(Incomplete) && Progress(r.link, msg, j + 1, k)
            else if k == j + 1 then r.result == Event(Complete(msg)) && !r.link.receiving
            else r.result == Event(Incomplete) && r.link.receiving && r.link.sn == (k + 1) % 16
  {
    SequenceWraps(j, p, k);
    ChunkFits(|msg|, j, k);
    AcceptedFrameEffect(l, f);
    AcceptedFrameOutcome(l, FeedFrame(l, f), msg, j, p, k, f[1..]);
  }

  /** The step above, given what `feed` does with the frame's `data`. */
  lemma AcceptedFrameOutcome(l: Link, r: Fed, msg: seq<byte>, j: nat, p: nat, k: nat, data: seq<byte>)
    requires 7 < |msg| && Progress(l, msg, j, p) && 1 <= k <= |msg| / 7
    requires j + 1 <= k && (k - (j + 1)) % 16 == 0 && (k == j + 1 ==> p == j)
    requires data == msg[7 * k - 1..7 * k - 1 + ChunkLength(|msg|, k)]
    requires k < |msg| / 7 ==> 7 * j + 6 + |data| == 7 * (j + 1) + 6 < |msg|
    requires k == |msg| / 7 ==> 7 * j + 6 + |data| == |msg| - 7 * (k - (j + 1))
    requires r.link.total == l.total && r.link.filled == l.filled + |data|
    requires r.link.sn == (l.sn + 1) % 16 && r.link.receiving == (r.link.filled < l.total)
    requires r.link.filled <= |r.link.buf| && r.link.buf[..r.link.filled] == l.buf[..l.filled] + data
    requires r.result == if r.link.receiving then Event(Incomplete) else Event(Complete(l.buf[..l.filled] + data))
    ensures if k < |msg| / 7 then r.result == Event(Incomplete) && Progress(r.link, msg, j + 1, k)
            else if k == j + 1 then r.result == Event(Complete(msg)) && !r.link.receiving
            else r.result == Event(Incomplete) && r.link.receiving && r.link.sn == (k + 1) % 16
  {
    NextSequence(j, k);
    if k == j + 1 {
      PrefixGrows(msg, l.buf[..l.filled], data, k);
    }
  }

  lemma NextSequence(j: nat, k: nat)
    requires j + 1 <= k && (k - (j + 1)) % 16 == 0
    ensures ((j + 1) % 16 + 1) % 16 == (j + 2) % 16 == (k + 1) % 16
  {
  }

  /** The bytes before chunk `k`, and chunk `k`. */
  lemma PrefixGrows(msg: seq<byte>, prefix: seq<byte>, data: seq<byte>, k: nat)
    requires 7 < |msg| && 1 <= k <= |msg| / 7 && prefix == msg[..7 * k - 1]
    requires data == msg[7 * k - 1..7 * k - 1 + ChunkLength(|msg|, k)]
    ensures prefix + data == msg[..|prefix| + |data|]
    ensures k == |msg| / 7 ==> prefix + data == msg
  {
    assert msg[..|msg|] == msg;
  }

  lemma ChunkFits(len: nat, j: nat, k: nat)
    requires 7 < len && 1 <= k <= len / 7 && j + 1 <= k
    ensures k < len / 7 ==> 7 * j + 6 + ChunkLength(len, k) == 7 * (j + 1) + 6 < len
    ensures k == len / 7 ==> 7 * j + 6 + ChunkLength(len, k) == len - 7 * (k - (j + 1))
  {
  }

  /** A Consecutive Frame with the expected sequence number, no longer than what is missing. */
  lemma AcceptedFrameEffect(l: Link, f: Frame)
    requires l.receiving && f != []
    requires f[0] / 16 == 2 && f[0] % 16 == l.sn && l.filled + |f| - 1 <= l.total
    ensures var r := FeedFrame(l, f);
            && r.link.total == l.total && r.link.filled == l.filled + |f| - 1
            && r.link.sn == (l.sn + 1) % 16
            && r.link.receiving == (r.link.filled < l.total)
            && r.link.buf[..r.link.filled] == l.buf[..l.filled] + f[1..]
            && r.result == if r.link.receiving then Event(Incomplete) else Event(Complete(l.buf[..l.filled] + f[1..]))
  {
    var buf := Overwrite(l.buf, l.filled, f[1..]);
    assert buf[..l.filled + |f| - 1] == l.buf[..l.filled] + f[1..];
  }

  /** The state of a link after an in-order delivery of frames of one long message. */
  ghost predicate Tracks(l: Link, msg: seq<byte>, ks: seq<nat>, j: nat, p: nat) {
    if 0 !in ks then !l.receiving
    else
      var last := ks[|ks| - 1];
      if last < |msg| / 7 then
        Progress(l, msg, j, p) && p <= last && l.sn != last % 16 && (Covered(ks, last) <==> j == last)
      else if Covered(ks, last) then !l.receiving
      else l.receiving && l.sn != last % 16
  }

  /** Delivering one more index extends the delivery by one frame. */
  lemma DeliverySnoc(msg: seq<byte>, ks: seq<nat>, k: nat)
    requires |msg| <= ISOTP_MAX_MESSAGE && k < FrameCount(|msg|)
    requires forall i :: 0 <= i < |ks| ==> ks[i] < FrameCount(|msg|)
    ensures forall i :: 0 <= i < |ks + [k]| ==> (ks + [k])[i] < FrameCount(|msg|)
    ensures Delivered(msg, ks + [k]) == Delivered(msg, ks) + [Trimmed(msg, k)]
    ensures DeliveredPadded(msg, ks + [k]) == DeliveredPadded(msg, ks) + [Padded(msg, k)]
  {
  }

  lemma DeliveryPrefix(msg: seq<byte>, ks: seq<nat>)
    requires |msg| <= ISOTP_MAX_MESSAGE && ks != []
    requires InOrder(ks) && forall i :: 0 <= i < |ks| ==> ks[i] < FrameCount(|msg|)
    ensures var m := |ks| - 1;
            && InOrder(ks[..m]) && (forall i :: 0 <= i < m ==> ks[..m][i] < FrameCount(|msg|))
            && Delivered(msg, ks)[..m] == Delivered(msg, ks[..m])
  {
  }

  /** How coverage changes when one more index is delivered in order. */
  lemma CoveredStep(ks: seq<nat>, k: nat)
    requires InOrder(ks + [k])
    ensures ks != [] ==>
              (Covered(ks + [k], k) <==> Covered(ks, ks[|ks| - 1]) && k <= ks[|ks| - 1] + 1)
    ensures ks == [] ==> (Covered([k], k) <==> k == 0)
    ensures InOrder(ks) && (ks != [] ==> ks[|ks| - 1] <= k)
  {
    var all := ks + [k];
    assert forall i :: 0 <= i < |ks| ==> all[i] == ks[i];
    if ks != [] {
      var last := ks[|ks| - 1];
      assert all[|ks| - 1] == last && all[|ks|] == k;
      if Covered(ks, last) && k <= last + 1 {
        forall i: nat | i <= k
          ensures i in all
        {
          if i <= last { assert i in ks; } else { assert all[|ks|] == i; }
        }
      }
      if Covered(all, k) {
        forall i: nat | i <= last
          ensures i in ks
        {
          assert i in all;
        }
        if last < k {
          assert last + 1 in all;
        }
      }
    } else if Covered([k], k) {
      assert 0 in [k];
    }
  }

  /** One more frame keeps `Tracks`, and completes the message exactly when it closes the coverage. */
  ghost predicate StepIsFaithful(l: Link, msg: seq<byte>, ks: seq<nat>, k: nat, j: nat, p: nat)
    requires |msg| <= ISOTP_MAX_MESSAGE && k < FrameCount(|msg|)
  {
    var r := FeedFrame(l, Trimmed(msg, k));
    && Tracks(r.link, msg, ks + [k], j, p)
    && (r.result.Completes() ==> r.result.event.message == msg)
    && (r.result.Completes() <==> Covered(ks + [k], |msg| / 7) && !Covered(ks, |msg| / 7))
  }

  lemma TracksStep(l: Link, msg: seq<byte>, ks: seq<nat>, k: nat, j: nat, p: nat) returns (j': nat, p': nat)
    requires 7 < |msg| <= ISOTP_MAX_MESSAGE && |msg| <= |l.buf|
    requires InOrder(ks + [k]) && k <= |msg| / 7
    requires forall i :: 0 <= i < |ks| ==> ks[i] <= |msg| / 7
    requires Tracks(l, msg, ks, j, p)
    ensures StepIsFaithful(l, msg, ks, k, j', p')
  {
    var all, n := ks + [k], |msg| / 7;
    assert all[|ks|] == k;
    CoveredStep(ks, k);
    CoverageNeedsLast(all, n);
    CoverageNeedsLast(ks, n);
    j', p' := 0, 0;
    if k == 0 {
      FirstFrameStep(l, msg);
    } else if 0 !in ks {
      ConsecutiveFrameShape(msg, k);
    } else if ks[|ks| - 1] < n {
      j', p' := OpenStep(l, msg, ks, k, j, p);
    } else {
      ConsecutiveFrameShape(msg, k);
    }
  }

  /** The case of a link that has the First Frame and has not yet been offered the last one. */
  lemma OpenStep(l: Link, msg: seq<byte>, ks: seq<nat>, k: nat, j: nat, p: nat) returns (j': nat, p': nat)
    requires 7 < |msg| <= ISOTP_MAX_MESSAGE && 1 <= k <= |msg| / 7
    requires InOrder(ks + [k]) && 0 in ks && ks[|ks| - 1] < |msg| / 7
    requires forall i :: 0 <= i < |ks| ==> ks[i] <= |msg| / 7
    requires Tracks(l, msg, ks, j, p)
    ensures StepIsFaithful(l, msg, ks, k, j', p')
  {
    CoveredStep(ks, k);
    ConsecutiveFrameStep(l, msg, j, p, k);
    var r := FeedFrame(l, Trimmed(msg, k));
    j', p' := if k % 16 == (j + 1) % 16 then (j + 1) else j, if k % 16 == (j + 1) % 16 then k else p;
    OpenStepTracks(r.link, msg, ks, k, j, p);
    var all, n := ks + [k], |msg| / 7;
    assert all[|ks|] == k;
    CoverageNeedsLast(all, n);
    CoverageNeedsLast(ks, n);
    IndexStep(j, p, ks[|ks| - 1], k);
  }

  lemma OpenStepTracks(next: Link, msg: seq<byte>, ks: seq<nat>, k: nat, j: nat, p: nat)
    requires 1 <= k <= |msg| / 7 && InOrder(ks + [k]) && 0 in ks
    requires forall i :: 0 <= i < |ks| ==> ks[i] <= |msg| / 7
    requires var last := ks[|ks| - 1];
             && j <= p <= last < |msg| / 7 && (p - j) % 16 == 0 && (j + 1) % 16 != last % 16
             && (Covered(ks, last) <==> j == last)
    requires if k % 16 != (j + 1) % 16 then Progress(next, msg, j, p)
             else if k < |msg| / 7 then Progress(next, msg, j + 1, k)
             else if k == j + 1 then !next.receiving
             else next.receiving && next.sn == (k + 1) % 16
    ensures if k % 16 == (j + 1) % 16 then Tracks(next, msg, ks + [k], j + 1, k)
            else Tracks(next, msg, ks + [k], j, p)
  {
    var all := ks + [k];
    assert all[|all| - 1] == k && 0 in all;
    CoveredStep(ks, k);
    IndexStep(j, p, ks[|ks| - 1], k);
  }

  /** The arithmetic of one more index `k`: `last` was offered before, `j` frames are in, the latest of them `p`. */
  lemma IndexStep(j: nat, p: nat, last: nat, k: nat)
    requires j <= p <= last <= k && (p - j) % 16 == 0 && (j + 1) % 16 != last % 16
    ensures k % 16 == (j + 1) % 16 ==> (j + 1 == k <==> j == last && k <= last + 1) && (j + 2) % 16 != k % 16
    ensures k % 16 != (j + 1) % 16 ==> (j == k <==> j == last && k <= last + 1)
  {
    if k % 16 == (j + 1) % 16 {
      SequenceWraps(j, p, k);
    }
  }

  /** Full coverage means that the last index delivered is the last frame's. */
  lemma CoverageNeedsLast(ks: seq<nat>, n: nat)
    requires InOrder(ks) && forall i :: 0 <= i < |ks| ==> ks[i] <= n
    ensures Covered(ks, n) ==> 0 in ks && ks[|ks| - 1] == n
  {
    if Covered(ks, n) {
      assert n in ks && 0 in ks;
      var i :| 0 <= i < |ks| && ks[i] == n;
      assert i < |ks| - 1 ==> ks[i] <= ks[|ks| - 1];
    }
  }

  lemma {:induction false} LossyTrace(l: Link, msg: seq<byte>, ks: seq<nat>) returns (j: nat, p: nat)
    requires !l.receiving && 7 < |msg| <= ISOTP_MAX_MESSAGE && |msg| <= |l.buf|
    requires InOrder(ks) && forall i :: 0 <= i < |ks| ==> ks[i] < FrameCount(|msg|)
    ensures Tracks(Run(l, Delivered(msg, ks)), msg, ks, j, p)
    ensures var fs := Delivered(msg, ks);
            && (forall i :: 0 <= i < |fs| && CompletesAt(l, fs, i) ==> ResultAt(l, fs, i) == Event(Complete(msg)))
            && (Completes(l, fs) <==> Covered(ks, |msg| / 7))
    decreases |ks|
  {
    if ks == [] {
      j, p := 0, 0;
      assert Covered(ks, |msg| / 7) ==> 0 in ks;
    } else {
      var m := |ks| - 1;
      var pre, k := ks[..m], ks[m];
      assert ks == pre + [k];
      j, p := LossyTrace(l, msg, pre);
      DeliverySnoc(msg, pre, k);
      var fs, f := Delivered(msg, pre), Trimmed(msg, k);
      RunStep(l, fs, f);
      CompletesStep(l, fs, f);
      j, p := TracksStep(Run(l, fs), msg, pre, k, j, p);
      if Covered(pre, |msg| / 7) {
        forall i: nat | i <= |msg| / 7 ensures i in ks { assert i in pre; }
      }
    }
  }

  /**
    * A link that is receiving an earlier message takes the delivery for more of it, unless the delivery
    * begins with frame 0 or does not arrive at all.
    */
  predicate StartsAfresh(open: bool, ks: seq<nat>) {
    open && ks != [] ==> ks[0] == 0
  }

  /** Frame 0 makes what the link was doing before irrelevant. */
  lemma FrameZeroStartsAfresh(l: Link, msg: seq<byte>)
    requires 1 <= |msg| <= ISOTP_MAX_MESSAGE && |msg| <= |l.buf|
    ensures FeedFrame(l, Trimmed(msg, 0)) == FeedFrame(l.(receiving := false), Trimmed(msg, 0))
  {
    if |msg| > 7 {
      assert Trimmed(msg, 0)[0] / 16 == 1;
      assert DeclaredLength(Trimmed(msg, 0)) == |msg|;
    }
  }

  /** So a delivery that starts afresh ends as it would on an idle link. */
  lemma AsIfIdle(l: Link, msg: seq<byte>, ks: seq<nat>)
    requires 1 <= |msg| <= ISOTP_MAX_MESSAGE && |msg| <= |l.buf|
    requires (forall i :: 0 <= i < |ks| ==> ks[i] < FrameCount(|msg|)) && StartsAfresh(l.receiving, ks)
    ensures var fs, idle := Delivered(msg, ks), l.(receiving := false);
            && (ks != [] ==> Run(l, fs) == Run(idle, fs))
            && (forall i :: 0 <= i < |fs| ==> ResultAt(l, fs, i) == ResultAt(idle, fs, i))
  {
    if l.receiving && ks != [] {
      FrameZeroStartsAfresh(l, msg);
      FreshStart(l, Delivered(msg, ks));
    } else if !l.receiving {
      assert l == l.(receiving := false);
    }
  }

  /** Every frame of a message of `len` bytes is among those delivered. */
  ghost predicate AllDelivered(len: nat, ks: seq<nat>) {
    forall k: nat :: k < FrameCount(len) ==> k in ks
  }

  lemma CoveredIsAllDelivered(len: nat, ks: seq<nat>)
    requires len > ISOTP_SF_MAX
    ensures Covered(ks, len / 7) <==> AllDelivered(len, ks)
  {
  }

  /**
    * Over an in-order channel that may lose and repeat frames, a message is completed exactly when
    * every one of its frames got through, and nothing but that message is ever completed. This covers
    * the loss of 16 Consecutive Frames in a row, after which the sequence numbers agree again.
    */
  lemma LossyDelivery(l: Link, msg: seq<byte>, ks: seq<nat>)
    requires 1 <= |msg| <= ISOTP_MAX_MESSAGE && |msg| <= |l.buf| && StartsAfresh(l.receiving, ks)
    requires InOrder(ks) && forall i :: 0 <= i < |ks| ==> ks[i] < FrameCount(|msg|)
    ensures var fs := Delivered(msg, ks);
            && (forall i :: 0 <= i < |fs| && CompletesAt(l, fs, i) ==> ResultAt(l, fs, i) == Event(Complete(msg)))
            && (Completes(l, fs) <==> AllDelivered(|msg|, ks))
  {
    var fs, idle := Delivered(msg, ks), l.(receiving := false);
    AsIfIdle(l, msg, ks);
    assert forall i :: 0 <= i < |fs| ==> CompletesAt(l, fs, i) == CompletesAt(idle, fs, i);
    if |msg| > 7 {
      var _, _ := LossyTrace(idle, msg, ks);
      CoveredIsAllDelivered(|msg|, ks);
    } else {
      SingleFrameDelivery(l, msg, ks);
    }
  }

  lemma SingleFrameDelivery(l: Link, msg: seq<byte>, ks: seq<nat>)
    requires 1 <= |msg| <= 7 && |msg| <= |l.buf| && forall i :: 0 <= i < |ks| ==> ks[i] < FrameCount(|msg|)
    ensures var fs := Delivered(msg, ks);
            && (forall i :: 0 <= i < |fs| ==> ResultAt(l, fs, i) == Event(Complete(msg)))
            && (Completes(l, fs) <==> AllDelivered(|msg|, ks))
  {
    var fs := Delivered(msg, ks);
    forall i | 0 <= i < |fs| ensures ResultAt(l, fs, i) == Event(Complete(msg)) {
      SingleFrameStep(Run(l, fs[..i]), msg);
    }
    if ks != [] {
      assert CompletesAt(l, fs, 0);
      assert ks[0] == 0;
    } else {
      assert 0 < FrameCount(|msg|) && 0 !in ks;
    }
  }

  /** The frame that completes a long message is the one that closes the coverage, so there is only one. */
  lemma LossyCompletionPoint(l: Link, msg: seq<byte>, ks: seq<nat>)
    requires 7 < |msg| <= ISOTP_MAX_MESSAGE && |msg| <= |l.buf| && StartsAfresh(l.receiving, ks)
    requires ks != [] && InOrder(ks) && forall i :: 0 <= i < |ks| ==> ks[i] < FrameCount(|msg|)
    ensures var m, fs := |ks| - 1, Delivered(msg, ks);
            && (CompletesAt(l, fs, m) <==> Covered(ks, |msg| / 7) && !Covered(ks[..m], |msg| / 7))
            && (CompletesAt(l, fs, m) ==> ResultAt(l, fs, m) == Event(Complete(msg)))
  {
    AsIfIdle(l, msg, ks);
    IdleCompletionPoint(l.(receiving := false), msg, ks);
  }

  lemma IdleCompletionPoint(l: Link, msg: seq<byte>, ks: seq<nat>)
    requires !l.receiving && 7 < |msg| <= ISOTP_MAX_MESSAGE && |msg| <= |l.buf|
    requires ks != [] && InOrder(ks) && forall i :: 0 <= i < |ks| ==> ks[i] < FrameCount(|msg|)
    ensures var m, fs := |ks| - 1, Delivered(msg, ks);
            && (CompletesAt(l, fs, m) <==> Covered(ks, |msg| / 7) && !Covered(ks[..m], |msg| / 7))
            && (CompletesAt(l, fs, m) ==> ResultAt(l, fs, m) == Event(Complete(msg)))
  {
    var m := |ks| - 1;
    var pre, k := ks[..m], ks[m];
    assert ks == pre + [k];
    var j, p := LossyTrace(l, msg, pre);
    DeliverySnoc(msg, pre, k);
    RunStep(l, Delivered(msg, pre), Trimmed(msg, k));
    j, p := TracksStep(Run(l, Delivered(msg, pre)), msg, pre, k, j, p);
  }

  function Repeat(msg: seq<byte>, n: nat): seq<seq<byte>> {
    if n == 0 then [] else Repeat(msg, n - 1) + [msg]
  }

  /**
    * How often a message of `len` bytes is completed when some of its frames are lost and some repeated:
    * one of several frames once or not at all, one of a single frame as often as that frame arrives.
    */
  ghost function Arrivals(len: nat, ks: seq<nat>): nat {
    if len <= ISOTP_SF_MAX then |ks| else if AllDelivered(len, ks) then 1 else 0
  }

  /** Whether a delivery leaves the link waiting for more of a message. */
  ghost predicate LeavesOpen(open: bool, len: nat, ks: seq<nat>) {
    if ks == [] then open else len > ISOTP_SF_MAX && 0 in ks && !AllDelivered(len, ks)
  }

  /** One more frame adds a completion exactly when the link completes on it. */
  lemma OneMoreFrame(l: Link, msg: seq<byte>, ks: seq<nat>)
    requires 1 <= |msg| <= ISOTP_MAX_MESSAGE && |msg| <= |l.buf| && StartsAfresh(l.receiving, ks)
    requires ks != [] && InOrder(ks) && forall i :: 0 <= i < |ks| ==> ks[i] < FrameCount(|msg|)
    ensures var m, fs := |ks| - 1, Delivered(msg, ks);
            && Arrivals(|msg|, ks) == Arrivals(|msg|, ks[..m]) + (if CompletesAt(l, fs, m) then 1 else 0)
            && (CompletesAt(l, fs, m) ==> ResultAt(l, fs, m) == Event(Complete(msg)))
  {
    var m, fs := |ks| - 1, Delivered(msg, ks);
    if |msg| <= ISOTP_SF_MAX {
      SingleFrameStep(Run(l, fs[..m]), msg);
    } else {
      LossyCompletionPoint(l, msg, ks);
      CoveredIsAllDelivered(|msg|, ks);
      CoveredIsAllDelivered(|msg|, ks[..m]);
      if AllDelivered(|msg|, ks[..m]) {
        forall k: nat | k < FrameCount(|msg|) ensures k in ks { assert k in ks[..m]; }
      }
    }
  }

  lemma OneMoreCompletion(l: Link, fs: seq<Frame>, msg: seq<byte>, before: nat, after: nat)
    requires fs != [] && Completions(l, fs[..|fs| - 1]) == Repeat(msg, before)
    requires after == before + if CompletesAt(l, fs, |fs| - 1) then 1 else 0
    requires CompletesAt(l, fs, |fs| - 1) ==> ResultAt(l, fs, |fs| - 1) == Event(Complete(msg))
    ensures Completions(l, fs) == Repeat(msg, after)
  {
    hide FeedFrame;
    var soFar := Completions(l, fs[..|fs| - 1]);
    assert Completions(l, fs) == if CompletesAt(l, fs, |fs| - 1) then soFar + [msg] else soFar;
  }

  /** The whole outcome of a lossy delivery to a link in any state: how often the message comes out, ... */
  lemma {:induction false} LossyCompletions(l: Link, msg: seq<byte>, ks: seq<nat>)
    requires 1 <= |msg| <= ISOTP_MAX_MESSAGE && |msg| <= |l.buf| && StartsAfresh(l.receiving, ks)
    requires InOrder(ks) && forall i :: 0 <= i < |ks| ==> ks[i] < FrameCount(|msg|)
    ensures Completions(l, Delivered(msg, ks)) == Repeat(msg, Arrivals(|msg|, ks))
    decreases |ks|
  {
    hide FeedFrame;
    if ks == [] {
      assert 0 < FrameCount(|msg|) && 0 !in ks;
    } else {
      var m := |ks| - 1;
      DeliveryPrefix(msg, ks);
      LossyCompletions(l, msg, ks[..m]);
      OneMoreFrame(l, msg, ks);
      OneMoreCompletion(l, Delivered(msg, ks), msg, Arrivals(|msg|, ks[..m]), Arrivals(|msg|, ks));
    }
  }

  /** ... and whether it leaves the link waiting. */
  lemma LossyLeavesOpen(l: Link, msg: seq<byte>, ks: seq<nat>)
    requires 1 <= |msg| <= ISOTP_MAX_MESSAGE && |msg| <= |l.buf| && StartsAfresh(l.receiving, ks)
    requires InOrder(ks) && forall i :: 0 <= i < |ks| ==> ks[i] < FrameCount(|msg|)
    ensures Run(l, Delivered(msg, ks)).receiving <==> LeavesOpen(l.receiving, |msg|, ks)
  {
    hide FeedFrame;
    if ks != [] {
      var fs, idle, m := Delivered(msg, ks), l.(receiving := false), |ks| - 1;
      AsIfIdle(l, msg, ks);
      if |msg| <= ISOTP_SF_MAX {
        SingleFrameStep(Run(l, fs[..m]), msg);
        RunLast(l, fs);
      } else {
        var j, p := LossyTrace(idle, msg, ks);
        CoveredIsAllDelivered(|msg|, ks);
        CoverageNeedsLast(ks, |msg| / 7);
      }
    }
  }

  lemma SingleFrameStep(l: Link, msg: seq<byte>)
    requires 1 <= |msg| <= 7 && |msg| <= |l.buf|
    ensures FeedFrame(l, Trimmed(msg, 0)).result == Event(Complete(msg))
    ensures FeedFrame(l, Padded(msg, 0)).result == Event(Complete(msg))
    ensures !FeedFrame(l, Trimmed(msg, 0)).link.receiving && !FeedFrame(l, Padded(msg, 0)).link.receiving
  {
    assert Trimmed(msg, 0)[1..1 + |msg|] == msg;
    assert Padded(msg, 0)[1..1 + |msg|] == msg;
  }

  // ---------------------------------------------------------------------------
  // Complete deliveries: the round trip, trimmed and padded
  // ---------------------------------------------------------------------------

  /** What `feed` reports for frame `i` of a complete delivery of `msg`. */
  function Expected(msg: seq<byte>, i: nat): FeedResult {
    if i + 1 == FrameCount(|msg|) then Event(Complete(msg))
    else if i == 0 then Event(NeedFlowControl)
    else Event(Incomplete)
  }

  /** Whatever the link was doing before, the first `n` frames of a long message leave it `n - 1` chunks in. */
  lemma {:induction false} PrefixProgress(l: Link, msg: seq<byte>, fs: seq<Frame>, n: nat)
    requires 7 < |msg| <= ISOTP_MAX_MESSAGE && |msg| <= |l.buf|
    requires 1 <= n <= |msg| / 7 && n <= |fs|
    requires forall i :: 0 <= i < n ==> fs[i] == Trimmed(msg, i)
    ensures Progress(Run(l, fs[..n]), msg, n - 1, n - 1)
  {
    RunPrefix(l, fs, n - 1);
    var before := Run(l, fs[..n - 1]);
    if n == 1 {
      FirstFrameStep(before, msg);
    } else {
      PrefixProgress(l, msg, fs, n - 1);
      NextFrameStep(before, msg, n - 1);
    }
  }

  /** All frames but the last are taken in without completing the message. */
  lemma PrefixResult(l: Link, msg: seq<byte>, fs: seq<Frame>, i: nat)
    requires 7 < |msg| <= ISOTP_MAX_MESSAGE && |msg| <= |l.buf|
    requires i < |msg| / 7 && i < |fs|
    requires forall k :: 0 <= k <= i ==> fs[k] == Trimmed(msg, k)
    ensures ResultAt(l, fs, i) == Expected(msg, i)
  {
    if i == 0 {
      FirstFrameStep(Run(l, fs[..0]), msg);
    } else {
      PrefixProgress(l, msg, fs, i);
      NextFrameStep(Run(l, fs[..i]), msg, i);
    }
  }

  /** Frame `k` arrives right after the frames before it. */
  lemma NextFrameStep(l: Link, msg: seq<byte>, k: nat)
    requires 7 < |msg| <= ISOTP_MAX_MESSAGE && 1 <= k <= |msg| / 7 && Progress(l, msg, k - 1, k - 1)
    ensures FeedFrame(l, Trimmed(msg, k)).result == Expected(msg, k)
    ensures if k < |msg| / 7 then Progress(FeedFrame(l, Trimmed(msg, k)).link, msg, k, k)
            else !FeedFrame(l, Trimmed(msg, k)).link.receiving
  {
    ConsecutiveFrameStep(l, msg, k - 1, k - 1, k);
  }

  /** Trimmed frames bring every non-empty message back, to a link in any state: frame by frame, ... */
  lemma TrimmedRoundTrip(l: Link, msg: seq<byte>, i: nat)
    requires 1 <= |msg| <= ISOTP_MAX_MESSAGE && |msg| <= |l.buf| && i < FrameCount(|msg|)
    ensures ResultAt(l, Frames(msg), i) == Expected(msg, i)
  {
    if i + 1 == FrameCount(|msg|) {
      LastFrameCompletes(l, msg);
    } else {
      PrefixResult(l, msg, Frames(msg), i);
    }
  }

  /** ... and the last one completes it. */
  lemma LastFrameCompletes(l: Link, msg: seq<byte>)
    requires 1 <= |msg| <= ISOTP_MAX_MESSAGE && |msg| <= |l.buf|
    ensures ResultAt(l, Frames(msg), FrameCount(|msg|) - 1) == Event(Complete(msg))
    ensures !Run(l, Frames(msg)).receiving
  {
    hide FeedFrame;
    var fs := Frames(msg);
    var n := |fs| - 1;
    RunLast(l, fs);
    if |msg| <= 7 {
      SingleFrameStep(Run(l, fs[..0]), msg);
    } else {
      PrefixProgress(l, msg, fs, n);
      NextFrameStep(Run(l, fs[..n]), msg, n);
    }
  }

  /** The empty message is the one that cannot be sent: its frame is always rejected. */
  lemma EmptyMessageIsRejected(l: Link)
    ensures FeedFrame(l, Trimmed([], 0)) == Fed(l, Rejected(InvalidPci))
    ensures FeedFrame(l, Padded([], 0)) == Fed(l, Rejected(InvalidPci))
  {
    assert Padded([], 0)[0] == 0;
  }

  /** A long message whose last chunk is full is not padded at all. */
  lemma FullFramesAreNotPadded(msg: seq<byte>, ks: seq<nat>)
    requires 7 < |msg| <= ISOTP_MAX_MESSAGE && |msg| % 7 == 6
    requires forall i :: 0 <= i < |ks| ==> ks[i] < FrameCount(|msg|)
    ensures DeliveredPadded(msg, ks) == Delivered(msg, ks)
  {
    forall i | 0 <= i < |ks|
      ensures Padded(msg, ks[i]) == Trimmed(msg, ks[i])
    {
      assert |Trimmed(msg, ks[i])| == 8;
    }
  }

  lemma PaddedFrameShape(msg: seq<byte>, k: nat)
    requires 7 < |msg| <= ISOTP_MAX_MESSAGE && k <= |msg| / 7
    ensures var f := Padded(msg, k);
            && |f| == 8 && f[0] / 16 == (if k == 0 then 1 else 2)
            && (k == 0 ==> DeclaredLength(f) == |msg|)
            && (k > 0 ==> f[0] % 16 == k % 16)
            && (k == 0 || k < |msg| / 7 || |msg| % 7 == 6 ==> f == Trimmed(msg, k))
  {
    if k == 0 {
      assert DeclaredLength(Padded(msg, 0)) == |msg|;
    }
  }

  /**
    * A message of more than 7 bytes whose last chunk is not full never completes from padded frames,
    * however they are ordered, lost or repeated: seven data bytes at a time never reach its length.
    */
  lemma PaddedNeverCompletes(l: Link, msg: seq<byte>, ks: seq<nat>)
    requires 7 < |msg| <= ISOTP_MAX_MESSAGE && |msg| <= |l.buf| && |msg| % 7 != 6
    requires (forall i :: 0 <= i < |ks| ==> ks[i] < FrameCount(|msg|)) && StartsAfresh(l.receiving, ks)
    ensures !Completes(l, DeliveredPadded(msg, ks))
    ensures var r := Run(l, DeliveredPadded(msg, ks));
            && (r.receiving <==> if ks == [] then l.receiving else 0 in ks)
            && (r.receiving && ks != [] ==> r.total == |msg| && r.filled % 7 == 6)
  {
    hide FeedFrame;
    var fs, idle := DeliveredPadded(msg, ks), l.(receiving := false);
    if l.receiving && ks != [] {
      FrameZeroStartsAfresh(l, msg);
      PaddedFrameShape(msg, 0);
      FreshStart(l, fs);
    }
    if ks != [] {
      IdleNeverCompletes(idle, msg, ks);
      assert forall i :: 0 <= i < |fs| ==> CompletesAt(l, fs, i) == CompletesAt(idle, fs, i);
    }
  }

  lemma {:induction false} IdleNeverCompletes(l: Link, msg: seq<byte>, ks: seq<nat>)
    requires !l.receiving && 7 < |msg| <= ISOTP_MAX_MESSAGE && |msg| <= |l.buf|
    requires |msg| % 7 != 6
    requires forall i :: 0 <= i < |ks| ==> ks[i] < FrameCount(|msg|)
    ensures !Completes(l, DeliveredPadded(msg, ks))
    ensures var r := Run(l, DeliveredPadded(msg, ks));
            (r.receiving <==> 0 in ks) && (r.receiving ==> r.total == |msg| && r.filled % 7 == 6)
    decreases |ks|
  {
    if ks != [] {
      var m := |ks| - 1;
      assert ks == ks[..m] + [ks[m]];
      IdleNeverCompletes(l, msg, ks[..m]);
      DeliverySnoc(msg, ks[..m], ks[m]);
      var fs, f := DeliveredPadded(msg, ks[..m]), Padded(msg, ks[m]);
      RunStep(l, fs, f);
      CompletesStep(l, fs, f);
      PaddedFrameShape(msg, ks[m]);
      PaddedFrameStep(Run(l, fs), |msg|, f);
    }
  }

  /** A full frame of a message of `len` bytes reaches a link that has 6, 13, 20, ... bytes of it. */
  lemma PaddedFrameStep(l: Link, len: nat, f: Frame)
    requires 7 < len <= |l.buf| && len % 7 != 6
    requires l.receiving ==> l.total == len && l.filled % 7 == 6
    requires |f| == 8 && 1 <= f[0] / 16 <= 2 && (f[0] / 16 == 1 ==> DeclaredLength(f) == len)
    ensures var r := FeedFrame(l, f);
            && !r.result.Completes() && (r.link.receiving <==> l.receiving || f[0] / 16 == 1)
            && (r.link.receiving ==> r.link.total == len && r.link.filled % 7 == 6)
  {
  }

  /** Otherwise the last frame, and only the last one, is rejected, and the link goes on waiting. */
  lemma PaddedLastFrameOverflows(l: Link, msg: seq<byte>, i: nat)
    requires 7 < |msg| <= ISOTP_MAX_MESSAGE && |msg| <= |l.buf| && |msg| % 7 != 6 && i < FrameCount(|msg|)
    ensures ResultAt(l, PaddedFrames(msg), i) == if i + 1 == FrameCount(|msg|) then Rejected(Overflow) else Expected(msg, i)
    ensures Run(l, PaddedFrames(msg)).receiving
  {
    FullFramesComeFirst(msg);
    PaddedLastFrame(l, msg, PaddedFrames(msg), i);
  }

  /** Only the last frame of a long message can be padded. */
  lemma FullFramesComeFirst(msg: seq<byte>)
    requires 7 < |msg| <= ISOTP_MAX_MESSAGE
    ensures forall k :: 0 <= k < |msg| / 7 ==> PaddedFrames(msg)[k] == Trimmed(msg, k)
  {
    forall k | 0 <= k < |msg| / 7 ensures PaddedFrames(msg)[k] == Trimmed(msg, k) {
      PaddedFrameShape(msg, k);
    }
  }

  lemma PaddedLastFrame(l: Link, msg: seq<byte>, ps: seq<Frame>, i: nat)
    requires 7 < |msg| <= ISOTP_MAX_MESSAGE && |msg| <= |l.buf| && |msg| % 7 != 6
    requires |ps| == |msg| / 7 + 1 && ps[|msg| / 7] == Padded(msg, |msg| / 7) && i < |ps|
    requires forall i :: 0 <= i < |msg| / 7 ==> ps[i] == Trimmed(msg, i)
    ensures ResultAt(l, ps, i) == if i == |msg| / 7 then Rejected(Overflow) else Expected(msg, i)
    ensures Run(l, ps).receiving
  {
    var n := |msg| / 7;
    RunLast(l, ps);
    PrefixProgress(l, msg, ps, n);
    PaddedLastFrameStep(Run(l, ps[..n]), msg);
    if i < n {
      PrefixResult(l, msg, ps, i);
    }
  }

  lemma PaddedLastFrameStep(l: Link, msg: seq<byte>)
    requires 7 < |msg| <= ISOTP_MAX_MESSAGE && |msg| % 7 != 6
    requires Progress(l, msg, |msg| / 7 - 1, |msg| / 7 - 1)
    ensures var r := FeedFrame(l, Padded(msg, |msg| / 7));
            r.result == Rejected(Overflow) && r.link.receiving
  {
    PaddedFrameShape(msg, |msg| / 7);
  }

  /** The lengths of the messages that padded frames can carry. */
  predicate FillsItsFrames(len: nat) {
    1 <= len <= 7 || (len > 7 && (len - 6) % 7 == 0)
  }

  /** The only completion of a run is its last frame's. */
  lemma LastCompletesOnly(l: Link, fs: seq<Frame>, msg: seq<byte>)
    requires fs != [] && forall i :: 0 <= i < |fs| - 1 ==> !CompletesAt(l, fs, i)
    requires ResultAt(l, fs, |fs| - 1) == Event(Complete(msg))
    ensures Completions(l, fs) == [msg]
  {
    var m := |fs| - 1;
    assert fs == fs[..m] + [fs[m]];
    RunStep(l, fs[..m], fs[m]);
    forall i | 0 <= i < m ensures !CompletesAt(l, fs[..m], i) {
      assert !CompletesAt(l, fs, i);
    }
    NoCompletions(l, fs[..m]);
  }

  /** Trimmed frames complete the message that they carry, once, on a link in any state. */
  lemma TrimmedCompletions(l: Link, msg: seq<byte>)
    requires |msg| <= ISOTP_MAX_MESSAGE && |msg| <= |l.buf|
    ensures Completions(l, Frames(msg)) == if msg == [] then [] else [msg]
  {
    var fs := Frames(msg);
    if msg == [] {
      EmptyMessageIsRejected(Run(l, fs[..0]));
      NoCompletions(l, fs);
    } else {
      forall i | 0 <= i < |fs| ensures ResultAt(l, fs, i) == Expected(msg, i) {
        TrimmedRoundTrip(l, msg, i);
      }
      LastCompletesOnly(l, fs, msg);
    }
  }

  lemma ShortPaddedCompletions(l: Link, msg: seq<byte>)
    requires |msg| <= 7 && |msg| <= |l.buf|
    ensures Completions(l, PaddedFrames(msg)) == if FillsItsFrames(|msg|) then [msg] else []
  {
    var fs := PaddedFrames(msg);
    if msg == [] {
      EmptyMessageIsRejected(Run(l, fs[..0]));
      NoCompletions(l, fs);
    } else {
      SingleFrameStep(Run(l, fs[..0]), msg);
      LastCompletesOnly(l, fs, msg);
    }
  }

  lemma LongPaddedCompletions(l: Link, msg: seq<byte>)
    requires 7 < |msg| <= ISOTP_MAX_MESSAGE && |msg| <= |l.buf|
    ensures Completions(l, PaddedFrames(msg)) == if FillsItsFrames(|msg|) then [msg] else []
  {
    LastChunkIsFull(|msg|);
    if |msg| % 7 == 6 {
      FullFramesAreNotPadded(msg, UpTo(FrameCount(|msg|)));
      TrimmedCompletions(l, msg);
    } else {
      forall i | 0 <= i < FrameCount(|msg|) ensures !CompletesAt(l, PaddedFrames(msg), i) {
        PaddedLastFrameOverflows(l, msg, i);
      }
      NoCompletions(l, PaddedFrames(msg));
    }
  }

  lemma LastChunkIsFull(len: nat)
    requires 7 < len
    ensures len % 7 == 6 <==> FillsItsFrames(len)
  {
  }

  /**
    * `encode_message`'s own frames bring a message back, once, exactly when it is short or fills its last
    * frame, and complete nothing otherwise, whatever the link was doing before.
    */
  lemma PaddedRoundTripExactly(l: Link, msg: seq<byte>)
    requires |msg| <= ISOTP_MAX_MESSAGE && |msg| <= |l.buf|
    ensures Completions(l, PaddedFrames(msg)) == if FillsItsFrames(|msg|) then [msg] else []
  {
    if |msg| <= 7 {
      ShortPaddedCompletions(l, msg);
    } else {
      LongPaddedCompletions(l, msg);
    }
  }
}
