/** One message after another: which deliveries a link tells apart, and what a stream of them completes. */
module IsoTpStreams {
  import opened Bytes
  import opened IsoTp
  import opened IsoTpTheorems

  // ---------------------------------------------------------------------------
  // What goes wrong when a delivery does not start afresh
  // ---------------------------------------------------------------------------

  /** The beginning of `a` up to chunk `k`, and the rest of `b`. */
  function Spliced(a: seq<byte>, b: seq<byte>, k: nat): (c: seq<byte>)
    requires |a| == |b| > 7 && 1 <= k <= |a| / 7
    ensures |c| == |b|
  {
    a[..7 * k - 1] + b[7 * k - 1..]
  }

  lemma SplicedFrames(a: seq<byte>, b: seq<byte>, k: nat)
    requires |a| == |b| && 7 < |b| <= ISOTP_MAX_MESSAGE && 1 <= k <= |a| / 7
    ensures Frames(a)[..k] + Frames(b)[k..] == Frames(Spliced(a, b, k))
  {
    var c := Spliced(a, b, k);
    forall i | 0 <= i < FrameCount(|b|)
      ensures Trimmed(c, i) == Trimmed(if i < k then a else b, i)
    {
      SplicedFrame(a, b, k, i);
    }
  }

  lemma SplicedFrame(a: seq<byte>, b: seq<byte>, k: nat, i: nat)
    requires |a| == |b| && 7 < |b| <= ISOTP_MAX_MESSAGE && 1 <= k <= |a| / 7 && i < FrameCount(|b|)
    ensures Trimmed(Spliced(a, b, k), i) == Trimmed(if i < k then a else b, i)
  {
    var c := Spliced(a, b, k);
    if i == 0 {
      assert c[..6] == a[..6];
    } else if i < k {
      assert c[7 * i - 1..7 * i + 6] == a[7 * i - 1..7 * i + 6];
    } else {
      assert c[7 * i - 1..] == b[7 * i - 1..];
      var end := if 7 * i + 6 <= |b| then 7 * i + 6 else |b|;
      assert c[7 * i - 1..end] == b[7 * i - 1..end];
    }
  }

  /** If a message breaks off and another of its length is picked up at that frame, a mixture of both is completed. */
  lemma Splice(l: Link, a: seq<byte>, b: seq<byte>, k: nat)
    requires |a| == |b| && 7 < |b| <= ISOTP_MAX_MESSAGE && |b| <= |l.buf| && 1 <= k <= |a| / 7
    ensures Completions(l, Frames(a)[..k] + Frames(b)[k..]) == [Spliced(a, b, k)]
  {
    SplicedFrames(a, b, k);
    TrimmedCompletions(l, Spliced(a, b, k));
  }

  /** A message that shares frame `k` with `b`, has it as its last frame, and is not `b`. */
  function Impostor(b: seq<byte>, k: nat): (a: seq<byte>)
    requires 7 < |b| <= ISOTP_MAX_MESSAGE && 1 <= k <= |b| / 7
    ensures a != b && 7 < |a| <= |b| && k == |a| / 7
    ensures Trimmed(a, k) == Trimmed(b, k)
  {
    if k < |b| / 7 then b[..7 * k + 6]
    else
      var other: byte := if b[0] == 0 then 1 else 0;
      var a := b[0 := other];
      assert a[0] != b[0] && a[7 * k - 1..] == b[7 * k - 1..];
      a
  }

  // ---------------------------------------------------------------------------
  // Framings: one delivery
  // ---------------------------------------------------------------------------

  /** How a sender fills the last frame of a message: not at all, or with zeros as `encode_message` does. */
  datatype Framing = CutOff | ZeroPadded {
    function FrameOf(msg: seq<byte>, k: nat): Frame
      requires |msg| <= ISOTP_MAX_MESSAGE && k < FrameCount(|msg|)
    {
      if CutOff? then Trimmed(msg, k) else Padded(msg, k)
    }

    /** The frames of `msg` with the given indices, in the given order. */
    function Sent(msg: seq<byte>, ks: seq<nat>): (fs: seq<Frame>)
      requires |msg| <= ISOTP_MAX_MESSAGE
      requires forall i :: 0 <= i < |ks| ==> ks[i] < FrameCount(|msg|)
      ensures |fs| == |ks|
      ensures forall i :: 0 <= i < |ks| ==> fs[i] == FrameOf(msg, ks[i])
    {
      if CutOff? then Delivered(msg, ks) else DeliveredPadded(msg, ks)
    }

    function AllFrames(msg: seq<byte>): seq<Frame>
      requires |msg| <= ISOTP_MAX_MESSAGE
    {
      Sent(msg, UpTo(FrameCount(|msg|)))
    }

    /** The lengths of the messages that come out at the other end if all their frames do. */
    predicate Carries(len: nat) {
      if CutOff? then len > 0 else FillsItsFrames(len)
    }

    /** How often a message of `len` bytes is completed by the frames `ks`. */
    ghost function Arrivals(len: nat, ks: seq<nat>): nat {
      if Carries(len) then IsoTpTheorems.Arrivals(len, ks) else 0
    }

    /** Whether they leave a link waiting; a message that is not carried never ends. */
    ghost predicate LeavesOpen(open: bool, len: nat, ks: seq<nat>) {
      if len == 0 || ks == [] then open
      else if Carries(len) then IsoTpTheorems.LeavesOpen(open, len, ks)
      else 0 in ks
    }
  }

  /** No link can tell the two frames apart. */
  ghost predicate Alike(f: Frame, g: Frame) {
    forall l: Link :: FeedFrame(l, f) == FeedFrame(l, g)
  }

  lemma {:induction false} AlikeRuns(l: Link, fs: seq<Frame>, gs: seq<Frame>)
    requires |fs| == |gs| && forall i :: 0 <= i < |fs| ==> Alike(fs[i], gs[i])
    ensures Run(l, fs) == Run(l, gs) && Completions(l, fs) == Completions(l, gs)
    decreases |fs|
  {
    hide FeedFrame;
    if fs != [] {
      var m := |fs| - 1;
      assert fs == fs[..m] + [fs[m]] && gs == gs[..m] + [gs[m]];
      AlikeRuns(l, fs[..m], gs[..m]);
      assert Alike(fs[m], gs[m]);
      RunStep(l, fs[..m], fs[m]);
      RunStep(l, gs[..m], gs[m]);
      CompletionsStep(l, fs[..m], fs[m]);
      CompletionsStep(l, gs[..m], gs[m]);
    }
  }

  /** Padding goes unnoticed in a message that fills its frames. */
  lemma PaddingUnnoticed(msg: seq<byte>, k: nat)
    requires |msg| <= ISOTP_MAX_MESSAGE && FillsItsFrames(|msg|) && k < FrameCount(|msg|)
    ensures Alike(Padded(msg, k), Trimmed(msg, k))
  {
    if |msg| <= 7 {
      var f, g := Padded(msg, k), Trimmed(msg, k);
      assert f[1..1 + |msg|] == msg == g[1..1 + |msg|];
    } else {
      LastChunkIsFull(|msg|);
      PaddedFrameShape(msg, k);
    }
  }

  /** Every link rejects the frame and stays as it is. */
  ghost predicate Ignored(f: Frame) {
    forall l: Link :: FeedFrame(l, f) == Fed(l, Rejected(InvalidPci))
  }

  lemma {:induction false} IgnoredRuns(l: Link, fs: seq<Frame>)
    requires forall i :: 0 <= i < |fs| ==> Ignored(fs[i])
    ensures Run(l, fs) == l && Completions(l, fs) == []
    decreases |fs|
  {
    hide FeedFrame;
    if fs != [] {
      var m := |fs| - 1;
      IgnoredRuns(l, fs[..m]);
      assert fs == fs[..m] + [fs[m]];
      assert Ignored(fs[m]);
      RunStep(l, fs[..m], fs[m]);
      CompletionsStep(l, fs[..m], fs[m]);
    }
  }

  /** What a lossy delivery in either framing completes, and whether it leaves the link waiting. */
  ghost predicate EndsAsDue(framing: Framing, l: Link, msg: seq<byte>, ks: seq<nat>)
    requires |msg| <= ISOTP_MAX_MESSAGE && forall i :: 0 <= i < |ks| ==> ks[i] < FrameCount(|msg|)
  {
    && Completions(l, framing.Sent(msg, ks)) == Repeat(msg, framing.Arrivals(|msg|, ks))
    && (Run(l, framing.Sent(msg, ks)).receiving <==> framing.LeavesOpen(l.receiving, |msg|, ks))
  }

  /**
    * A lossy delivery of any message in either framing, to a link in any state: if the framing carries its
    * length, a message of several frames is completed once or not at all and one of a single frame as often
    * as it arrives; otherwise never.
    */
  lemma LossyFraming(framing: Framing, l: Link, msg: seq<byte>, ks: seq<nat>)
    requires |msg| <= ISOTP_MAX_MESSAGE && |msg| <= |l.buf| && StartsAfresh(l.receiving, ks)
    requires InOrder(ks) && forall i :: 0 <= i < |ks| ==> ks[i] < FrameCount(|msg|)
    ensures EndsAsDue(framing, l, msg, ks)
  {
    if msg == [] {
      EmptyFraming(framing, l, ks);
    } else {
      LossyCompletions(l, msg, ks);
      LossyLeavesOpen(l, msg, ks);
      if framing.ZeroPadded? {
        if FillsItsFrames(|msg|) {
          forall i | 0 <= i < |ks| ensures Alike(DeliveredPadded(msg, ks)[i], Delivered(msg, ks)[i]) {
            PaddingUnnoticed(msg, ks[i]);
          }
          AlikeRuns(l, DeliveredPadded(msg, ks), Delivered(msg, ks));
        } else {
          LastChunkIsFull(|msg|);
          PaddedNeverCompletes(l, msg, ks);
          CompletionsExactly(l, DeliveredPadded(msg, ks));
        }
      }
    }
  }

  lemma EmptyFraming(framing: Framing, l: Link, ks: seq<nat>)
    requires forall i :: 0 <= i < |ks| ==> ks[i] < FrameCount(0)
    ensures EndsAsDue(framing, l, [], ks)
  {
    var fs := framing.Sent([], ks);
    forall i | 0 <= i < |fs| ensures Ignored(fs[i]) {
      forall m: Link ensures FeedFrame(m, fs[i]) == Fed(m, Rejected(InvalidPci)) {
        EmptyMessageIsRejected(m);
      }
    }
    IgnoredRuns(l, fs);
  }

  // ---------------------------------------------------------------------------
  // Streams
  // ---------------------------------------------------------------------------

  /** What gets through of one message. */
  datatype Delivery = Delivery(msg: seq<byte>, ks: seq<nat>) {
    /** A lossy in-order delivery of a message that a link of capacity `n` has room for. */
    ghost predicate Valid(n: nat) {
      && |msg| <= ISOTP_MAX_MESSAGE && |msg| <= n
      && InOrder(ks) && forall i :: 0 <= i < |ks| ==> ks[i] < FrameCount(|msg|)
    }
  }

  ghost predicate AllValid(n: nat, ds: seq<Delivery>) {
    forall i :: 0 <= i < |ds| ==> ds[i].Valid(n)
  }

  /** All that gets through, one message after another. */
  ghost function Stream(framing: Framing, n: nat, ds: seq<Delivery>): seq<Frame>
    requires AllValid(n, ds)
  {
    if ds == [] then []
    else
      var m := |ds| - 1;
      Stream(framing, n, ds[..m]) + framing.Sent(ds[m].msg, ds[m].ks)
  }

  lemma StreamLast(framing: Framing, n: nat, ds: seq<Delivery>)
    requires ds != [] && AllValid(n, ds)
    ensures var m := |ds| - 1;
            && AllValid(n, ds[..m]) && ds[m].Valid(n)
            && Stream(framing, n, ds) == Stream(framing, n, ds[..m]) + framing.Sent(ds[m].msg, ds[m].ks)
  {
  }

  lemma StreamOfOne(framing: Framing, n: nat, d: Delivery)
    requires AllValid(n, [d])
    ensures d.Valid(n) && Stream(framing, n, [d]) == framing.Sent(d.msg, d.ks)
  {
    StreamLast(framing, n, [d]);
    assert [d][..0] == [];
    assert [] + framing.Sent(d.msg, d.ks) == framing.Sent(d.msg, d.ks);
  }

  /** The messages that come out: each as often as it arrives, in the order of sending. */
  ghost function Arriving(framing: Framing, ds: seq<Delivery>): seq<seq<byte>> {
    if ds == [] then []
    else
      var m := |ds| - 1;
      Arriving(framing, ds[..m]) + Repeat(ds[m].msg, framing.Arrivals(|ds[m].msg|, ds[m].ks))
  }

  /** Whether a link is left waiting for more of a message, seen from the deliveries alone. */
  ghost predicate StaysOpen(framing: Framing, open: bool, ds: seq<Delivery>) {
    if ds == [] then open
    else
      var m := |ds| - 1;
      framing.LeavesOpen(StaysOpen(framing, open, ds[..m]), |ds[m].msg|, ds[m].ks)
  }

  /** Every delivery that finds the link waiting starts afresh. */
  ghost predicate Separated(framing: Framing, open: bool, ds: seq<Delivery>) {
    forall i :: 0 <= i < |ds| ==> StartsAfresh(StaysOpen(framing, open, ds[..i]), ds[i].ks)
  }

  lemma SeparatedPrefix(framing: Framing, n: nat, open: bool, ds: seq<Delivery>)
    requires ds != [] && AllValid(n, ds) && Separated(framing, open, ds)
    ensures var m := |ds| - 1;
            && AllValid(n, ds[..m]) && Separated(framing, open, ds[..m])
            && StartsAfresh(StaysOpen(framing, open, ds[..m]), ds[m].ks)
  {
    hide Framing.LeavesOpen;
    var m := |ds| - 1;
    forall i | 0 <= i < m ensures StartsAfresh(StaysOpen(framing, open, ds[..m][..i]), ds[..m][i].ks) {
      assert ds[..m][..i] == ds[..i];
    }
  }

  /**
    * A channel that keeps order but loses and repeats frames, message after message: exactly the messages
    * whose length the framing carries and all of whose frames got through come out, in order, and the link
    * is left waiting just as the deliveries say.
    */
  lemma {:induction false} LossyStream(framing: Framing, l: Link, ds: seq<Delivery>)
    requires AllValid(|l.buf|, ds) && Separated(framing, l.receiving, ds)
    ensures Completions(l, Stream(framing, |l.buf|, ds)) == Arriving(framing, ds)
    ensures Run(l, Stream(framing, |l.buf|, ds)).receiving <==> StaysOpen(framing, l.receiving, ds)
    decreases |ds|
  {
    hide FeedFrame, Framing.LeavesOpen, Framing.Arrivals;
    if ds != [] {
      var m, n := |ds| - 1, |l.buf|;
      var pre, last := ds[..m], ds[m];
      SeparatedPrefix(framing, n, l.receiving, ds);
      LossyStream(framing, l, pre);
      StreamLast(framing, n, ds);
      RunConcat(l, Stream(framing, n, pre), framing.Sent(last.msg, last.ks));
      LossyFraming(framing, Run(l, Stream(framing, n, pre)), last.msg, last.ks);
    }
  }

  // ---------------------------------------------------------------------------
  // The condition on deliveries is exact
  // ---------------------------------------------------------------------------

  /** The frames complete nothing but `msg`. */
  ghost predicate CompletesOnly(l: Link, fs: seq<Frame>, msg: seq<byte>) {
    forall i :: 0 <= i < |fs| && CompletesAt(l, fs, i) ==> ResultAt(l, fs, i) == Event(Complete(msg))
  }

  /** They do so whatever frames a link of capacity `n` was fed before. */
  ghost predicate AfterAnything(n: nat, fs: seq<Frame>, msg: seq<byte>) {
    forall before: seq<Frame> :: CompletesOnly(Run(NewLink(n), before), fs, msg)
  }

  /** They do so after every stream of deliveries that is itself in order. */
  ghost predicate AfterStreams(n: nat, fs: seq<Frame>, msg: seq<byte>) {
    forall ds: seq<Delivery> :: AllValid(n, ds) && Separated(CutOff, false, ds) ==>
      CompletesOnly(Run(NewLink(n), Stream(CutOff, n, ds)), fs, msg)
  }

  /** The first `k` frames of `a`, as a stream. */
  lemma BrokenOff(n: nat, a: seq<byte>, k: nat) returns (ds: seq<Delivery>)
    requires 7 < |a| <= ISOTP_MAX_MESSAGE && |a| <= n && k <= |a| / 7
    ensures AllValid(n, ds) && Separated(CutOff, false, ds) && Stream(CutOff, n, ds) == Frames(a)[..k]
  {
    var d := Delivery(a, UpTo(k));
    ds := [d];
    assert d.Valid(n);
    StreamOfOne(CutOff, n, d);
    assert ds[..0] == [];
    assert Delivered(a, UpTo(k)) == Frames(a)[..k];
  }

  lemma ImpostorCompletes(n: nat, b: seq<byte>, k: nat, fs: seq<Frame>)
    requires 7 < |b| <= ISOTP_MAX_MESSAGE && |b| <= n && 1 <= k <= |b| / 7
    requires fs != [] && fs[0] == Trimmed(b, k)
    ensures !CompletesOnly(Run(NewLink(n), Frames(Impostor(b, k))[..k]), fs, b)
  {
    var a := Impostor(b, k);
    var l := Run(NewLink(n), Frames(a)[..k]);
    LastFrameCompletes(NewLink(n), a);
    assert Frames(a)[k] == Trimmed(b, k);
    assert FeedFrame(l, fs[0]).result == Event(Complete(a));
    assert fs[..0] == [];
    assert ResultAt(l, fs, 0) == Event(Complete(a));
    assert CompletesAt(l, fs, 0);
  }

  /**
    * An in-order delivery of a long message completes that message or nothing, whatever was on the channel
    * before, if and only if frame 0 comes first or nothing comes at all.
    */
  lemma FreshStartExactly(n: nat, msg: seq<byte>, ks: seq<nat>)
    requires 7 < |msg| <= ISOTP_MAX_MESSAGE && |msg| <= n
    requires InOrder(ks) && forall i :: 0 <= i < |ks| ==> ks[i] < FrameCount(|msg|)
    ensures AfterAnything(n, Delivered(msg, ks), msg) <==> ks == [] || ks[0] == 0
    ensures AfterStreams(n, Delivered(msg, ks), msg) <==> ks == [] || ks[0] == 0
  {
    var fs := Delivered(msg, ks);
    if ks == [] || ks[0] == 0 {
      forall l: Link | |l.buf| == n ensures CompletesOnly(l, fs, msg) {
        LossyDelivery(l, msg, ks);
      }
    } else {
      var k := ks[0];
      ImpostorCompletes(n, msg, k, fs);
      var ds := BrokenOff(n, Impostor(msg, k), k);
    }
  }
}
