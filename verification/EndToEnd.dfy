/** ISO-TP messages, and the diagnostic requests in them, carried over the simulated bus. */
module EndToEnd {
  import opened Bytes
  import opened IsoTp
  import opened SimCan
  import opened IsoTpStreams
  import Tp = IsoTpTheorems
  import Can = SimCanTheorems
  import opened Uds
  import opened UdsEndpoint
  import Gate = UdsOverIsoTp

  // ---------------------------------------------------------------------------
  // Frames that belong to messages
  // ---------------------------------------------------------------------------

  /** Which message a frame belongs to, and which of its frames it is. */
  datatype Label = Label(which: nat, index: nat) {
    predicate Names(msgs: seq<seq<byte>>) {
      which < |msgs| && |msgs[which]| <= ISOTP_MAX_MESSAGE && index < FrameCount(|msgs[which]|)
    }

    predicate UpTo(later: Label) {
      which < later.which || (which == later.which && index <= later.index)
    }
  }

  ghost predicate AllName(labels: seq<Label>, msgs: seq<seq<byte>>) {
    forall m :: 0 <= m < |labels| ==> labels[m].Names(msgs)
  }

  /** Message after message, and within each of them frame after frame, with losses and repetitions. */
  ghost predicate Sorted(labels: seq<Label>) {
    forall m, n :: 0 <= m < n < |labels| ==> labels[m].UpTo(labels[n])
  }

  function LabelledFrames(framing: Framing, labels: seq<Label>, msgs: seq<seq<byte>>): (fs: seq<Frame>)
    requires AllName(labels, msgs)
    ensures |fs| == |labels|
    ensures forall m :: 0 <= m < |labels| ==> fs[m] == framing.FrameOf(msgs[labels[m].which], labels[m].index)
  {
    seq(|labels|, m requires 0 <= m < |labels| => framing.FrameOf(msgs[labels[m].which], labels[m].index))
  }

  /** The frames of message `q` among those labelled. */
  function IndexesOf(labels: seq<Label>, q: nat): seq<nat> {
    if labels == [] then []
    else
      var m := |labels| - 1;
      var before := IndexesOf(labels[..m], q);
      if labels[m].which == q then before + [labels[m].index] else before
  }

  /** What gets through of every message. */
  function Deliveries(labels: seq<Label>, msgs: seq<seq<byte>>): (ds: seq<Delivery>)
    ensures |ds| == |msgs|
    ensures forall q :: 0 <= q < |msgs| ==> ds[q] == Delivery(msgs[q], IndexesOf(labels, q))
  {
    seq(|msgs|, q requires 0 <= q < |msgs| => Delivery(msgs[q], IndexesOf(labels, q)))
  }

  lemma {:induction false} IndexesOfExactly(labels: seq<Label>, q: nat, f: nat)
    ensures f in IndexesOf(labels, q) <==> Label(q, f) in labels
    decreases |labels|
  {
    if labels != [] {
      var m := |labels| - 1;
      assert labels == labels[..m] + [labels[m]];
      IndexesOfExactly(labels[..m], q, f);
    }
  }

  lemma {:induction false} IndexesOfInOrder(labels: seq<Label>, q: nat)
    requires Sorted(labels)
    ensures Tp.InOrder(IndexesOf(labels, q))
    decreases |labels|
  {
    if labels != [] {
      var m := |labels| - 1;
      var pre := labels[..m];
      IndexesOfInOrder(pre, q);
      if labels[m].which == q {
        forall i | 0 <= i < |IndexesOf(pre, q)| ensures IndexesOf(pre, q)[i] <= labels[m].index {
          IndexesOfExactly(pre, q, IndexesOf(pre, q)[i]);
          assert Label(q, IndexesOf(pre, q)[i]).UpTo(labels[m]);
        }
      }
    }
  }

  lemma IndexesOfAreFrames(labels: seq<Label>, msgs: seq<seq<byte>>, q: nat)
    requires AllName(labels, msgs) && q < |msgs|
    ensures forall i :: 0 <= i < |IndexesOf(labels, q)| ==> IndexesOf(labels, q)[i] < FrameCount(|msgs[q]|)
  {
    var ks := IndexesOf(labels, q);
    forall i | 0 <= i < |ks| ensures ks[i] < FrameCount(|msgs[q]|) {
      IndexesOfExactly(labels, q, ks[i]);
      assert Label(q, ks[i]).Names(msgs);
    }
  }

  lemma DeliveriesAreValid(labels: seq<Label>, msgs: seq<seq<byte>>, n: nat)
    requires AllName(labels, msgs) && Sorted(labels)
    requires forall q :: 0 <= q < |msgs| ==> |msgs[q]| <= ISOTP_MAX_MESSAGE && |msgs[q]| <= n
    ensures AllValid(n, Deliveries(labels, msgs))
  {
    forall q | 0 <= q < |msgs| ensures Deliveries(labels, msgs)[q].Valid(n) {
      IndexesOfInOrder(labels, q);
      IndexesOfAreFrames(labels, msgs, q);
    }
  }

  // ---------------------------------------------------------------------------
  // Labelled frames in order are a stream of deliveries
  // ---------------------------------------------------------------------------

  lemma {:induction false} IndexesOfConcat(a: seq<Label>, b: seq<Label>, q: nat)
    ensures IndexesOf(a + b, q) == IndexesOf(a, q) + IndexesOf(b, q)
    decreases |b|
  {
    if b == [] {
      assert a + b == a;
    } else {
      var n := |b| - 1;
      assert (a + b)[..|a + b| - 1] == a + b[..n];
      IndexesOfConcat(a, b[..n], q);
    }
  }

  lemma NoIndexes(labels: seq<Label>, q: nat)
    requires forall m :: 0 <= m < |labels| ==> labels[m].which != q
    ensures IndexesOf(labels, q) == []
  {
    if IndexesOf(labels, q) != [] {
      IndexesOfExactly(labels, q, IndexesOf(labels, q)[0]);
    }
  }

  lemma {:induction false} AllIndexes(labels: seq<Label>, q: nat)
    requires forall m :: 0 <= m < |labels| ==> labels[m].which == q
    ensures |IndexesOf(labels, q)| == |labels|
    ensures forall m :: 0 <= m < |labels| ==> IndexesOf(labels, q)[m] == labels[m].index
    decreases |labels|
  {
    if labels != [] {
      AllIndexes(labels[..|labels| - 1], q);
    }
  }

  /** Where the labels of message `q` begin, if it is the last one. */
  lemma {:induction false} CutAt(labels: seq<Label>, q: nat) returns (c: nat)
    requires Sorted(labels) && forall m :: 0 <= m < |labels| ==> labels[m].which <= q
    ensures c <= |labels|
    ensures forall m :: 0 <= m < c ==> labels[m].which < q
    ensures forall m :: c <= m < |labels| ==> labels[m].which == q
  {
    c := |labels|;
    while c > 0 && labels[c - 1].which == q
      invariant c <= |labels|
      invariant forall m :: c <= m < |labels| ==> labels[m].which == q
    {
      c := c - 1;
    }
    if c > 0 {
      assert forall m :: 0 <= m < c - 1 ==> labels[m].UpTo(labels[c - 1]);
    }
  }

  lemma {:induction false} LabelledIsStream(framing: Framing, labels: seq<Label>, msgs: seq<seq<byte>>, n: nat)
    requires AllName(labels, msgs) && Sorted(labels) && AllValid(n, Deliveries(labels, msgs))
    ensures LabelledFrames(framing, labels, msgs) == Stream(framing, n, Deliveries(labels, msgs))
    decreases |msgs|
  {
    WhichIsBounded(labels, msgs);
    if msgs != [] {
      var q := |msgs| - 1;
      var c := CutAt(labels, q);
      CutDeliveries(labels, msgs, c);
      var ds := Deliveries(labels, msgs);
      StreamLast(framing, n, ds);
      LabelledIsStream(framing, labels[..c], msgs[..q], n);
      LabelledFramesCut(framing, labels, msgs, c, q, ds[q].ks);
    }
  }

  lemma WhichIsBounded(labels: seq<Label>, msgs: seq<seq<byte>>)
    requires AllName(labels, msgs)
    ensures forall m :: 0 <= m < |labels| ==> labels[m].which < |msgs|
    ensures labels != [] ==> msgs != []
  {
    if labels != [] {
      assert labels[0].Names(msgs);
    }
    forall m | 0 <= m < |labels| ensures labels[m].which < |msgs| {
      assert labels[m].Names(msgs);
    }
  }

  lemma CutDeliveries(labels: seq<Label>, msgs: seq<seq<byte>>, c: nat)
    requires msgs != [] && c <= |labels| && AllName(labels, msgs) && Sorted(labels)
    requires forall m :: 0 <= m < c ==> labels[m].which < |msgs| - 1
    requires forall m :: c <= m < |labels| ==> labels[m].which == |msgs| - 1
    ensures var q := |msgs| - 1;
            && AllName(labels[..c], msgs[..q]) && Sorted(labels[..c])
            && Deliveries(labels, msgs)[..q] == Deliveries(labels[..c], msgs[..q])
            && Deliveries(labels, msgs)[q].ks == IndexesOf(labels[c..], q)
  {
    var q := |msgs| - 1;
    forall m | 0 <= m < c ensures labels[..c][m].Names(msgs[..q]) {
      assert labels[m].Names(msgs);
    }
    assert labels == labels[..c] + labels[c..];
    IndexesOfConcat(labels[..c], labels[c..], q);
    NoIndexes(labels[..c], q);
    forall p: nat | p < q ensures IndexesOf(labels, p) == IndexesOf(labels[..c], p) {
      IndexesOfConcat(labels[..c], labels[c..], p);
      NoIndexes(labels[c..], p);
    }
  }

  lemma LabelledFramesCut(
    framing: Framing, labels: seq<Label>, msgs: seq<seq<byte>>, c: nat, q: nat, ks: seq<nat>)
    requires q + 1 == |msgs| && |msgs[q]| <= ISOTP_MAX_MESSAGE
    requires c <= |labels| && AllName(labels, msgs) && AllName(labels[..c], msgs[..q])
    requires forall m :: c <= m < |labels| ==> labels[m].which == q
    requires ks == IndexesOf(labels[c..], q) && forall i :: 0 <= i < |ks| ==> ks[i] < FrameCount(|msgs[q]|)
    ensures LabelledFrames(framing, labels, msgs) ==
            LabelledFrames(framing, labels[..c], msgs[..q]) + framing.Sent(msgs[q], ks)
  {
    FirstFramesCut(framing, labels, msgs, c, q);
    LastFramesCut(framing, labels, msgs, c, q, ks);
    CutInTwo(LabelledFrames(framing, labels, msgs), c);
  }

  lemma CutInTwo<T>(s: seq<T>, c: nat)
    requires c <= |s|
    ensures s == s[..c] + s[c..]
  {
  }

  lemma FirstFramesCut(framing: Framing, labels: seq<Label>, msgs: seq<seq<byte>>, c: nat, q: nat)
    requires q <= |msgs| && c <= |labels| && AllName(labels, msgs) && AllName(labels[..c], msgs[..q])
    ensures LabelledFrames(framing, labels, msgs)[..c] == LabelledFrames(framing, labels[..c], msgs[..q])
  {
    hide Framing.FrameOf;
    forall m | 0 <= m < c
      ensures LabelledFrames(framing, labels, msgs)[m] == LabelledFrames(framing, labels[..c], msgs[..q])[m]
    {
      assert labels[..c][m] == labels[m] && labels[m].Names(msgs) && labels[..c][m].Names(msgs[..q]);
    }
  }

  lemma LastFramesCut(framing: Framing, labels: seq<Label>, msgs: seq<seq<byte>>, c: nat, q: nat, ks: seq<nat>)
    requires q < |msgs| && |msgs[q]| <= ISOTP_MAX_MESSAGE && c <= |labels| && AllName(labels, msgs)
    requires forall m :: c <= m < |labels| ==> labels[m].which == q
    requires ks == IndexesOf(labels[c..], q) && forall i :: 0 <= i < |ks| ==> ks[i] < FrameCount(|msgs[q]|)
    ensures LabelledFrames(framing, labels, msgs)[c..] == framing.Sent(msgs[q], ks)
  {
    hide Framing.FrameOf;
    AllIndexes(labels[c..], q);
    forall m | c <= m < |labels| ensures LabelledFrames(framing, labels, msgs)[m] == framing.Sent(msgs[q], ks)[m - c] {
      assert labels[c..][m - c] == labels[m];
    }
  }

  // ---------------------------------------------------------------------------
  // Messages over the bus
  // ---------------------------------------------------------------------------

  /**
    * What `h` puts on the wire for node `i` are frames of `msgs`: operation `k`, if it is a send of another
    * node while the bus is on and `i` attached, carries the frame that `labels[k]` names, and the labels
    * never go back. Which nodes send, what node `i` itself sends (its flow control, its responses), how often
    * a frame is repeated, and where attaches, drains and bus-off settings fall in between is left open.
    */
  ghost predicate Carries(framing: Framing, h: seq<Op<Frame>>, msgs: seq<seq<byte>>, labels: seq<Label>, i: nat) {
    && |labels| == |h|
    && (forall k :: 0 <= k < |h| && Can.OffersTo(h, k, i) ==>
          labels[k].Names(msgs) && h[k].frame == framing.FrameOf(msgs[labels[k].which], labels[k].index))
    && (forall j, k :: 0 <= j < k < |h| && Can.OffersTo(h, j, i) && Can.OffersTo(h, k, i) ==> labels[j].UpTo(labels[k]))
  }

  /** The labels of the frames that node `i` received. */
  ghost function Got(h: seq<Op<Frame>>, labels: seq<Label>, i: nat): (got: seq<Label>)
    requires |labels| == |h| && i < Can.Attached(h)
    ensures |got| == |Can.ReceivedBy(h, i)| <= |Can.Accepted(h, i)|
    ensures forall m :: 0 <= m < |got| ==> Can.Accepted(h, i)[m] < |h| && got[m] == labels[Can.Accepted(h, i)[m]]
  {
    Can.FifoDelivery(h, i);
    Can.AcceptedAreSends(h, i);
    var received, accepted := Can.ReceivedBy(h, i), Can.Accepted(h, i);
    assert |received| <= |received + Can.Run(h).queues[i]| == |accepted|;
    seq(|received|, m requires 0 <= m < |received| => labels[accepted[m]])
  }

  /** Frame `f` of message `q` reached node `i`: a send of it was accepted, and drained before `h` ended. */
  ghost predicate Arrived(h: seq<Op<Frame>>, labels: seq<Label>, i: nat, q: nat, f: nat) {
    exists m :: 0 <= m < |Can.ReceivedBy(h, i)| && m < |Can.Accepted(h, i)|
                && Can.Accepted(h, i)[m] < |labels| && labels[Can.Accepted(h, i)[m]] == Label(q, f)
  }

  lemma ArrivedExactly(h: seq<Op<Frame>>, labels: seq<Label>, i: nat, q: nat, f: nat)
    requires |labels| == |h| && i < Can.Attached(h)
    ensures Arrived(h, labels, i, q, f) <==> f in IndexesOf(Got(h, labels, i), q)
  {
    IndexesOfExactly(Got(h, labels, i), q, f);
    if Arrived(h, labels, i, q, f) {
      var m :| 0 <= m < |Can.ReceivedBy(h, i)| && m < |Can.Accepted(h, i)|
               && Can.Accepted(h, i)[m] < |labels| && labels[Can.Accepted(h, i)[m]] == Label(q, f);
      assert Got(h, labels, i)[m] == Label(q, f);
    }
    if Label(q, f) in Got(h, labels, i) {
      var m :| 0 <= m < |Got(h, labels, i)| && Got(h, labels, i)[m] == Label(q, f);
      assert labels[Can.Accepted(h, i)[m]] == Label(q, f);
    }
  }

  /** What node `i` received are the frames its labels name, in order. */
  lemma ReceivedIsLabelled(framing: Framing, h: seq<Op<Frame>>, msgs: seq<seq<byte>>, labels: seq<Label>, i: nat)
    requires Carries(framing, h, msgs, labels, i) && i < Can.Attached(h)
    ensures AllName(Got(h, labels, i), msgs) && Sorted(Got(h, labels, i))
    ensures Can.ReceivedBy(h, i) == LabelledFrames(framing, Got(h, labels, i), msgs)
  {
    hide Framing.FrameOf;
    Can.FifoDelivery(h, i);
    Can.AcceptedExactly(h, i);
    var received, accepted, got := Can.ReceivedBy(h, i), Can.Accepted(h, i), Got(h, labels, i);
    forall m | 0 <= m < |accepted| ensures accepted[m] < |h| && Can.OffersTo(h, accepted[m], i) {
      assert accepted[m] in accepted;
    }
    forall m | 0 <= m < |got|
      ensures got[m].Names(msgs) && received[m] == framing.FrameOf(msgs[got[m].which], got[m].index)
    {
      assert received[m] == (received + Can.Run(h).queues[i])[m] == h[accepted[m]].frame;
    }
  }

  /**
    * Whatever the interleaving, a link fed with what its node receives completes exactly the messages all
    * of whose frames arrived, in the order of sending, as far as the framing carries their lengths.
    */
  lemma MessagesOverBus(
    framing: Framing, h: seq<Op<Frame>>, msgs: seq<seq<byte>>, labels: seq<Label>, i: nat, l: Link)
    requires Carries(framing, h, msgs, labels, i) && i < Can.Attached(h)
    requires forall q :: 0 <= q < |msgs| ==> |msgs[q]| <= ISOTP_MAX_MESSAGE && |msgs[q]| <= |l.buf|
    requires Separated(framing, l.receiving, Deliveries(Got(h, labels, i), msgs))
    ensures Tp.Completions(l, Can.ReceivedBy(h, i)) == Arriving(framing, Deliveries(Got(h, labels, i), msgs))
  {
    var got := Got(h, labels, i);
    ReceivedIsLabelled(framing, h, msgs, labels, i);
    DeliveriesAreValid(got, msgs, |l.buf|);
    LabelledIsStream(framing, got, msgs, |l.buf|);
    LossyStream(framing, l, Deliveries(got, msgs));
  }

  /**
    * Diagnostic requests sent over the bus: those that arrive are carried out, in order, and no others are.
    * The clock may tick anywhere, also between the frames of a request.
    */
  lemma RequestsOverBus<D>(p: DataProvider<D>, framing: Framing, h: seq<Op<Frame>>, requests: seq<seq<byte>>,
                           labels: seq<Label>, i: nat, g: Gate.Gateway<D>, ws: seq<Gate.Wire>)
    requires Carries(framing, h, requests, labels, i) && i < Can.Attached(h)
    requires forall q :: 0 <= q < |requests| ==> |requests[q]| <= ISOTP_MAX_MESSAGE && |requests[q]| <= |g.link.buf|
    requires Separated(framing, g.link.receiving, Deliveries(Got(h, labels, i), requests))
    requires Gate.FramesOn(ws) == Can.ReceivedBy(h, i)
    ensures Gate.Run(p, g, ws).endpoint == Direct(p, g.endpoint, Gate.EventsOn(g.link, ws))
    ensures RequestsIn(Gate.EventsOn(g.link, ws)) == Arriving(framing, Deliveries(Got(h, labels, i), requests))
  {
    MessagesOverBus(framing, h, requests, labels, i, g.link);
    Gate.GatewayServes(p, g, ws);
    Gate.EventsAreCompletions(g.link, ws);
  }

  // ---------------------------------------------------------------------------
  // One message
  // ---------------------------------------------------------------------------

  /** Every frame of message `q`, `len` bytes long, reached node `i`. */
  ghost predicate AllArrived(h: seq<Op<Frame>>, labels: seq<Label>, i: nat, q: nat, len: nat) {
    forall f: nat :: f < FrameCount(len) ==> Arrived(h, labels, i, q, f)
  }

  lemma AllArrivedExactly(h: seq<Op<Frame>>, labels: seq<Label>, i: nat, q: nat, len: nat)
    requires |labels| == |h| && i < Can.Attached(h)
    ensures AllArrived(h, labels, i, q, len) <==> Tp.AllDelivered(len, IndexesOf(Got(h, labels, i), q))
  {
    forall f: nat ensures Arrived(h, labels, i, q, f) <==> f in IndexesOf(Got(h, labels, i), q) {
      ArrivedExactly(h, labels, i, q, f);
    }
  }

  /** Node `i` received nothing, or the First or Single Frame first. */
  ghost predicate ReceivedFromStart(h: seq<Op<Frame>>, labels: seq<Label>, i: nat)
    requires |labels| == |h| && i < Can.Attached(h)
  {
    Got(h, labels, i) != [] ==> Got(h, labels, i)[0].index == 0
  }

  /** The deliveries of a single message. */
  lemma OneDelivery(framing: Framing, h: seq<Op<Frame>>, msg: seq<byte>, labels: seq<Label>, i: nat, open: bool)
    requires Carries(framing, h, [msg], labels, i) && i < Can.Attached(h)
    requires open ==> ReceivedFromStart(h, labels, i)
    ensures var ks := IndexesOf(Got(h, labels, i), 0);
            && Deliveries(Got(h, labels, i), [msg]) == [Delivery(msg, ks)]
            && Separated(framing, open, [Delivery(msg, ks)])
            && Arriving(framing, [Delivery(msg, ks)]) == Tp.Repeat(msg, framing.Arrivals(|msg|, ks))
            && forall m :: 0 <= m < |ks| ==> ks[m] < FrameCount(|msg|)
  {
    hide Framing.Arrivals, Framing.LeavesOpen;
    var got := Got(h, labels, i);
    var ks := IndexesOf(got, 0);
    ReceivedIsLabelled(framing, h, [msg], labels, i);
    forall m | 0 <= m < |got| ensures got[m].which == 0 {
      assert got[m].Names([msg]);
    }
    AllIndexes(got, 0);
    IndexesOfAreFrames(got, [msg], 0);
    assert [Delivery(msg, ks)][..0] == [];
    assert [] + Tp.Repeat(msg, framing.Arrivals(|msg|, ks)) == Tp.Repeat(msg, framing.Arrivals(|msg|, ks));
  }

  /** How often one message is completed: as often as it arrives. */
  lemma OneMessageOverBus(framing: Framing, h: seq<Op<Frame>>, msg: seq<byte>, labels: seq<Label>, i: nat, l: Link)
    requires Carries(framing, h, [msg], labels, i) && i < Can.Attached(h)
    requires |msg| <= ISOTP_MAX_MESSAGE && |msg| <= |l.buf|
    requires l.receiving ==> ReceivedFromStart(h, labels, i)
    ensures Tp.Completions(l, Can.ReceivedBy(h, i)) ==
            Tp.Repeat(msg, framing.Arrivals(|msg|, IndexesOf(Got(h, labels, i), 0)))
    ensures framing.Arrivals(|msg|, IndexesOf(Got(h, labels, i), 0)) > 0 <==>
            framing.Carries(|msg|) && AllArrived(h, labels, i, 0, |msg|)
    ensures |msg| > ISOTP_SF_MAX ==> framing.Arrivals(|msg|, IndexesOf(Got(h, labels, i), 0)) <= 1
  {
    var ks := IndexesOf(Got(h, labels, i), 0);
    OneDelivery(framing, h, msg, labels, i, l.receiving);
    MessagesOverBus(framing, h, [msg], labels, i, l);
    AllArrivedExactly(h, labels, i, 0, |msg|);
    ArrivesExactly(framing, |msg|, ks);
  }

  lemma ArrivesExactly(framing: Framing, len: nat, ks: seq<nat>)
    requires forall m :: 0 <= m < |ks| ==> ks[m] < FrameCount(len)
    ensures framing.Arrivals(len, ks) > 0 <==> framing.Carries(len) && Tp.AllDelivered(len, ks)
    ensures len > ISOTP_SF_MAX ==> framing.Arrivals(len, ks) <= 1
  {
    if len <= ISOTP_SF_MAX {
      if ks == [] {
        assert 0 < FrameCount(len) && 0 !in ks;
      } else {
        assert ks[0] == 0;
      }
    }
  }

  lemma {:induction false} OnlyRepeats(msg: seq<byte>, n: nat)
    ensures |Tp.Repeat(msg, n)| == n && forall m: seq<byte> :: m in Tp.Repeat(msg, n) ==> m == msg
  {
    if n > 0 {
      OnlyRepeats(msg, n - 1);
    }
  }

  /**
    * One message: nothing but it is completed, and it is, exactly when the framing carries its length and
    * every frame has arrived.
    */
  lemma MessageOverBus(framing: Framing, h: seq<Op<Frame>>, msg: seq<byte>, labels: seq<Label>, i: nat, l: Link)
    requires Carries(framing, h, [msg], labels, i) && i < Can.Attached(h)
    requires |msg| <= ISOTP_MAX_MESSAGE && |msg| <= |l.buf|
    requires l.receiving ==> ReceivedFromStart(h, labels, i)
    ensures var fs := Can.ReceivedBy(h, i);
            && (forall m :: 0 <= m < |fs| && Tp.CompletesAt(l, fs, m) ==> Tp.ResultAt(l, fs, m) == Event(Complete(msg)))
            && (Tp.Completes(l, fs) <==> framing.Carries(|msg|) && AllArrived(h, labels, i, 0, |msg|))
  {
    hide FeedFrame, Framing.Carries, Framing.Arrivals, AllArrived;
    var fs, n := Can.ReceivedBy(h, i), framing.Arrivals(|msg|, IndexesOf(Got(h, labels, i), 0));
    OneMessageOverBus(framing, h, msg, labels, i, l);
    Tp.CompletionsExactly(l, fs);
    OnlyRepeats(msg, n);
    assert Tp.Repeat(msg, n) == [] <==> n == 0;
  }

  /** Frame `f` of message `q` was on the wire for node `i` while the node had room for it. */
  ghost predicate SentWithRoom(h: seq<Op<Frame>>, labels: seq<Label>, i: nat, q: nat, f: nat) {
    exists k :: 0 <= k < |labels| && Can.OffersTo(h, k, i) && Can.Room(h, k, i) && labels[k] == Label(q, f)
  }

  /** Once the receiver has drained its queue, what arrived is decided by the bus and the room at each send. */
  lemma DrainedArrival(h: seq<Op<Frame>>, labels: seq<Label>, i: nat, q: nat, f: nat)
    requires |labels| == |h| && i < Can.Attached(h)
    requires i < |Can.Run(h).queues| && Can.Run(h).queues[i] == []
    ensures Arrived(h, labels, i, q, f) <==> SentWithRoom(h, labels, i, q, f)
  {
    Can.FifoDelivery(h, i);
    assert |Can.ReceivedBy(h, i)| == |Can.Accepted(h, i)|;
    Can.AcceptedExactly(h, i);
    var accepted := Can.Accepted(h, i);
    if Arrived(h, labels, i, q, f) {
      var m :| 0 <= m < |accepted| && accepted[m] < |labels| && labels[accepted[m]] == Label(q, f);
      assert accepted[m] in accepted;
    }
    if SentWithRoom(h, labels, i, q, f) {
      var k :| 0 <= k < |labels| && Can.OffersTo(h, k, i) && Can.Room(h, k, i) && labels[k] == Label(q, f);
      assert k in accepted;
      var m :| 0 <= m < |accepted| && accepted[m] == k;
      assert accepted[m] < |labels| && labels[accepted[m]] == Label(q, f);
    }
  }

  /** Once drained, the message is complete exactly when every frame was sent with the bus on and room. */
  lemma DrainedMessageOverBus(framing: Framing, h: seq<Op<Frame>>, msg: seq<byte>, labels: seq<Label>, i: nat, l: Link)
    requires Carries(framing, h, [msg], labels, i) && i < Can.Attached(h)
    requires |msg| <= ISOTP_MAX_MESSAGE && |msg| <= |l.buf|
    requires l.receiving ==> ReceivedFromStart(h, labels, i)
    requires i < |Can.Run(h).queues| && Can.Run(h).queues[i] == []
    ensures Tp.Completes(l, Can.ReceivedBy(h, i)) <==>
            framing.Carries(|msg|) && forall f: nat :: f < FrameCount(|msg|) ==> SentWithRoom(h, labels, i, 0, f)
  {
    MessageOverBus(framing, h, msg, labels, i, l);
    forall f: nat
      ensures Arrived(h, labels, i, 0, f) <==> SentWithRoom(h, labels, i, 0, f)
    {
      DrainedArrival(h, labels, i, 0, f);
    }
  }

  /**
    * A diagnostic request of several frames sent over the bus is carried out exactly once if all its
    * frames arrive and its length is one they carry, and otherwise leaves the server untouched.
    */
  lemma RequestOverBus<D>(p: DataProvider<D>, framing: Framing, h: seq<Op<Frame>>, request: seq<byte>,
                          labels: seq<Label>, i: nat, g: Gate.Gateway<D>)
    requires Carries(framing, h, [request], labels, i) && i < Can.Attached(h)
    requires ISOTP_SF_MAX < |request| <= ISOTP_MAX_MESSAGE && |request| <= |g.link.buf|
    requires g.link.receiving ==> ReceivedFromStart(h, labels, i)
    ensures Gate.Run(p, g, Gate.Payloads(Can.ReceivedBy(h, i))).endpoint ==
            if framing.Carries(|request|) && AllArrived(h, labels, i, 0, |request|)
            then Serve(p, g.endpoint, request) else g.endpoint
  {
    hide Framing.Carries, Framing.Arrivals, AllArrived;
    OneMessageOverBus(framing, h, request, labels, i, g.link);
    Gate.FramesServe(p, g, Can.ReceivedBy(h, i));
    Gate.ServeOne(p, g.endpoint, request);
    assert Tp.Repeat(request, 1) == Tp.Repeat(request, 0) + [request] == [request];
  }
}
