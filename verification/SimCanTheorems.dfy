/** Bounded, in-order, totally ordered broadcast over every interleaving of operations. */
module SimCanTheorems {
  import opened Bytes
  import opened SimCan

  /** The bus after the operations of `h` on a new network. */
  function Run<F>(h: seq<Op<F>>): Bus<F> {
    if h == [] then Bus([], false) else Apply(Run(h[..|h| - 1]), h[|h| - 1])
  }

  /** How many nodes `h` attaches. */
  function Attached<F>(h: seq<Op<F>>): nat {
    if h == [] then 0 else Attached(h[..|h| - 1]) + if h[|h| - 1].Attach? then 1 else 0
  }

  /** The bus-off setting that `h` leaves. */
  function Off<F>(h: seq<Op<F>>): bool {
    h != [] && if h[|h| - 1].SetBusOff? then h[|h| - 1].value else Off(h[..|h| - 1])
  }

  /** Operation `k` puts a frame on the wire for node `i`: another node sends, the bus is on, `i` is attached. */
  predicate OffersTo<F>(h: seq<Op<F>>, k: nat, i: nat) {
    && k < |h| && h[k].Send? && h[k].node != i
    && h[k].node < Attached(h[..k]) && i < Attached(h[..k]) && !Off(h[..k])
  }

  /** Node `i` has room at operation `k`. */
  predicate Room<F>(h: seq<Op<F>>, k: nat, i: nat) {
    k <= |h| && i < |Run(h[..k]).queues| && |Run(h[..k]).queues[i]| < 16
  }

  /** The operations that offer node `i` a frame for which it has room, in order. */
  function Accepted<F>(h: seq<Op<F>>, i: nat): seq<nat> {
    if h == [] then []
    else
      var n := |h| - 1;
      Accepted(h[..n], i) + if OffersTo(h, n, i) && Room(h, n, i) then [n] else []
  }

  /** The operations that offer node `i` a frame for which it has no room, in order. */
  function Dropped<F>(h: seq<Op<F>>, i: nat): seq<nat> {
    if h == [] then []
    else
      var n := |h| - 1;
      Dropped(h[..n], i) + if OffersTo(h, n, i) && !Room(h, n, i) then [n] else []
  }

  /** The number of operations that offer node `i` a frame. */
  function Offers<F>(h: seq<Op<F>>, i: nat): nat {
    if h == [] then 0 else Offers(h[..|h| - 1], i) + if OffersTo(h, |h| - 1, i) then 1 else 0
  }

  /** What a call of `recv` by node `i` hands over: the frame it returns, if it returns one. */
  function Handed<F>(b: Bus<F>, i: nat): seq<F>
    requires i < |b.queues|
  {
    match Received(b.queues[i])
    case Ok(frame) => [frame]
    case Err(_) => []
  }

  /** What node `i` was handed by its calls of `recv`, in order. */
  function ReceivedBy<F>(h: seq<Op<F>>, i: nat): seq<F> {
    if h == [] then []
    else
      var n := |h| - 1;
      ReceivedBy(h[..n], i) + if h[n] == Recv(i) && i < |Run(h[..n]).queues| then Handed(Run(h[..n]), i) else []
  }

  predicate AllSends<F>(h: seq<Op<F>>, ks: seq<nat>) {
    forall m :: 0 <= m < |ks| ==> ks[m] < |h| && h[ks[m]].Send?
  }

  /** The frames that the operations `ks` of `h` send. */
  function FramesOf<F>(h: seq<Op<F>>, ks: seq<nat>): (fs: seq<F>)
    requires AllSends(h, ks)
    ensures |fs| == |ks|
    ensures forall m :: 0 <= m < |ks| ==> fs[m] == h[ks[m]].frame
  {
    seq(|ks|, m requires 0 <= m < |ks| => h[ks[m]].frame)
  }

  predicate Increasing(ks: seq<nat>) {
    forall m, n :: 0 <= m < n < |ks| ==> ks[m] < ks[n]
  }

  lemma {:induction false} StateOfRun<F>(h: seq<Op<F>>)
    ensures |Run(h).queues| == Attached(h) && Run(h).off == Off(h)
    ensures forall i :: 0 <= i < |Run(h).queues| ==> |Run(h).queues[i]| <= 16
    decreases |h|
  {
    if h != [] {
      StateOfRun(h[..|h| - 1]);
    }
  }

  /** Offers and room depend only on what came before. */
  lemma PrefixStable<F>(h: seq<Op<F>>, n: nat, k: nat, i: nat)
    requires k < n <= |h|
    ensures OffersTo(h[..n], k, i) == OffersTo(h, k, i) && Room(h[..n], k, i) == Room(h, k, i)
  {
    assert h[..n][..k] == h[..k];
  }

  /** Accepted and dropped operations are exactly the offers, told apart by whether the queue was full. */
  lemma {:induction false} AcceptedExactly<F>(h: seq<Op<F>>, i: nat)
    ensures forall k: nat :: k in Accepted(h, i) <==> OffersTo(h, k, i) && Room(h, k, i)
    ensures Increasing(Accepted(h, i))
    decreases |h|
  {
    if h != [] {
      var n := |h| - 1;
      AcceptedExactly(h[..n], i);
      forall k: nat
        ensures k in Accepted(h, i) <==> OffersTo(h, k, i) && Room(h, k, i)
      {
        assert k in Accepted(h, i) <==> k in Accepted(h[..n], i) || (k == n && OffersTo(h, n, i) && Room(h, n, i));
        if k < n { PrefixStable(h, n, k, i); }
      }
      assert forall m :: 0 <= m < |Accepted(h[..n], i)| ==> Accepted(h[..n], i)[m] in Accepted(h[..n], i);
    }
  }

  lemma {:induction false} DroppedExactly<F>(h: seq<Op<F>>, i: nat)
    ensures forall k: nat :: k in Dropped(h, i) <==> OffersTo(h, k, i) && !Room(h, k, i)
    ensures |Accepted(h, i)| + |Dropped(h, i)| == Offers(h, i)
    decreases |h|
  {
    if h != [] {
      var n := |h| - 1;
      DroppedExactly(h[..n], i);
      forall k: nat
        ensures k in Dropped(h, i) <==> OffersTo(h, k, i) && !Room(h, k, i)
      {
        assert k in Dropped(h, i) <==> k in Dropped(h[..n], i) || (k == n && OffersTo(h, n, i) && !Room(h, n, i));
        if k < n { PrefixStable(h, n, k, i); }
      }
    }
  }

  /** Accepted operations are sends. */
  lemma AcceptedAreSends<F>(h: seq<Op<F>>, i: nat)
    ensures AllSends(h, Accepted(h, i))
  {
    AcceptedExactly(h, i);
    forall m | 0 <= m < |Accepted(h, i)|
      ensures Accepted(h, i)[m] < |h| && h[Accepted(h, i)[m]].Send?
    {
      assert Accepted(h, i)[m] in Accepted(h, i);
    }
  }

  /** What node `i` has received, followed by what waits in its queue, is what it accepted. */
  lemma {:induction false} FifoDelivery<F>(h: seq<Op<F>>, i: nat)
    requires i < Attached(h)
    ensures |Run(h).queues| == Attached(h)
    ensures AllSends(h, Accepted(h, i))
    ensures ReceivedBy(h, i) + Run(h).queues[i] == FramesOf(h, Accepted(h, i))
    decreases |h|
  {
    StateOfRun(h);
    AcceptedAreSends(h, i);
    var n := |h| - 1;
    var pre := h[..n];
    StateOfRun(pre);
    if i < Attached(pre) {
      FifoDelivery(pre, i);
      QueueStep(Run(pre), h[n], i);
      AcceptedStep(h, i);
      Regroup(ReceivedBy(pre, i), Taken(Run(pre), h[n], i), Run(h).queues[i],
              Run(pre).queues[i], Added(Run(pre), h[n], i));
    } else {
      NothingBeforeAttach(pre, i);
    }
  }

  lemma Regroup<F>(received: seq<F>, taken: seq<F>, now: seq<F>, was: seq<F>, added: seq<F>)
    requires taken + now == was + added
    ensures (received + taken) + now == (received + was) + added
  {
    assert (received + taken) + now == received + (taken + now);
    assert (received + was) + added == received + (was + added);
  }

  /** The frame that `op` hands to node `i`, if any. */
  function Taken<F>(b: Bus<F>, op: Op<F>, i: nat): seq<F>
    requires i < |b.queues|
  {
    if op == Recv(i) then Handed(b, i) else []
  }

  /** The frame that `op` puts into the queue of node `i`, if any. */
  function Added<F>(b: Bus<F>, op: Op<F>, i: nat): seq<F>
    requires i < |b.queues|
  {
    if op.Send? && op.node != i && op.node < |b.queues| && !b.off && |b.queues[i]| < 16
    then [op.frame] else []
  }

  lemma QueueStep<F>(b: Bus<F>, op: Op<F>, i: nat)
    requires i < |b.queues|
    ensures i < |Apply(b, op).queues|
    ensures Taken(b, op, i) + Apply(b, op).queues[i] == b.queues[i] + Added(b, op, i)
  {
    var q := b.queues[i];
    assert q + [] == q && [] + q == q;
    if op == Recv(i) && q != [] {
      assert [q[0]] + q[1..] == q;
    }
  }

  lemma AcceptedStep<F>(h: seq<Op<F>>, i: nat)
    requires h != [] && i < |Run(h[..|h| - 1]).queues|
    requires |Run(h[..|h| - 1]).queues| == Attached(h[..|h| - 1]) && Run(h[..|h| - 1]).off == Off(h[..|h| - 1])
    ensures AllSends(h[..|h| - 1], Accepted(h[..|h| - 1], i)) && AllSends(h, Accepted(h, i))
    ensures FramesOf(h, Accepted(h, i)) ==
            FramesOf(h[..|h| - 1], Accepted(h[..|h| - 1], i)) + Added(Run(h[..|h| - 1]), h[|h| - 1], i)
  {
    var n := |h| - 1;
    AcceptedAreSends(h, i);
    AcceptedAreSends(h[..n], i);
    var ks := Accepted(h[..n], i);
    assert FramesOf(h, ks) == FramesOf(h[..n], ks);
  }

  /** A node has no history before it is attached. */
  lemma {:induction false} NothingBeforeAttach<F>(h: seq<Op<F>>, i: nat)
    requires i >= Attached(h)
    ensures Accepted(h, i) == [] && Dropped(h, i) == [] && ReceivedBy(h, i) == []
    decreases |h|
  {
    if h != [] {
      NothingBeforeAttach(h[..|h| - 1], i);
      StateOfRun(h[..|h| - 1]);
    }
  }

  /**
    * After any history, `recv` returns the oldest frame that the node accepted and has not been handed, and
    * it fails exactly when the node has been handed every frame that it accepted.
    */
  lemma RecvExactly<F>(h: seq<Op<F>>, i: nat)
    requires i < Attached(h)
    ensures |Run(h).queues| == Attached(h) && AllSends(h, Accepted(h, i)) && |ReceivedBy(h, i)| <= |Accepted(h, i)|
    ensures var handed, accepted := |ReceivedBy(h, i)|, Accepted(h, i);
            Received(Run(h).queues[i]) ==
            if handed < |accepted| then Ok(h[accepted[handed]].frame) else Err(RxQueueEmpty)
  {
    FifoDelivery(h, i);
    var received, queue := ReceivedBy(h, i), Run(h).queues[i];
    assert |received + queue| == |Accepted(h, i)|;
    if queue != [] {
      assert (received + queue)[|received|] == queue[0];
    }
  }

  /** Node `i` has not called `recv`. */
  ghost predicate NeverDrained<F>(h: seq<Op<F>>, i: nat) {
    forall k :: 0 <= k < |h| ==> h[k] != Recv(i)
  }

  /** A node that does not drain its queue keeps the first 16 frames that it is offered and drops all later ones. */
  lemma {:induction false} UndrainedKeepsFirst<F>(h: seq<Op<F>>, i: nat)
    requires NeverDrained(h, i)
    ensures ReceivedBy(h, i) == [] && |Accepted(h, i)| == if Offers(h, i) <= 16 then Offers(h, i) else 16
    ensures forall k, m :: k in Accepted(h, i) && m in Dropped(h, i) ==> k < m
    decreases |h|
  {
    if h != [] {
      var n := |h| - 1;
      var pre := h[..n];
      assert NeverDrained(pre, i);
      UndrainedKeepsFirst(pre, i);
      StateOfRun(pre);
      AcceptedExactly(pre, i);
      DroppedExactly(pre, i);
      if i < Attached(pre) {
        FifoDelivery(pre, i);
        assert |ReceivedBy(pre, i) + Run(pre).queues[i]| == |Accepted(pre, i)|;
      }
    }
  }

  /** What node `i` sees: the frames handed to it, and then those that wait in its queue. */
  function Seen<F>(h: seq<Op<F>>, i: nat): seq<F> {
    if i < |Run(h).queues| then ReceivedBy(h, i) + Run(h).queues[i] else []
  }

  /** Every frame that a node sees was sent by one accepted operation of its own. */
  lemma SeenAreSent<F>(h: seq<Op<F>>, i: nat)
    ensures |Seen(h, i)| == |Accepted(h, i)| && Increasing(Accepted(h, i))
    ensures forall a :: 0 <= a < |Seen(h, i)| ==>
              Accepted(h, i)[a] < |h| && h[Accepted(h, i)[a]].Send? && Seen(h, i)[a] == h[Accepted(h, i)[a]].frame
  {
    StateOfRun(h);
    AcceptedExactly(h, i);
    if i < Attached(h) {
      FifoDelivery(h, i);
    } else {
      NothingBeforeAttach(h, i);
    }
  }

  /** Place `a` of what node `i` sees and place `b` of what node `j` sees come from one and the same send. */
  predicate SameSend<F>(h: seq<Op<F>>, i: nat, a: nat, j: nat, b: nat) {
    a < |Accepted(h, i)| && b < |Accepted(h, j)| && Accepted(h, i)[a] == Accepted(h, j)[b]
  }

  /** Any two nodes see the frames of the sends that reach both of them, and see them in the same order. */
  lemma TotalOrder<F>(h: seq<Op<F>>, i: nat, j: nat, a: nat, b: nat, a': nat, b': nat)
    requires SameSend(h, i, a, j, a') && SameSend(h, i, b, j, b')
    ensures a < |Seen(h, i)| && b < |Seen(h, i)| && a' < |Seen(h, j)| && b' < |Seen(h, j)|
    ensures Seen(h, i)[a] == Seen(h, j)[a'] && Seen(h, i)[b] == Seen(h, j)[b']
    ensures a < b <==> a' < b'
  {
    SameFrame(h, i, a, j, a');
    SameFrame(h, i, b, j, b');
    SeenAreSent(h, i);
    SeenAreSent(h, j);
    SameOrder(Accepted(h, i), Accepted(h, j), a, b, a', b');
  }

  lemma SameFrame<F>(h: seq<Op<F>>, i: nat, a: nat, j: nat, b: nat)
    requires SameSend(h, i, a, j, b)
    ensures a < |Seen(h, i)| && b < |Seen(h, j)| && Seen(h, i)[a] == Seen(h, j)[b]
  {
    SeenAreSent(h, i);
    SeenAreSent(h, j);
  }

  lemma SameOrder(ks: seq<nat>, ms: seq<nat>, a: nat, b: nat, a': nat, b': nat)
    requires Increasing(ks) && Increasing(ms)
    requires a < |ks| && b < |ks| && a' < |ms| && b' < |ms| && ks[a] == ms[a'] && ks[b] == ms[b']
    ensures a < b <==> a' < b'
  {
  }

  /** No frame is sent twice. */
  ghost predicate SendsDiffer<F>(h: seq<Op<F>>) {
    forall k, m :: 0 <= k < m < |h| && h[k].Send? && h[m].Send? ==> h[k].frame != h[m].frame
  }

  /** So if no frame is sent twice, any two nodes agree on the order of all frames that both of them see. */
  lemma FramesInOneOrder<F>(h: seq<Op<F>>, i: nat, j: nat, a: nat, b: nat, a': nat, b': nat)
    requires SendsDiffer(h)
    requires a < |Seen(h, i)| && b < |Seen(h, i)| && a' < |Seen(h, j)| && b' < |Seen(h, j)|
    requires Seen(h, i)[a] == Seen(h, j)[a'] && Seen(h, i)[b] == Seen(h, j)[b']
    ensures a < b <==> a' < b'
  {
    SeenAreSent(h, i);
    SeenAreSent(h, j);
    var k, k', m, m' := Accepted(h, i)[a], Accepted(h, j)[a'], Accepted(h, i)[b], Accepted(h, j)[b'];
    assert k == k' && m == m';
    TotalOrder(h, i, j, a, b, a', b');
  }
}
