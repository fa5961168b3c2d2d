/** The simulated broadcast bus: bounded receive queues that drop the newest frame when full. */
module SimCan {
  import opened Bytes

  const SIM_RX_QUEUE_LEN := 16

  datatype BusError = BusOff | RxQueueEmpty

  // ---------------------------------------------------------------------------
  // The bus as a value
  // ---------------------------------------------------------------------------

  datatype Bus<F> = Bus(queues: seq<seq<F>>, off: bool)

  function Offer<F>(q: seq<F>, frame: F): seq<F> {
    if |q| < SIM_RX_QUEUE_LEN then q + [frame] else q
  }

  /** `frame` offered to every queue but the sender's. */
  function Broadcast<F>(queues: seq<seq<F>>, sender: nat, frame: F): (r: seq<seq<F>>)
    ensures |r| == |queues|
    ensures forall i :: 0 <= i < |queues| ==>
              r[i] == if i == sender then queues[i] else Offer(queues[i], frame)
  {
    seq(|queues|, i requires 0 <= i < |queues| => if i == sender then queues[i] else Offer(queues[i], frame))
  }

  // ---------------------------------------------------------------------------
  // The bus as shared, mutable objects
  // ---------------------------------------------------------------------------

  /** A node's receive queue, shared by the node and the network. */
  class RxQueue<F> {
    var frames: seq<F>

    constructor ()
      ensures frames == []
    {
      frames := [];
    }
  }

  ghost function Contents<F>(nodes: seq<RxQueue<F>>): (r: seq<seq<F>>)
    reads nodes
    ensures |r| == |nodes|
    ensures forall i :: 0 <= i < |nodes| ==> r[i] == nodes[i].frames
  {
    if nodes == [] then [] else Contents(nodes[..|nodes| - 1]) + [nodes[|nodes| - 1].frames]
  }

  class SimCanNetwork<F> {
    var nodes: seq<RxQueue<F>>
    var busOff: bool

    /** No queue is attached twice. */
    ghost predicate Valid()
      reads this
    {
      forall i, j :: 0 <= i < j < |nodes| ==> nodes[i] != nodes[j]
    }

    ghost function View(): Bus<F>
      reads this, nodes
    {
      Bus(Contents(nodes), busOff)
    }

    constructor ()
      ensures Valid() && View() == Bus([], false)
    {
      nodes, busOff := [], false;
    }

    method SetBusOff(off: bool)
      requires Valid()
      modifies this`busOff
      ensures Valid() && View() == Apply(old(View()), Op.SetBusOff(off))
    {
      busOff := off;
    }

    method Node() returns (n: SimCanNode<F>)
      requires Valid()
      modifies this`nodes
      ensures fresh(n) && fresh(n.queue) && n.network == this
      ensures Valid() && nodes == old(nodes) + [n.queue]
      ensures View() == Apply(old(View()), Op.Attach)
    {
      var queue := new RxQueue<F>();
      nodes := nodes + [queue];
      n := new SimCanNode<F>(this, queue);
      assert View().queues == old(View()).queues + [[]];
    }

    method BroadcastFrame(frame: F, sender: RxQueue<F>, ghost k: nat)
      requires Valid() && k < |nodes| && nodes[k] == sender
      modifies nodes
      ensures Valid() && nodes == old(nodes) && busOff == old(busOff)
      ensures View() == if busOff then old(View())
                        else old(View()).(queues := Broadcast(old(View()).queues, k, frame))
    {
      if busOff {
        return;
      }
      for i := 0 to |nodes|
        invariant nodes == old(nodes) && busOff == old(busOff)
        invariant forall j :: 0 <= j < i ==>
                    nodes[j].frames == if j == k then old(nodes[j].frames) else Offer(old(nodes[j].frames), frame)
        invariant forall j :: i <= j < |nodes| ==> nodes[j].frames == old(nodes[j].frames)
      {
        var q := nodes[i];
        if q != sender {
          if |q.frames| < SIM_RX_QUEUE_LEN {
            q.frames := q.frames + [frame];
          }
        }
      }
      assert View().queues == Broadcast(old(View()).queues, k, frame);
    }
  }

  class SimCanNode<F> {
    const network: SimCanNetwork<F>
    const queue: RxQueue<F>

    /** This node is the `k`th one attached to a well-formed network. */
    ghost predicate IsNode(k: nat)
      reads network
    {
      network.Valid() && k < |network.nodes| && network.nodes[k] == queue
    }

    constructor (network: SimCanNetwork<F>, queue: RxQueue<F>)
      ensures this.network == network && this.queue == queue
    {
      this.network, this.queue := network, queue;
    }

    method Send(frame: F, ghost k: nat) returns (r: Result<(), BusError>)
      requires IsNode(k)
      modifies network.nodes
      ensures IsNode(k) && r == if old(network.View()).off then Err(BusOff) else Ok(())
      ensures network.View() == Apply(old(network.View()), Op.Send(k, frame))
    {
      if network.busOff {
        return Err(BusOff);
      }
      network.BroadcastFrame(frame, queue, k);
      r := Ok(());
    }

    method Recv(ghost k: nat) returns (r: Result<F, BusError>)
      requires IsNode(k)
      modifies queue
      ensures IsNode(k) && r == Received(old(network.View()).queues[k])
      ensures network.View() == Apply(old(network.View()), Op.Recv(k))
    {
      if queue.frames == [] {
        return Err(RxQueueEmpty);
      }
      var frame := queue.frames[0];
      queue.frames := queue.frames[1..];
      assert network.View().queues == old(network.View()).queues[k := queue.frames];
      r := Ok(frame);
    }

    method HasReceived(ghost k: nat) returns (b: bool)
      requires IsNode(k)
      ensures b <==> network.View().queues[k] != []
    {
      b := queue.frames != [];
    }

    method CanSend() returns (b: bool)
      ensures b <==> !network.busOff
    {
      b := !network.busOff;
    }
  }

  // ---------------------------------------------------------------------------
  // Operations on the bus
  // ---------------------------------------------------------------------------

  datatype Op<F> = Attach | Send(node: nat, frame: F) | Recv(node: nat) | SetBusOff(value: bool)

  function Received<F>(queue: seq<F>): Result<F, BusError> {
    if queue == [] then Err(RxQueueEmpty) else Ok(queue[0])
  }

  /** The effect of one operation; a node that is not attached has no endpoint, so its operations do nothing. */
  function Apply<F>(b: Bus<F>, op: Op<F>): Bus<F> {
    match op
    case Attach => b.(queues := b.queues + [[]])
    case Send(s, frame) => if b.off || s >= |b.queues| then b else b.(queues := Broadcast(b.queues, s, frame))
    case Recv(i) => if i >= |b.queues| || b.queues[i] == [] then b else b.(queues := b.queues[i := b.queues[i][1..]])
    case SetBusOff(value) => b.(off := value)
  }
}
