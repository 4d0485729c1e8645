/**
 * The sending half of the unbounded channel the decoder writes to. `queue` is
 * every value the channel has accepted, in order; `receiverAlive` is false
 * once the receiving half has been dropped, after which every send fails and
 * the value is discarded.
 */
module Channel {
  class Sender<E> {
    var queue: seq<E>
    var receiverAlive: bool

    /** A fresh channel: nothing sent, receiver held by the caller. */
    constructor ()
      ensures queue == [] && receiverAlive
    {
      queue := [];
      receiverAlive := true;
    }

    /** `tx.send(x)`: an unbounded channel never blocks; it fails only when the receiver is gone. */
    method Send(x: E) returns (delivered: bool)
      modifies this
      ensures delivered == old(receiverAlive) && receiverAlive == old(receiverAlive)
      ensures queue == if delivered then old(queue) + [x] else old(queue)
    {
      delivered := receiverAlive;
      if delivered {
        queue := queue + [x];
      }
    }

    /** The consumer drops its receiver: nothing already accepted changes, later sends fail. */
    method DropReceiver()
      modifies this
      ensures !receiverAlive && queue == old(queue)
    {
      receiverAlive := false;
    }
  }
}
