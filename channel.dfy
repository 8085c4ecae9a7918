/**
  A `std::sync::mpsc` channel with one sender and one receiver, the only boundary
  between a backend task and the rendering loop. The channel is a FIFO queue plus
  one flag per end saying that end has been dropped; concurrency is reduced to the
  order in which the two ends' calls happen.
*/
module Channels {

  datatype TryRecvResult<T> = Received(value: T) | Empty | Disconnected

  class Channel<T> {
    /** Messages sent and not yet received, oldest first. */
    var queue: seq<T>
    var senderGone: bool
    var receiverGone: bool
    /** How many times `send` has been called, successful or not. */
    ghost var attempts: nat

    constructor ()
      ensures queue == [] && !senderGone && !receiverGone && attempts == 0
    {
      queue, senderGone, receiverGone := [], false, false;
      attempts := 0;
    }

    /** `Sender::send`: fails, delivering nothing, once the receiver is gone. */
    method Send(x: T) returns (ok: bool)
      modifies this
      ensures ok == !receiverGone
      ensures queue == if ok then old(queue) + [x] else old(queue)
      ensures senderGone == old(senderGone) && receiverGone == old(receiverGone)
      ensures attempts == old(attempts) + 1
    {
      ok := !receiverGone;
      if ok {
        queue := queue + [x];
      }
      attempts := attempts + 1;
    }

    /**
      `Receiver::try_recv`: the oldest message if there is one; otherwise Empty while
      the sender lives and Disconnected once it is gone.
    */
    method TryRecv() returns (r: TryRecvResult<T>)
      modifies this
      ensures old(queue) != [] ==> r == Received(old(queue)[0]) && queue == old(queue)[1..]
      ensures old(queue) == [] ==> queue == [] && r == if senderGone then Disconnected else Empty
      ensures senderGone == old(senderGone) && receiverGone == old(receiverGone)
      ensures attempts == old(attempts)
    {
      if queue != [] {
        r := Received(queue[0]);
        queue := queue[1..];
      } else if senderGone {
        r := Disconnected;
      } else {
        r := Empty;
      }
    }

    /** Dropping the sender: the worker finished, successfully or not. */
    method DropSender()
      modifies this
      ensures senderGone && queue == old(queue) && receiverGone == old(receiverGone)
      ensures attempts == old(attempts)
    {
      senderGone := true;
    }

    /** Dropping the receiver discards whatever was still queued. */
    method DropReceiver()
      modifies this
      ensures receiverGone && queue == [] && senderGone == old(senderGone)
      ensures attempts == old(attempts)
    {
      receiverGone := true;
      queue := [];
    }
  }
}
