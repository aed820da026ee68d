/** The `tokio::sync::mpsc` channel between the tasks and the controller,
    seen from the senders: an append-only outbox of the messages it
    accepted, and whether its receiving end still exists. Every sender
    clone refers to the same channel object. */
module Channels {
  import opened Types

  class Channel<V> {
    /** Every message accepted so far, in the order it was sent. */
    var sent: seq<Message<V>>
    /** The receiver has not been dropped. */
    var open: bool

    /** `mpsc::channel(..)`: nothing sent yet, receiver alive. */
    constructor ()
      ensures sent == [] && open
    {
      sent := [];
      open := true;
    }

    /** `Sender::send`: accepted exactly when the receiver is alive, and
        then appended; refused with `ChannelClosed` otherwise. */
    method Send(m: Message<V>) returns (err: Option<Error>)
      modifies this
      ensures open == old(open)
      ensures err == (if old(open) then None else Some(ChannelClosed))
      ensures sent == (if old(open) then old(sent) + [m] else old(sent))
    {
      if open {
        sent := sent + [m];
        err := None;
      } else {
        err := Some(ChannelClosed);
      }
    }
  }
}
