/**
 * The chat transport as the core sees it (IMessageContext): a batch of inbound messages
 * handed in, and a log of the messages it was asked to send.
 */
module Messaging {
  import opened Wrappers
  import opened Models

  /** One inbound update: the message id, the sender's id (`from` may be absent) and the text. */
  datatype Inbound = Inbound(messageId: Long, sender: Option<Int32>, text: string)

  /** One call of SendMessage(text, chatId). */
  datatype Outgoing = Outgoing(text: string, chatId: string)

  class MessageContext {
    /** Every message handed to the transport, in order. */
    var sent: seq<Outgoing>

    constructor ()
      ensures sent == []
    {
      sent := [];
    }

    method SendMessage(text: string, chatId: string)
      modifies this
      ensures sent == old(sent) + [Outgoing(text, chatId)]
    {
      sent := sent + [Outgoing(text, chatId)];
    }
  }
}
