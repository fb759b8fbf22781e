/** The message bus the services publish to without waiting for an answer:
    notifications for users and requests to delete a stored image. The model
    records what was published, in order. */
module Outbox {
  import opened Entities

  datatype Message = Notify(notification: Notification) | DeleteMedia(imageId: nat)

  class Bus {
    /** Every message published so far, oldest first. */
    var sent: seq<Message>

    constructor ()
      ensures sent == []
    {
      sent := [];
    }

    method Publish(m: Message)
      modifies this
      ensures sent == old(sent) + [m]
    {
      sent := sent + [m];
    }
  }
}
