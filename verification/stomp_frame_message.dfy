/** The inbound message frame: a copy of a received frame with accessors for the
    headers every MESSAGE frame should carry. */
module FrameMessage {
  import opened Wrappers
  import opened Headers
  import opened Frames

  /** `new StompFrameMessage(frame)`: a fresh frame with the command, body and
      headers of `frame`. The command is copied, not forced to MESSAGE. */
  method NewMessageFrame(frame: StompFrame) returns (m: StompFrame)
    ensures fresh(m)
    ensures m.Value() == frame.Value()
  {
    m := new StompFrame(frame.command, frame.body, frame.headers);
  }

  /** `messageId`: the `message-id` header, failing when it is absent or empty. */
  function MessageId(m: Frame): (r: Result<string, StompError>)
    ensures r.Success? <==> "message-id" in ToMap(m.headers) && ToMap(m.headers)["message-id"] != ""
    ensures r.Success? ==> r.value == ToMap(m.headers)["message-id"]
    ensures r.Failure? ==> r.error == MissingHeader("message-id")
  {
    m.GetRequiredHeader("message-id")
  }

  /** `destination`: the `destination` header, failing when it is absent or
      empty. */
  function Destination(m: Frame): (r: Result<string, StompError>)
    ensures r.Success? <==> "destination" in ToMap(m.headers) && ToMap(m.headers)["destination"] != ""
    ensures r.Success? ==> r.value == ToMap(m.headers)["destination"]
    ensures r.Failure? ==> r.error == MissingHeader("destination")
  {
    m.GetRequiredHeader("destination")
  }

  /** `subscriptionId`: the `subscription` header, failing when it is absent or
      empty. */
  function SubscriptionId(m: Frame): (r: Result<string, StompError>)
    ensures r.Success? <==> "subscription" in ToMap(m.headers) && ToMap(m.headers)["subscription"] != ""
    ensures r.Success? ==> r.value == ToMap(m.headers)["subscription"]
    ensures r.Failure? ==> r.error == MissingHeader("subscription")
  {
    m.GetRequiredHeader("subscription")
  }
}
