/** A subscription handle: the id and destination the client subscribed with,
    and the stream of MESSAGE frames that belong to it. The stream is a view of
    the client's stream of all received messages, kept to those whose
    `subscription` header is this subscription's id. */
module Subscriptions {
  import opened Wrappers
  import opened Frames
  import opened FrameMessage

  /** `new MessageSubscription(id, destination, messages)`; the two fields are
      the `subscriptionId` and `destination` getters. */
  datatype MessageSubscription = MessageSubscription(subscriptionId: string, destination: string)

  /** What an observer of a message stream sees: the frames delivered, in
      order, and the error that ended the stream, if any. */
  datatype View = View(items: seq<Frame>, failure: Option<StompError>)

  /** The observer's view after one more message arrives on the client's
      stream: a stream that has ended stays ended; a message without a
      `subscription` header makes the filter throw, which ends the stream
      with that error; a matching message is delivered; any other is
      dropped. */
  function Next(v: View, id: string, m: Frame): View
  {
    if v.failure.Some? then v
    else match SubscriptionId(m)
      case Failure(e) => View(v.items, Some(e))
      case Success(s) => if s == id then View(v.items + [m], None) else v
  }

  /** `messages` of a subscription with id `id`, observed over the client's
      stream `log` of received messages. Everything delivered carries the
      subscription's id, and the stream can only end because a message lacked
      its `subscription` header. */
  function Messages(id: string, log: seq<Frame>): (v: View)
    ensures forall i :: 0 <= i < |v.items| ==> SubscriptionId(v.items[i]) == Success(id)
    ensures |v.items| <= |log|
    ensures v.failure.Some? ==> v.failure.value == MissingHeader("subscription")
  {
    if log == [] then View([], None)
    else match SubscriptionId(log[0])
      case Failure(e) => View([], Some(e))
      case Success(s) =>
        var rest := Messages(id, log[1..]);
        if s == id then View([log[0]] + rest.items, rest.failure) else rest
  }

  /** The view is built message by message as they arrive: each new message
      changes it exactly as `Next` says. */
  lemma {:induction false} MessagesSnoc(id: string, log: seq<Frame>, m: Frame)
    ensures Messages(id, log + [m]) == Next(Messages(id, log), id, m)
    decreases |log|
  {
    if log == [] {
      assert [] + [m] == [m];
    } else {
      assert (log + [m])[0] == log[0];
      assert (log + [m])[1..] == log[1..] + [m];
      if SubscriptionId(log[0]).Success? {
        MessagesSnoc(id, log[1..], m);
        var rest := Messages(id, log[1..]);
        if rest.failure.None? && SubscriptionId(m) == Success(id) {
          assert [log[0]] + (rest.items + [m]) == ([log[0]] + rest.items) + [m];
        }
      }
    }
  }

  /** The stream ends with an error exactly when some received message has no
      `subscription` header. */
  lemma {:induction false} MessagesFailIff(id: string, log: seq<Frame>)
    ensures Messages(id, log).failure.Some? <==>
      exists i :: 0 <= i < |log| && SubscriptionId(log[i]).Failure?
    decreases |log|
  {
    if log != [] && SubscriptionId(log[0]).Success? {
      var tail := log[1..];
      MessagesFailIff(id, tail);
      assert Messages(id, log).failure == Messages(id, tail).failure;
      forall i | 0 < i < |log| ensures log[i] == tail[i - 1] { }
      forall i | 0 <= i < |tail| ensures tail[i] == log[i + 1] { }
    }
  }

  /** While every received message carries a `subscription` header, the
      stream delivers exactly the received messages addressed to the
      subscription. */
  lemma {:induction false} MessagesExactly(id: string, log: seq<Frame>, m: Frame)
    requires Messages(id, log).failure.None?
    ensures m in Messages(id, log).items <==> m in log && SubscriptionId(m) == Success(id)
    decreases |log|
  {
    if log != [] {
      assert log == [log[0]] + log[1..];
      MessagesExactly(id, log[1..], m);
    }
  }
}
