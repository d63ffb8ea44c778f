/** The STOMP client object: it sends frames over a WebSocket, dispatches the
    frames it receives to its streams, keeps the subscription registry and the
    id counter, and runs the heart-beat timers. The socket is the list of
    messages handed to it and a flag saying whether the client closed it; the
    socket's events and the timers' ticks are methods called from outside. */
module Client {
  import opened Wrappers
  import opened Strings
  import opened StompCommands
  import opened Headers
  import opened Frames
  import opened FrameError
  import opened FrameMessage
  import opened Subscriptions
  import opened Bytes
  import opened Deserializer
  import opened ClientProtocol
  import Serializer

  /** The frame values of a sequence of frame objects, read one by one. */
  lemma {:induction false} ValuesAt(fs: seq<StompFrame>, i: nat)
    requires i < |fs|
    ensures Values(fs)[i] == fs[i].Value()
    decreases |fs|
  {
    if i < |fs| - 1 {
      ValuesAt(fs[..|fs| - 1], i);
      assert fs[..|fs| - 1][i] == fs[i];
    }
  }

  /** Once a frame is refused, the frames after it are not looked at. */
  lemma {:induction false} DispatchFailureSticks(s: ClientState, fs: seq<Frame>, k: nat)
    requires k <= |fs| && Dispatch(s, fs[..k]).error.Some?
    ensures Dispatch(s, fs) == Dispatch(s, fs[..k])
    decreases |fs| - k
  {
    if k < |fs| {
      assert fs[..k + 1][..k] == fs[..k];
      DispatchFailureSticks(s, fs, k + 1);
    } else {
      assert fs[..k] == fs;
    }
  }

  /** `extra.forEach((v, k) => headers.set(k, v))` on a copy of `base`: every
      entry of `extra` set in turn, so its values win over `base`'s. */
  method Overlay(base: HeaderMap, extra: HeaderMap) returns (headers: HeaderMap)
    ensures headers == SetAll(base, extra)
    ensures ToMap(headers) == ToMap(base) + ToMap(extra)
  {
    headers := base;
    var i := 0;
    while i < |extra|
      invariant 0 <= i <= |extra|
      invariant headers == SetAll(base, extra[..i])
    {
      assert extra[..i + 1] == extra[..i] + [extra[i]];
      SetAllSnoc(base, extra[..i], extra[i]);
      headers := Set(headers, extra[i].0, extra[i].1);
      i := i + 1;
    }
    assert extra[..i] == extra;
    SetAllOverlay(base, extra);
  }

  /** One more frame of `fs` handled after its first `i` were dispatched
      without error: a refusal ends the whole dispatch, anything else extends
      it by one frame. */
  lemma DispatchNext(s: ClientState, fs: seq<Frame>, i: nat, before: ClientState, after: Outcome)
    requires i < |fs| && Dispatch(s, fs[..i]) == Outcome(before, None)
    requires after == Handle(before, fs[i])
    ensures after.error.None? ==> Dispatch(s, fs[..i + 1]) == after
    ensures after.error.Some? ==> Dispatch(s, fs) == after
  {
    assert fs[..i + 1][..i] == fs[..i];
    if after.error.Some? {
      DispatchFailureSticks(s, fs, i + 1);
    }
  }

  class StompClient {
    /** The URL of the socket. */
    const url: string
    var counter: nat
    var connected: bool
    var serverActivity: int
    var pinger: Option<int>
    var ponger: Option<int>
    var subscriptions: map<string, MessageSubscription>
    var connects: seq<Frame>
    var messages: seq<Frame>
    var receipts: seq<Frame>
    var errors: seq<Frame>
    var sent: seq<string>
    var closed: bool
    var listening: bool
    var closeHandler: bool
    var connectHeaders: HeaderMap

    /** The client's state as a value. */
    function State(): ClientState
      reads this
    {
      ClientState(counter, connected, serverActivity, pinger, ponger, subscriptions,
                  Streams(connects, messages, receipts, errors), sent, closed,
                  listening, closeHandler, connectHeaders)
    }

    /** `new StompClient(ws)`: nothing sent, nothing received, no handlers. */
    constructor (url: string)
      ensures this.url == url && State() == Initial
    {
      this.url := url;
      counter, connected, serverActivity := 0, false, 0;
      pinger, ponger := None, None;
      subscriptions := map[];
      connects, messages, receipts, errors := [], [], [], [];
      sent, closed := [], false;
      listening, closeHandler, connectHeaders := false, false, [];
    }

    /** `connect`: fills in the config's headers and attaches the socket's
        handlers, which the open handler's CONNECT frame and the message
        handler then use. Returns the config's headers as left. */
    method Connect(config: Option<Config>) returns (used: HeaderMap)
      modifies this
      ensures used == ConnectHeaders(config)
      ensures State() == old(State()).(listening := true, closeHandler := true, connectHeaders := used)
    {
      used := ConnectHeaders(config);
      listening, closeHandler, connectHeaders := true, true, used;
    }

    /** The socket's open handler: sends CONNECT with the default headers
        overlaid, one by one, by the config's. */
    method OnOpen()
      modifies this
      ensures old(listening) ==>
        State() == old(State()).(sent := old(sent) + Outgoing(CONNECT, OpenHeaders(old(connectHeaders)), None))
      ensures !old(listening) ==> State() == old(State())
    {
      if !listening {
        return;
      }
      var headers := Overlay(DefaultConnectHeaders, connectHeaders);
      var err := Transmit(CONNECT, headers, None);
    }

    /** The socket's message handler. */
    method OnMessage(payload: Payload, now: int) returns (err: Option<StompError>)
      modifies this
      ensures Outcome(State(), err) == Received(old(State()), payload, now)
    {
      if !listening {
        return None;
      }
      var r := DeserializeMessage(payload);
      if r.Failure? {
        return Some(r.error);
      }
      ReceivedParsed(old(State()), payload, now, Deserialize(payload).value);
      err := Process(r.value.frames, now);
    }

    /** What the message handler does with the frames of a payload it could
        read: notes the time of the server activity, then handles each frame. */
    method Process(frames: seq<StompFrame>, now: int) returns (err: Option<StompError>)
      modifies this
      ensures Outcome(State(), err) == Dispatch(old(State()).(serverActivity := now), old(Values(frames)))
    {
      serverActivity := now;
      err := HandleFrames(frames);
    }

    /** `frames.forEach(f => this.handleFrame(f))`. */
    method HandleFrames(frames: seq<StompFrame>) returns (err: Option<StompError>)
      modifies this
      ensures Outcome(State(), err) == Dispatch(old(State()), Values(frames))
    {
      ghost var spec := Values(frames);
      ghost var s0 := State();
      err := None;
      var i := 0;
      while i < |frames|
        invariant 0 <= i <= |frames|
        invariant Values(frames) == spec
        invariant Dispatch(s0, spec[..i]) == Outcome(State(), None)
        invariant err.None?
      {
        ValuesAt(frames, i);
        ghost var before := State();
        err := HandleFrame(frames[i]);
        DispatchNext(s0, spec, i, before, Outcome(State(), err));
        if err.Some? {
          return;
        }
        i := i + 1;
      }
      assert spec[..i] == spec;
    }

    /** `handleFrame`. */
    method HandleFrame(frame: StompFrame) returns (err: Option<StompError>)
      modifies this
      ensures Outcome(State(), err) == Handle(old(State()), frame.Value())
    {
      var command := frame.command;
      if !Handled(command) {
        return Some(Refusal(command));
      }
      var f := frame.Value();
      err := None;
      if command == CONNECTED {
        OnConnected(frame);
      } else if command == MESSAGE {
        var m := NewMessageFrame(frame);
        messages := messages + [m.Value()];
      } else if command == RECEIPT {
        receipts := receipts + [f];
      } else {
        var e := NewErrorFrame(None, Some(frame));
        errors := errors + [e.Value()];
      }
    }

    /** The CONNECTED case of `handleFrame`. */
    method OnConnected(frame: StompFrame)
      requires frame.command == CONNECTED
      modifies this
      ensures Outcome(State(), None) == Handle(old(State()), frame.Value())
    {
      connected := true;
      SetupHeartbeat(frame);
      connects := connects + [frame.Value()];
    }

    /** `setupHeartbeat`. */
    method SetupHeartbeat(frame: StompFrame)
      modifies this
      ensures var t := Timers(frame.Value(), old(pinger), old(ponger));
        State() == old(State()).(pinger := t.0, ponger := t.1)
    {
      var version := frame.GetHeader("version");
      if version.None? || version.value == V1_0 {
        TimersNeedVersionAndBeat(frame.Value(), pinger, ponger);
        return;
      }
      var beat := frame.GetHeader("heart-beat");
      if beat.None? {
        TimersNeedVersionAndBeat(frame.Value(), pinger, ponger);
      } else {
        var fields := Split(beat.value, ",");
        var serverIncoming := HeartbeatField(fields, 0);
        var serverOutgoing := HeartbeatField(fields, 1);
        pinger := Armed(HeartbeatOutgoing, serverOutgoing, pinger);
        ponger := Armed(HeartbeatIncoming, serverIncoming, ponger);
      }
    }

    /** A tick of the outgoing timer: sends a heart-beat line feed. */
    method PingTick()
      modifies this
      ensures old(pinger).Some? ==> State() == old(State()).(sent := old(sent) + [[LF]])
      ensures old(pinger).None? ==> State() == old(State())
    {
      if pinger.Some? {
        sent := sent + [[LF]];
      }
    }

    /** A tick of the watchdog: closes the socket when the server has been
        silent for too long. */
    method WatchdogTick(now: int)
      modifies this
      ensures State() == old(State()).(closed := old(closed) || Stale(old(State()), now))
    {
      if ponger.Some? && now - serverActivity > 2 * ponger.value {
        closed := true;
      }
    }

    /** The socket's close handler: unless `disconnect` detached it, cleans up
        and reports the lost connection. */
    method OnClose()
      modifies this
      ensures old(closeHandler) ==>
        State() == old(State()).(connected := false, pinger := None, ponger := None,
                                 streams := old(State()).streams.(errors := old(errors) + [LostConnection(url)]))
      ensures !old(closeHandler) ==> State() == old(State())
    {
      if closeHandler {
        var message := "WS: Lost connection to " + url;
        Cleanup();
        errors := errors + [ErrorFrameOf(Some(message), None)];
      }
    }

    /** `cleanup`: not connected, both timers stopped. */
    method Cleanup()
      modifies this
      ensures State() == old(State()).(connected := false, pinger := None, ponger := None)
    {
      connected := false;
      pinger, ponger := None, None;
    }

    /** `disconnect`: sends DISCONNECT, detaches the close handler, closes the
        socket and cleans up; no error is reported. */
    method Disconnect(headers: HeaderMap)
      modifies this
      ensures State() == old(State()).(sent := old(sent) + Outgoing(DISCONNECT, headers, None),
                                       closeHandler := false, closed := true,
                                       connected := false, pinger := None, ponger := None)
    {
      var err := Transmit(DISCONNECT, headers, None);
      closeHandler := false;
      closed := true;
      Cleanup();
    }

    /** `send`: a SEND frame with the destination and the body. */
    method Send(destination: string, body: string)
      modifies this
      ensures State() == old(State()).(sent := old(sent) + Outgoing(SEND, Single("destination", destination), Some(body)))
    {
      var err := Transmit(SEND, Single("destination", destination), Some(body));
    }

    /** `subscribe`: picks the id, registers the subscription under its
        destination and sends SUBSCRIBE. Returns the subscription and the
        caller's header map as the call leaves it. */
    method Subscribe(destination: string, headers: Option<HeaderMap>) returns (sub: MessageSubscription, sentHeaders: HeaderMap)
      modifies this
      ensures var given := if headers.Some? then headers.value else [];
        var issued := NextId(Get(given, "id"), "sub-", old(counter));
        && sub == MessageSubscription(issued.id, destination)
        && sentHeaders == SubscribeHeaders(given, issued.id, destination)
        && State() == old(State()).(counter := issued.counter,
                                    subscriptions := old(subscriptions)[destination := sub],
                                    sent := old(sent) + Outgoing(SUBSCRIBE, sentHeaders, None))
    {
      var given: HeaderMap := if headers.Some? then headers.value else [];
      ghost var s0 := State();
      var subId := IssueId(Get(given, "id"), "sub-");
      ghost var s1 := State();
      sub := MessageSubscription(subId, destination);
      subscriptions := subscriptions[destination := sub];
      assert State() == s1.(subscriptions := s0.subscriptions[destination := sub]);
      sentHeaders := SubscribeHeaders(given, subId, destination);
      var err := Transmit(SUBSCRIBE, sentHeaders, None);
    }

    /** `unsubscribe`: removes the registry key equal to the subscription id
        and sends UNSUBSCRIBE with only that id. */
    method Unsubscribe(sub: MessageSubscription)
      modifies this
      ensures State() == old(State()).(subscriptions := old(subscriptions) - {sub.subscriptionId},
                                       sent := old(sent) + Outgoing(UNSUBSCRIBE, Single("id", sub.subscriptionId), None))
    {
      var headers := Single("id", sub.subscriptionId);
      subscriptions := subscriptions - {sub.subscriptionId};
      var err := Transmit(UNSUBSCRIBE, headers, None);
    }

    /** `abort`: an ABORT frame for the transaction. */
    method Abort(transaction: string)
      modifies this
      ensures State() == old(State()).(sent := old(sent) + Outgoing(ABORT, Single("transaction", transaction), None))
    {
      var err := Transmit(ABORT, Single("transaction", transaction), None);
    }

    /** `begin`: picks the transaction id and sends BEGIN; the handle's
        `commit` and `abort` are `Commit` and `Abort` with its id. */
    method Begin(transaction: Option<string>) returns (tx: Transaction)
      modifies this
      ensures var issued := NextId(transaction, "tx-", old(counter));
        && tx == Transaction(issued.id)
        && State() == old(State()).(counter := issued.counter,
                                    sent := old(sent) + Outgoing(BEGIN, Single("transaction", issued.id), None))
    {
      var txid := IssueId(transaction, "tx-");
      var err := Transmit(BEGIN, Single("transaction", txid), None);
      tx := Transaction(txid);
    }

    /** `commit`: a COMMIT frame for the transaction. */
    method Commit(transaction: string)
      modifies this
      ensures State() == old(State()).(sent := old(sent) + Outgoing(COMMIT, Single("transaction", transaction), None))
    {
      var err := Transmit(COMMIT, Single("transaction", transaction), None);
    }

    /** `ack`: the ACK frame cannot be built, so the call fails and nothing is
        sent. */
    method Ack(id: string, transaction: Option<string>) returns (err: Option<StompError>)
      modifies this
      ensures err == Some(NullCommand)
      ensures State() == old(State())
    {
      err := Transmit(ACK, AckHeaders(id, transaction), None);
    }

    /** `nack`: a NACK frame with the message id and the transaction, if
        any. */
    method Nack(id: string, transaction: Option<string>)
      modifies this
      ensures State() == old(State()).(sent := old(sent) + Outgoing(NACK, AckHeaders(id, transaction), None))
    {
      var err := Transmit(NACK, AckHeaders(id, transaction), None);
    }

    /** `transmit`: builds the frame, serialises it and hands the text to the
        socket in pieces of at most `MaxFrameSize` characters. Fails, sending
        nothing, when the frame cannot be built. */
    method Transmit(command: Command, headers: HeaderMap, body: Option<string>) returns (err: Option<StompError>)
      modifies this
      ensures err.Some? <==> command == ACK
      ensures err.Some? ==> err.value == NullCommand && State() == old(State())
      ensures err.None? ==> State() == old(State()).(sent := old(sent) + Outgoing(command, headers, body))
    {
      var built := StompFrame.Build(command, headers, body);
      if built.Failure? {
        return Some(built.error);
      }
      var out := Serializer.Serialize(built.value);
      SendText(out);
      err := None;
    }

    /** The chunking loop of `transmit`: the text goes to the socket in
        pieces of `MaxFrameSize` characters, the last one shorter. */
    method SendText(text: string)
      modifies this
      ensures State() == old(State()).(sent := old(sent) + Pieces(text))
    {
      var out := text;
      while |out| > MaxFrameSize
        invariant sent + Pieces(out) == old(sent) + Pieces(text)
        invariant State() == old(State()).(sent := sent)
        decreases |out|
      {
        var piece := out[..MaxFrameSize];
        assert Pieces(out) == [piece] + Pieces(out[MaxFrameSize..]);
        assert sent + ([piece] + Pieces(out[MaxFrameSize..])) == (sent + [piece]) + Pieces(out[MaxFrameSize..]);
        sent := sent + [piece];
        out := out[MaxFrameSize..];
      }
      sent := sent + [out];
    }

    /** `given || prefix + this.counter++`: the given id when it is a
        non-empty string, otherwise the next generated one. */
    method IssueId(given: Option<string>, prefix: string) returns (id: string)
      modifies this
      ensures var issued := NextId(given, prefix, old(counter));
        id == issued.id && State() == old(State()).(counter := issued.counter)
    {
      if HasText(given) {
        id := given.value;
      } else {
        id := prefix + NatToString(counter);
        counter := counter + 1;
      }
    }
  }
}
