/** The protocol rules of the STOMP client, stated on a snapshot of its state:
    the ids it hands out, the headers of the frames it sends, how an outgoing
    frame is cut into WebSocket messages, how the heart-beat header arms the
    timers, and how received frames are dispatched to the client's streams. */
module ClientProtocol {
  import opened Wrappers
  import opened Strings
  import opened StompCommands
  import opened Headers
  import opened Frames
  import opened FrameError
  import opened Subscriptions
  import opened Deserializer
  import Serializer
  import RoundTrip

  /** The protocol version under which no heart-beating is negotiated. */
  const V1_0: string := "1.0"

  /** The largest WebSocket message the client sends (16 KiB). */
  const MaxFrameSize: nat := 16 * 1024

  /** The client's own heart-beat periods in milliseconds. */
  const HeartbeatOutgoing: int := 10000
  const HeartbeatIncoming: int := 10000

  /** The connection options `connect` takes. */
  datatype Config = Config(headers: Option<HeaderMap>, login: Option<string>, passcode: Option<string>)

  /** The handle `begin` returns; its `commit` and `abort` send COMMIT and
      ABORT with `id`. */
  datatype Transaction = Transaction(id: string)

  /** Everything about the client the protocol reads or changes.
      - `counter` numbers the generated subscription and transaction ids;
      - `pinger` and `ponger` are the periods of the running heart-beat
        timers, `None` when not running;
      - `streams` holds everything pushed to the four streams so far;
      - `sent` is every message handed to the socket, `closed` whether the
        socket was told to close;
      - `listening` and `closeHandler` say whether the socket's message/open
        handlers and its close handler are attached, and `connectHeaders` is
        the header map `connect` left in its config. */
  datatype ClientState = ClientState(
    counter: nat,
    connected: bool,
    serverActivity: int,
    pinger: Option<int>,
    ponger: Option<int>,
    subscriptions: map<string, MessageSubscription>,
    streams: Streams,
    sent: seq<string>,
    closed: bool,
    listening: bool,
    closeHandler: bool,
    connectHeaders: HeaderMap)

  /** Everything pushed so far to the client's `onConnect`, `messages`,
      `receipts` and `errors` streams. */
  datatype Streams = Streams(connects: seq<Frame>, messages: seq<Frame>, receipts: seq<Frame>, errors: seq<Frame>)

  /** The state of a newly constructed client. */
  const Initial: ClientState :=
    ClientState(0, false, 0, None, None, map[], Streams([], [], [], []), [], false, false, false, [])

  // ---------------------------------------------------------------------------
  // Generated ids
  // ---------------------------------------------------------------------------

  /** An id and the counter after choosing it. */
  datatype Issued = Issued(id: string, counter: nat)

  /** `given || prefix + counter++`: a non-empty given id is used and the
      counter kept; otherwise the id is generated from the counter, which then
      advances by one. */
  function NextId(given: Option<string>, prefix: string, counter: nat): (r: Issued)
    ensures HasText(given) ==> r == Issued(given.value, counter)
    ensures !HasText(given) ==> r.counter == counter + 1 && StartsWith(r.id, prefix)
    ensures !HasText(given) ==> DecimalValue(r.id[|prefix|..]) == counter
  {
    if HasText(given) then Issued(given.value, counter)
    else
      var id := prefix + NatToString(counter);
      assert id[..|prefix|] == prefix && id[|prefix|..] == NatToString(counter);
      DecimalRoundTrip(counter);
      Issued(id, counter + 1)
  }

  /** Generated ids never repeat: two ids generated with the prefixes `sub-`
      and `tx-` differ unless they come from the same prefix and counter value,
      and the counter only grows. */
  lemma GeneratedIdsDistinct(p: string, m: nat, q: string, n: nat)
    requires p in {"sub-", "tx-"} && q in {"sub-", "tx-"}
    requires p != q || m != n
    ensures p + NatToString(m) != q + NatToString(n)
  {
    var a, b := p + NatToString(m), q + NatToString(n);
    if p == q {
      if a == b {
        assert a[|p|..] == NatToString(m) && b[|q|..] == NatToString(n);
        NatToStringInjective(m, n);
      }
    } else {
      assert a[0] != b[0];
    }
  }

  /** The registry is keyed by destination but `unsubscribe` removes the key
      equal to the subscription id. After subscribing to a destination with a
      generated id and unsubscribing, the destination is still registered
      exactly when it differs from that id; in particular whenever it does not
      start with "sub-". */
  lemma UnsubscribeKeepsEntry(registry: map<string, MessageSubscription>, destination: string, n: nat)
    ensures var sub := MessageSubscription("sub-" + NatToString(n), destination);
      destination in registry[destination := sub] - {sub.subscriptionId} <==> destination != sub.subscriptionId
    ensures !StartsWith(destination, "sub-") ==>
      destination in registry[destination := MessageSubscription("sub-" + NatToString(n), destination)] - {"sub-" + NatToString(n)}
  {
    var id := "sub-" + NatToString(n);
    assert id[..4] == "sub-";
  }


  // ---------------------------------------------------------------------------
  // Outgoing headers
  // ---------------------------------------------------------------------------

  /** The header map `connect` leaves in its config: the config's headers (an
      empty map when there is no config or no headers), then `login` and
      `passcode` set when they are non-empty. */
  function ConnectHeaders(config: Option<Config>): (h: HeaderMap)
    ensures config.Some? && HasText(config.value.login) ==> Get(h, "login") == config.value.login
    ensures config.Some? && HasText(config.value.passcode) ==> Get(h, "passcode") == config.value.passcode
    ensures forall k :: k != "login" && k != "passcode" ==>
      Get(h, k) == (if config.Some? && config.value.headers.Some? then Get(config.value.headers.value, k) else None)
    ensures forall k :: k == "login" && !(config.Some? && HasText(config.value.login)) ==>
      Get(h, k) == (if config.Some? && config.value.headers.Some? then Get(config.value.headers.value, k) else None)
    ensures forall k :: k == "passcode" && !(config.Some? && HasText(config.value.passcode)) ==>
      Get(h, k) == (if config.Some? && config.value.headers.Some? then Get(config.value.headers.value, k) else None)
  {
    var h0: HeaderMap := if config.Some? && config.value.headers.Some? then config.value.headers.value else [];
    var h1 := if config.Some? && HasText(config.value.login) then Set(h0, "login", config.value.login.value) else h0;
    if config.Some? && HasText(config.value.passcode) then Set(h1, "passcode", config.value.passcode.value) else h1
  }

  /** The headers a CONNECT frame starts from. */
  const DefaultConnectHeaders: HeaderMap := [("accept-version", "1.2"), ("host", "localhost")]

  /** The CONNECT headers sent when the socket opens: the defaults, each
      overridden by the config's header of the same key. */
  function OpenHeaders(connectHeaders: HeaderMap): (h: HeaderMap)
    ensures ToMap(h) == map["accept-version" := "1.2", "host" := "localhost"] + ToMap(connectHeaders)
  {
    SetAllOverlay(DefaultConnectHeaders, connectHeaders);
    assert ToMap(DefaultConnectHeaders) == map["accept-version" := "1.2", "host" := "localhost"] by {
      var first: HeaderMap := [("accept-version", "1.2")];
      assert DefaultConnectHeaders[..1] == first;
      assert ToMap(first) == map["accept-version" := "1.2"] by {
        assert first[..0] == [];
      }
    }
    SetAll(DefaultConnectHeaders, connectHeaders)
  }

  /** The headers of a SUBSCRIBE frame: the caller's headers with `id`,
      `destination` and `ack:auto` set, every other caller header kept. */
  function SubscribeHeaders(given: HeaderMap, id: string, destination: string): (h: HeaderMap)
    ensures ToMap(h) == ToMap(given)["id" := id]["destination" := destination]["ack" := "auto"]
  {
    Set(Set(Set(given, "id", id), "destination", destination), "ack", "auto")
  }

  /** The headers of an ACK or NACK frame: `id`, and `transaction` only when a
      non-empty transaction is given. */
  function AckHeaders(id: string, transaction: Option<string>): (h: HeaderMap)
    ensures Keys(h) == if HasText(transaction) then {"id", "transaction"} else {"id"}
    ensures Get(h, "id") == Some(id)
    ensures HasText(transaction) ==> Get(h, "transaction") == transaction
  {
    var h0: HeaderMap := [("id", id)];
    assert h0[0].0 == "id";
    assert Keys(h0) == {"id"};
    if HasText(transaction) then Set(h0, "transaction", transaction.value) else h0
  }

  /** A header map with the single entry `key:value`. */
  function Single(key: string, value: string): (h: HeaderMap)
    ensures Keys(h) == {key} && Get(h, key) == Some(value)
  {
    var h: HeaderMap := [(key, value)];
    assert h[0].0 == key;
    assert Keys(h) == {key};
    h
  }

  // ---------------------------------------------------------------------------
  // Sending
  // ---------------------------------------------------------------------------

  /** How `transmit` cuts the text `out` into WebSocket messages: pieces of
      `MaxFrameSize` characters while more than that remains, then the rest. */
  function Pieces(out: string): (r: seq<string>)
    ensures |r| > 0
    decreases |out|
  {
    if |out| > MaxFrameSize then [out[..MaxFrameSize]] + Pieces(out[MaxFrameSize..]) else [out]
  }

  /** The pieces put together give back the text; every piece but the last is
      exactly `MaxFrameSize` long; the last is at most that long, and it is
      empty only when the text is. */
  lemma {:induction false} PiecesSpec(out: string)
    ensures Concat(Pieces(out)) == out
    ensures forall i :: 0 <= i < |Pieces(out)| - 1 ==> |Pieces(out)[i]| == MaxFrameSize
    ensures var last := Pieces(out)[|Pieces(out)| - 1];
      |last| <= MaxFrameSize && (last == "" <==> out == "")
    decreases |out|
  {
    if |out| > MaxFrameSize {
      var rest := out[MaxFrameSize..];
      PiecesSpec(rest);
      var p := Pieces(out);
      assert p == [out[..MaxFrameSize]] + Pieces(rest);
      assert p[1..] == Pieces(rest);
      assert out == out[..MaxFrameSize] + rest;
      forall i | 1 <= i < |p| - 1 ensures |p[i]| == MaxFrameSize {
        assert p[i] == Pieces(rest)[i - 1];
      }
    }
  }

  /** The messages `transmit` hands to the socket for a frame built from
      `command`, `headers` and `body`: the serialised frame (with its
      `content-length` set), cut into pieces. */
  function Outgoing(command: Command, headers: HeaderMap, body: Option<string>): seq<string>
  {
    Pieces(Serializer.Wire(Serializer.Prepare(Frame(command, headers, BuildBody(body)))))
  }

  /** Every frame the client sends arrives whole: the pieces join up to the
      serialised frame, which starts with the command line and ends with a
      NUL. */
  lemma OutgoingJoinsUp(command: Command, headers: HeaderMap, body: Option<string>)
    ensures var w := Serializer.Wire(Serializer.Prepare(Frame(command, headers, BuildBody(body))));
      && Concat(Outgoing(command, headers, body)) == w
      && StartsWith(w, Name(command) + [Bytes.LF])
      && w[|w| - 1] == Bytes.NUL
  {
    var g := Serializer.Prepare(Frame(command, headers, BuildBody(body)));
    PiecesSpec(Serializer.Wire(g));
    Serializer.WireStartsWithCommand(g);
  }

  // ---------------------------------------------------------------------------
  // Heart-beating
  // ---------------------------------------------------------------------------

  /** The longest prefix of `s` made of decimal digits. */
  function DigitPrefix(s: string): (d: string)
    ensures IsDigits(d) && |d| <= |s| && d == s[..|d|]
    ensures |d| < |s| ==> !('0' <= s[|d|] <= '9')
  {
    if s != [] && '0' <= s[0] <= '9' then [s[0]] + DigitPrefix(s[1..]) else []
  }

  /** `parseInt(text)` in base 10: leading white space is skipped, a sign is
      read, then the longest run of digits; without digits the result is not
      a number (`None`). */
  function ParseDecimal(text: string): (r: Option<int>)
  {
    var t := text[LeadingEnd(text, 0)..];
    var u := if t != [] && (t[0] == '-' || t[0] == '+') then t[1..] else t;
    var d := DigitPrefix(u);
    if d == [] then None
    else if t[0] == '-' then Some(-(DecimalValue(d) as int))
    else Some(DecimalValue(d))
  }

  /** The `index`-th entry of `fields.map(parseInt)`: `map` passes the index as
      the radix, so the first field is read in base 10 and the second with
      radix 1, which is always not a number. A missing field is undefined,
      which compares like not a number. */
  function HeartbeatField(fields: seq<string>, index: nat): (r: Option<int>)
    requires index < 2
    ensures index == 1 ==> r.None?
    ensures index == 0 && |fields| > 0 ==> r == ParseDecimal(fields[0])
  {
    if index >= |fields| || index == 1 then None else ParseDecimal(fields[0])
  }

  function Max(a: int, b: int): int
  {
    if a >= b then a else b
  }

  /** One direction of heart-beating: armed with the larger of the two
      periods when the local and the server's period are both positive, left
      as `current` otherwise. */
  function Armed(local: int, server: Option<int>, current: Option<int>): Option<int>
  {
    if local > 0 && server.Some? && server.value > 0 then Some(Max(local, server.value)) else current
  }

  /** The timers after a CONNECTED frame: nothing changes without a `version`
      other than 1.0 or without a `heart-beat` header; otherwise a direction is
      armed with the larger of the two periods when both sides' periods are
      positive. Returns the new `(pinger, ponger)`. */
  function Timers(f: Frame, pinger: Option<int>, ponger: Option<int>): (Option<int>, Option<int>)
  {
    var version := f.GetHeader("version");
    var beat := f.GetHeader("heart-beat");
    if version.None? || version.value == V1_0 || beat.None? then (pinger, ponger)
    else
      var fields := Split(beat.value, ",");
      var serverIncoming := HeartbeatField(fields, 0);
      var serverOutgoing := HeartbeatField(fields, 1);
      (Armed(HeartbeatOutgoing, serverOutgoing, pinger), Armed(HeartbeatIncoming, serverIncoming, ponger))
  }

  /** No timer is touched when the server speaks 1.0, names no version or sends
      no heart-beat header. */
  lemma TimersNeedVersionAndBeat(f: Frame, pinger: Option<int>, ponger: Option<int>)
    requires f.GetHeader("version") in {None, Some(V1_0)} || f.GetHeader("heart-beat").None?
    ensures Timers(f, pinger, ponger) == (pinger, ponger)
  {
  }

  /** The outgoing timer is never armed, whatever the server sends: its period
      is always read with radix 1. */
  lemma PingerNeverArmed(f: Frame, pinger: Option<int>, ponger: Option<int>)
    ensures Timers(f, pinger, ponger).0 == pinger
  {
  }

  /** A running watchdog never has a period below the client's own. */
  predicate PongerFloor(ponger: Option<int>)
  {
    ponger.Some? ==> ponger.value >= HeartbeatIncoming
  }

  lemma TimersKeepFloor(f: Frame, pinger: Option<int>, ponger: Option<int>)
    requires PongerFloor(ponger)
    ensures PongerFloor(Timers(f, pinger, ponger).1)
  {
  }

  /** Reading back a number: `parseInt` of the decimal text of `n` is `n`. */
  lemma ParseDecimalOfNat(n: nat)
    ensures ParseDecimal(NatToString(n)) == Some(n)
  {
    var s := NatToString(n);
    assert !IsJsSpace(s[0]);
    assert LeadingEnd(s, 0) == 0;
    assert s[0..] == s;
    assert DigitPrefix(s) == s;
    DecimalRoundTrip(n);
  }

  /** With a version other than 1.0 and the header `heart-beat: n,m`, the
      watchdog runs every `max(10000, n)` milliseconds when `n` is positive
      and is left as it was otherwise; the pinger is left as it was. */
  lemma HeartbeatHeaderRule(f: Frame, n: nat, m: nat, pinger: Option<int>, ponger: Option<int>)
    requires f.GetHeader("version").Some? && f.GetHeader("version") != Some(V1_0)
    requires f.GetHeader("heart-beat") == Some(NatToString(n) + "," + NatToString(m))
    ensures Timers(f, pinger, ponger) == (pinger, if n > 0 then Some(Max(HeartbeatIncoming, n)) else ponger)
  {
    var a, b := NatToString(n), NatToString(m);
    assert ',' !in a && ',' !in b by {
      assert forall i :: 0 <= i < |a| ==> '0' <= a[i] <= '9';
      assert forall i :: 0 <= i < |b| ==> '0' <= b[i] <= '9';
    }
    assert Join([a, b], [',']) == a + "," + b by {
      assert [a, b][1..] == [b];
    }
    SplitJoin([a, b], ',');
    ParseDecimalOfNat(n);
  }

  /** The watchdog's test: it closes the socket when nothing arrived from the
      server for more than two of its periods. */
  predicate Stale(s: ClientState, now: int)
  {
    s.ponger.Some? && now - s.serverActivity > 2 * s.ponger.value
  }

  /** The watchdog never fires within twice the client's own period after the
      last server activity. */
  lemma RecentActivityNotStale(s: ClientState, now: int)
    requires PongerFloor(s.ponger) && now - s.serverActivity <= 2 * HeartbeatIncoming
    ensures !Stale(s, now)
  {
  }

  // ---------------------------------------------------------------------------
  // Receiving
  // ---------------------------------------------------------------------------

  /** A state and the error, if any, that ended the step. */
  datatype Outcome = Outcome(state: ClientState, error: Option<StompError>)

  /** The commands `handleFrame` accepts. */
  predicate Handled(c: Command)
  {
    c in {CONNECTED, MESSAGE, RECEIPT, ERROR}
  }

  /** The stream a handled frame goes to: CONNECTED frames to the connect
      stream, MESSAGE and RECEIPT frames to theirs, and ERROR frames, wrapped
      as error frames, to the error stream. */
  function Push(st: Streams, f: Frame): Streams
  {
    match f.command
    case CONNECTED => st.(connects := st.connects + [f])
    case MESSAGE => st.(messages := st.messages + [f])
    case RECEIPT => st.(receipts := st.receipts + [f])
    case ERROR => st.(errors := st.errors + [ErrorFrameOf(None, Some(f))])
    case _ => st
  }

  /** The error `handleFrame` throws for a command it does not dispatch. The
      message interpolates the command value, and a command value is the
      enumeration's number, not its name. */
  function Refusal(c: Command): StompError
  {
    UnsupportedCommand(NatToString(Ordinal(c)))
  }

  /** Refusals of distinct commands are distinct, and a refused SEND frame
      reports its number, `12`. */
  lemma RefusalShowsOrdinal(c: Command, d: Command)
    ensures Refusal(c) == Refusal(d) ==> c == d
    ensures Refusal(SEND) == UnsupportedCommand("12")
  {
    if Refusal(c) == Refusal(d) {
      NatToStringInjective(Ordinal(c), Ordinal(d));
    }
    assert NatToString(12) == NatToString(1) + [DigitChar(2)];
  }

  /** `handleFrame`: a handled frame goes to its stream, and a CONNECTED frame
      also marks the client connected and sets up the heart-beat; any other
      command is refused and changes nothing. */
  function Handle(s: ClientState, f: Frame): (o: Outcome)
    ensures o.error.Some? <==> !Handled(f.command)
    ensures o.error.Some? ==> o == Outcome(s, Some(Refusal(f.command)))
  {
    if !Handled(f.command) then Outcome(s, Some(Refusal(f.command)))
    else if f.command == CONNECTED then
      var t := Timers(f, s.pinger, s.ponger);
      Outcome(s.(connected := true, pinger := t.0, ponger := t.1, streams := Push(s.streams, f)), None)
    else Outcome(s.(streams := Push(s.streams, f)), None)
  }

  /** `frames.forEach(handleFrame)`: the frames in order, stopping at the
      first refused one, whose error ends the step; what the frames before it
      did stays done. */
  function Dispatch(s: ClientState, fs: seq<Frame>): Outcome
    decreases |fs|
  {
    if fs == [] then Outcome(s, None)
    else
      var o := Dispatch(s, fs[..|fs| - 1]);
      if o.error.Some? then o else Handle(o.state, fs[|fs| - 1])
  }

  /** The frames of `fs` with command `c`, in order. */
  function OfCommand(fs: seq<Frame>, c: Command): (r: seq<Frame>)
    decreases |fs|
  {
    if fs == [] then []
    else OfCommand(fs[..|fs| - 1], c) + (if fs[|fs| - 1].command == c then [fs[|fs| - 1]] else [])
  }

  /** Wrapping a received ERROR frame, without a message, as an error frame
      gives back the same frame. */
  lemma WrappedErrorIsSame(f: Frame)
    requires f.command == ERROR
    ensures ErrorFrameOf(None, Some(f)) == f
  {
  }

  /** The watchdog period after the CONNECTED frames `cs`, each setting up
      the heart-beat in turn. */
  function PongerAfter(ponger: Option<int>, cs: seq<Frame>): Option<int>
    decreases |cs|
  {
    if cs == [] then ponger
    else Timers(cs[|cs| - 1], None, PongerAfter(ponger, cs[..|cs| - 1])).1
  }

  /** The streams after pushing the frames `fs` in turn. */
  function Logged(st: Streams, fs: seq<Frame>): Streams
    decreases |fs|
  {
    if fs == [] then st else Push(Logged(st, fs[..|fs| - 1]), fs[|fs| - 1])
  }

  /** The stream frames with command `c` go to. */
  function Stream(st: Streams, c: Command): seq<Frame>
  {
    match c
    case CONNECTED => st.connects
    case MESSAGE => st.messages
    case RECEIPT => st.receipts
    case ERROR => st.errors
    case _ => []
  }

  /** What a dispatch of `fs` that goes through makes of `s`: the frames
      pushed to their streams; the client connected exactly when it was before or a
      CONNECTED frame came; the watchdog set up by each CONNECTED frame in
      turn; nothing else changed (the pinger included). */
  function Applied(s: ClientState, fs: seq<Frame>): ClientState
  {
    var cs := OfCommand(fs, CONNECTED);
    s.(connected := s.connected || cs != [], ponger := PongerAfter(s.ponger, cs), streams := Logged(s.streams, fs))
  }

  lemma OfCommandSnoc(init: seq<Frame>, f: Frame, c: Command)
    ensures f.command == c ==> OfCommand(init + [f], c) == OfCommand(init, c) + [f]
    ensures f.command != c ==> OfCommand(init + [f], c) == OfCommand(init, c)
  {
    assert (init + [f])[..|init|] == init;
    assert OfCommand(init, c) + [] == OfCommand(init, c);
  }

  lemma PongerAfterSnoc(ponger: Option<int>, cs: seq<Frame>, f: Frame)
    ensures PongerAfter(ponger, cs + [f]) == Timers(f, None, PongerAfter(ponger, cs)).1
  {
    assert (cs + [f])[..|cs|] == cs;
  }

  /** The ponger a CONNECTED frame leaves does not depend on the pinger. */
  lemma PongerIgnoresPinger(f: Frame, pinger: Option<int>, ponger: Option<int>)
    ensures Timers(f, pinger, ponger).1 == Timers(f, None, ponger).1
  {
  }

  lemma PushStream(st: Streams, f: Frame, c: Command)
    requires Handled(c)
    ensures f.command == c ==> Stream(Push(st, f), c) == Stream(st, c) + [f]
    ensures f.command != c ==> Stream(Push(st, f), c) == Stream(st, c)
  {
    if f.command == ERROR {
      WrappedErrorIsSame(f);
    }
  }

  /** Each stream gains exactly the frames of its command, in order: a
      received ERROR frame goes to the error stream as it is. */
  lemma {:induction false} LoggedStream(st: Streams, fs: seq<Frame>, c: Command)
    requires Handled(c)
    ensures Stream(Logged(st, fs), c) == Stream(st, c) + OfCommand(fs, c)
    decreases |fs|
  {
    if fs == [] {
      assert Stream(st, c) + [] == Stream(st, c);
    } else {
      var init, f := fs[..|fs| - 1], fs[|fs| - 1];
      LoggedStream(st, init, c);
      PushStream(Logged(st, init), f, c);
      assert fs == init + [f];
      OfCommandSnoc(init, f, c);
      if f.command == c {
        assert Stream(st, c) + OfCommand(init, c) + [f] == Stream(st, c) + (OfCommand(init, c) + [f]);
      }
    }
  }

  /** A CONNECTED frame marks the client connected, leaves the pinger alone,
      sets up the watchdog and goes to the connect stream. */
  lemma HandleConnected(t: ClientState, f: Frame)
    requires f.command == CONNECTED
    ensures Handle(t, f) == Outcome(t.(connected := true, ponger := Timers(f, None, t.ponger).1,
                                       streams := Push(t.streams, f)), None)
  {
    PingerNeverArmed(f, t.pinger, t.ponger);
    PongerIgnoresPinger(f, t.pinger, t.ponger);
  }

  lemma AppliedStep(s: ClientState, init: seq<Frame>, f: Frame)
    requires Handled(f.command)
    ensures Applied(s, init + [f]) == Handle(Applied(s, init), f).state
  {
    var t := Applied(s, init);
    assert (init + [f])[..|init|] == init;
    OfCommandSnoc(init, f, CONNECTED);
    if f.command == CONNECTED {
      PongerAfterSnoc(s.ponger, OfCommand(init, CONNECTED), f);
      HandleConnected(t, f);
    }
  }

  /** A dispatch that goes through leaves the state `Applied` describes. */
  lemma {:induction false} DispatchApplies(s: ClientState, fs: seq<Frame>)
    requires Dispatch(s, fs).error.None?
    ensures Dispatch(s, fs).state == Applied(s, fs)
    decreases |fs|
  {
    if fs != [] {
      var init, f := fs[..|fs| - 1], fs[|fs| - 1];
      DispatchApplies(s, init);
      assert fs == init + [f];
      AppliedStep(s, init, f);
    }
  }

  /** A dispatch fails exactly when some frame has a command `handleFrame`
      refuses. */
  lemma {:induction false} DispatchFailsIff(s: ClientState, fs: seq<Frame>)
    ensures Dispatch(s, fs).error.Some? <==> exists i :: 0 <= i < |fs| && !Handled(fs[i].command)
    decreases |fs|
  {
    if fs != [] {
      var init := fs[..|fs| - 1];
      DispatchFailsIff(s, init);
      forall i | 0 <= i < |init| ensures init[i] == fs[i] { }
    }
  }

  /** A failing dispatch stops at the first refused frame: the state is the one
      the frames before it produced, and the error is that command's refusal. */
  lemma {:induction false} DispatchStopsAtFirst(s: ClientState, fs: seq<Frame>, k: nat)
    requires k < |fs| && !Handled(fs[k].command)
    requires forall j :: 0 <= j < k ==> Handled(fs[j].command)
    ensures Dispatch(s, fs) == Outcome(Dispatch(s, fs[..k]).state, Some(Refusal(fs[k].command)))
    decreases |fs|
  {
    var init := fs[..|fs| - 1];
    if k == |fs| - 1 {
      assert fs[..k] == init;
      DispatchFailsIff(s, init);
      forall i | 0 <= i < |init| ensures Handled(init[i].command) {
        assert init[i] == fs[i];
      }
    } else {
      assert init[..k] == fs[..k];
      DispatchStopsAtFirst(s, init, k);
    }
  }

  /** `onmessage`: ignored until `connect` has attached the handler; a payload
      the deserializer refuses ends the step with its error before anything
      changes; otherwise the server activity time is set and the frames are
      dispatched. The partial text is dropped. */
  function Received(s: ClientState, payload: Payload, now: int): Outcome
  {
    if !s.listening then Outcome(s, None)
    else match Deserialize(payload)
      case Failure(e) => Outcome(s, Some(e))
      case Success(buffer) => Dispatch(s.(serverActivity := now), buffer.frames)
  }

  /** A payload the deserializer reads as `buffer` sets the activity time
      and dispatches its frames. */
  lemma ReceivedParsed(s: ClientState, payload: Payload, now: int, buffer: FrameBuffer<Frame>)
    requires s.listening && Deserialize(payload) == Success(buffer)
    ensures Received(s, payload, now) == Dispatch(s.(serverActivity := now), buffer.frames)
  {
  }

  /** A payload holding a serialised MESSAGE frame adds the frame read back to
      the message stream and changes nothing but the server activity time. */
  lemma DeliversMessage(s: ClientState, g: Frame, now: int)
    requires s.listening && RoundTrip.CleanFrame(g) && g.command == MESSAGE
    ensures Received(s, Text(Serializer.Wire(g)), now) ==
      Outcome(s.(serverActivity := now, streams := s.streams.(messages := s.streams.messages + [RoundTrip.Reparsed(g)])), None)
  {
    var f := RoundTrip.Reparsed(g);
    RoundTrip.OneFrame(g);
    ReceivedParsed(s, Text(Serializer.Wire(g)), now, FrameBuffer([f], None));
    assert [f][..0] == [];
  }

  /** A payload holding only the first part of a serialised frame is kept back
      as partial text and then dropped: only the server activity time
      changes. */
  lemma PartialDropped(s: ClientState, g: Frame, n: nat, now: int)
    requires s.listening && RoundTrip.CleanFrame(g) && 0 < n < |Serializer.Wire(g)|
    ensures Received(s, Text(Serializer.Wire(g)[..n]), now) == Outcome(s.(serverActivity := now), None)
  {
    RoundTrip.CutFrameIsPartial(g, n);
  }

  // ---------------------------------------------------------------------------
  // Closing
  // ---------------------------------------------------------------------------

  /** The error frame reported when the socket closes on its own: an ERROR
      frame with only a `message` header naming the URL, and no body. */
  function LostConnection(url: string): (e: Frame)
    ensures e.command == ERROR
    ensures ErrorMessage(e) == Some("WS: Lost connection to " + url)
    ensures ErrorDetail(e) == None
    ensures Keys(e.headers) == {"message"}
  {
    var e := ErrorFrameOf(Some("WS: Lost connection to " + url), None);
    ErrorFrameSpec(Some("WS: Lost connection to " + url), None);
    assert e.headers == [("message", "WS: Lost connection to " + url)];
    e
  }
}
