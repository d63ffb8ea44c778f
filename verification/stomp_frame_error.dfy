/** The error frame: either a copy of an ERROR frame received from the broker or
    a frame synthesised locally for a transport failure, always with command
    ERROR and optionally a `message` header. */
module FrameError {
  import opened Wrappers
  import opened StompCommands
  import opened Headers
  import opened Frames

  /** Whether a message argument passes a truth test (present and non-empty). */
  predicate HasText(message: Option<string>)
  {
    message.Some? && message.value != ""
  }

  /** The frame `new StompFrameError(message, source)` holds. */
  function ErrorFrameOf(message: Option<string>, source: Option<Frame>): (e: Frame)
    ensures e.command == ERROR
  {
    var body := if source.Some? then source.value.body else None;
    var headers: HeaderMap := if source.Some? then source.value.headers else [];
    Frame(ERROR, if HasText(message) then Set(headers, "message", message.value) else headers, body)
  }

  /** `new StompFrameError(message, frame)`: command ERROR, the body and a copy of
      the headers of `frame` (none when there is no frame), then the `message`
      header set when `message` is non-empty. */
  method NewErrorFrame(message: Option<string>, frame: Option<StompFrame>) returns (e: StompFrame)
    ensures fresh(e)
    ensures e.Value() == ErrorFrameOf(message, if frame.Some? then Some(frame.value.Value()) else None)
  {
    ghost var source: Option<Frame> := None;
    var body: Option<string> := None;
    var headers: HeaderMap := [];
    if frame.Some? {
      body, headers := frame.value.body, frame.value.headers;
      source := Some(frame.value.Value());
    }
    e := new StompFrame(ERROR, body, headers);
    if HasText(message) {
      e.SetHeader("message", message.value);
      assert e.Value() == Frame(ERROR, Set(headers, "message", message.value), body);
    }
    assert e.Value() == ErrorFrameOf(message, source);
  }

  /** `errorMessage`: the `message` header. */
  function ErrorMessage(e: Frame): Option<string>
  {
    e.GetHeader("message")
  }

  /** `errorDetail`: the body. */
  function ErrorDetail(e: Frame): Option<string>
  {
    e.body
  }

  /** An error frame is always an ERROR frame; its detail is the wrapped frame's
      body (null when synthesised); a non-empty message argument is its error
      message, and otherwise the wrapped frame's own `message` header is kept. */
  lemma ErrorFrameSpec(message: Option<string>, source: Option<Frame>)
    ensures ErrorFrameOf(message, source).command == ERROR
    ensures ErrorDetail(ErrorFrameOf(message, source)) == (if source.Some? then source.value.body else None)
    ensures HasText(message) ==> ErrorMessage(ErrorFrameOf(message, source)) == message
    ensures !HasText(message) && source.Some? ==>
      ErrorMessage(ErrorFrameOf(message, source)) == source.value.GetHeader("message")
    ensures !HasText(message) && source.None? ==> ErrorMessage(ErrorFrameOf(message, source)) == None
  {
  }

  /** Every header other than `message` is the wrapped frame's (none when
      synthesised). */
  lemma ErrorFrameHeaders(message: Option<string>, source: Option<Frame>, key: string)
    requires key != "message"
    ensures Get(ErrorFrameOf(message, source).headers, key) ==
      (if source.Some? then Get(source.value.headers, key) else None)
  {
  }
}
