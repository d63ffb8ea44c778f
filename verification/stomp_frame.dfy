/** A STOMP frame: a command, an insertion-ordered header map and an optional
    body. `Frame` is the value of a frame; `StompFrame` is the object the engine
    passes around, whose header map is updated in place. */
module Frames {
  import opened Wrappers
  import opened StompCommands
  import opened Headers

  /** The commands a frame object can hold: the frame constructor rejects a
      command that fails a truth test. */
  type TruthyCommand = c: Command | Truthy(c) witness NACK

  datatype Frame = Frame(command: Command, headers: HeaderMap, body: Option<string>)
  {
    /** `getHeader`: the value stored under `key` when it is present and
        non-empty, and nothing otherwise. */
    function GetHeader(key: string): (r: Option<string>)
      ensures r.Some? <==> key in ToMap(headers) && ToMap(headers)[key] != ""
      ensures r.Some? ==> r.value == ToMap(headers)[key]
    {
      match Get(headers, key)
      case Some(v) => if v != "" then Some(v) else None
      case None => None
    }

    /** `getRequiredHeader`: the same value as `GetHeader`, or a
        missing-header failure where `GetHeader` finds nothing. */
    function GetRequiredHeader(key: string): (r: Result<string, StompError>)
      ensures r.Success? <==> key in ToMap(headers) && ToMap(headers)[key] != ""
      ensures r.Success? ==> r.value == ToMap(headers)[key]
      ensures r.Failure? ==> r.error == MissingHeader(key)
    {
      match GetHeader(key)
      case Some(v) => Success(v)
      case None => Failure(MissingHeader(key))
    }
  }

  /** The body `build` stores: an absent or empty body becomes null. */
  function BuildBody(body: Option<string>): (r: Option<string>)
    ensures r.Some? <==> body.Some? && body.value != ""
    ensures r.Some? ==> r == body
  {
    if body.Some? && body.value != "" then body else None
  }

  class StompFrame {
    const command: TruthyCommand
    const body: Option<string>
    var headers: HeaderMap

    /** The frame this object currently holds. */
    function Value(): Frame
      reads this
    {
      Frame(command, headers, body)
    }

    /** The constructor proper, for a command that passes the truth test; it
        takes its own copy of the header map. */
    constructor (command: TruthyCommand, body: Option<string>, headers: HeaderMap)
      ensures Value() == Frame(command, headers, body)
    {
      this.command := command;
      this.body := body;
      this.headers := headers;
    }

    /** `new StompFrame(command, body, headers)`: fails when the command is
        falsy, which is the case for ACK alone. */
    static method Create(command: Command, body: Option<string>, headers: HeaderMap)
      returns (r: Result<StompFrame, StompError>)
      ensures r.Failure? <==> command == ACK
      ensures r.Failure? ==> r.error == NullCommand
      ensures r.Success? ==> fresh(r.value) && r.value.Value() == Frame(command, headers, body)
    {
      if !Truthy(command) {
        return Failure(NullCommand);
      }
      var frame := new StompFrame(command, body, headers);
      r := Success(frame);
    }

    /** `StompFrame.build`: an absent or empty body is stored as null. */
    static method Build(command: Command, headers: HeaderMap, body: Option<string>)
      returns (r: Result<StompFrame, StompError>)
      ensures r.Failure? <==> command == ACK
      ensures r.Failure? ==> r.error == NullCommand
      ensures r.Success? ==> fresh(r.value) && r.value.Value() == Frame(command, headers, BuildBody(body))
    {
      r := Create(command, BuildBody(body), headers);
    }

    function GetHeader(key: string): (r: Option<string>)
      reads this
      ensures r == Value().GetHeader(key)
    {
      Value().GetHeader(key)
    }

    function GetRequiredHeader(key: string): (r: Result<string, StompError>)
      reads this
      ensures r == Value().GetRequiredHeader(key)
    {
      Value().GetRequiredHeader(key)
    }

    /** `setHeader`: `key` maps to `value` afterwards, every other key keeps its
        value and position, and an existing `key` keeps its position. */
    method SetHeader(key: string, value: string)
      modifies this
      ensures headers == Set(old(headers), key, value)
      ensures ToMap(headers) == ToMap(old(headers))[key := value]
    {
      headers := Set(headers, key, value);
    }
  }

  /** A frame built with `build` (from any command but ACK, which `build`
      refuses) reports back its command, header values and body, and a
      required header it lacks fails. */
  lemma BuildReportsInputs(command: TruthyCommand, key: string, value: string, missing: string, body: string)
    requires value != "" && body != "" && missing != key
    ensures var f := Frame(command, [(key, value)], BuildBody(Some(body)));
      && f.command == command
      && f.GetHeader(key) == Some(value)
      && f.GetRequiredHeader(key) == Success(value)
      && f.GetRequiredHeader(missing) == Failure(MissingHeader(missing))
      && f.body == Some(body)
  {
    var h: HeaderMap := [(key, value)];
    assert h[0].0 == key;
    assert Keys(h) == {key};
  }

  /** A header stored with an empty value reads as absent. */
  lemma EmptyValueIsAbsent(f: Frame, key: string)
    requires key in ToMap(f.headers) && ToMap(f.headers)[key] == ""
    ensures f.GetHeader(key) == None
    ensures f.GetRequiredHeader(key) == Failure(MissingHeader(key))
  {
  }
}
