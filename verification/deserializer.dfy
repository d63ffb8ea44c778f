/** The byte constants the parser exports and the serializer and client share. */
module Bytes {
  /** Line feed (octet 10). */
  const LF: char := '\n'
  /** The NUL octet that ends a frame. */
  const NUL: char := '\0'
}

/** Turning the text received over the socket into frames: a lone line feed is a
    heart-beat and carries no frame; anything else is cut into chunks, every
    chunk but the last is parsed, and the last is parsed only when it looks
    terminated and is otherwise kept unparsed as the buffer's `partial`. */
module Deserializer {
  import opened Wrappers
  import opened Strings
  import opened StompCommands
  import opened Headers
  import opened Frames
  import opened Bytes

  const CR: char := '\r'

  /** The separator the payload is cut on. It is passed to `split` as a string,
      so it is the three characters NUL, LF and `*`, not a pattern. */
  const Separator: string := [NUL, LF, '*']

  /** A socket payload: text, or a value of some other type (named by `kind`).
      Binary payloads reach this model already decoded to text. */
  datatype Payload = Text(data: string) | Unsupported(kind: string)

  /** The frames parsed from one payload and the unparsed rest, if any. */
  datatype FrameBuffer<F> = FrameBuffer(frames: seq<F>, partial: Option<string>)

  const EmptyBuffer: FrameBuffer<Frame> := FrameBuffer([], None)

  // ---------------------------------------------------------------------------
  // Trimming
  // ---------------------------------------------------------------------------

  /** The characters the regular-expression class `\s` matches: white space and
      line terminators. */
  const JsSpaces: set<char> := {
    '\t', '\n', '\U{B}', '\U{C}', '\r', ' ', '\U{A0}', '\U{1680}',
    '\U{2000}', '\U{2001}', '\U{2002}', '\U{2003}', '\U{2004}', '\U{2005}',
    '\U{2006}', '\U{2007}', '\U{2008}', '\U{2009}', '\U{200A}',
    '\U{2028}', '\U{2029}', '\U{202F}', '\U{205F}', '\U{3000}', '\U{FEFF}'
  }

  predicate IsJsSpace(c: char)
  {
    c in JsSpaces
  }

  /** The end of the white space that starts at `i`: the first position at or
      after `i` holding a character that is not white space, or the length. */
  function LeadingEnd(s: string, i: nat): (r: nat)
    requires i <= |s|
    ensures i <= r <= |s|
    ensures forall j :: i <= j < r ==> IsJsSpace(s[j])
    ensures r < |s| ==> !IsJsSpace(s[r])
    decreases |s| - i
  {
    if i < |s| && IsJsSpace(s[i]) then LeadingEnd(s, i + 1) else i
  }

  /** The start of the white space that ends at `j`, not going below `lo`. */
  function TrailingStart(s: string, lo: nat, j: nat): (r: nat)
    requires lo <= j <= |s|
    ensures lo <= r <= j
    ensures forall k :: r <= k < j ==> IsJsSpace(s[k])
    ensures r > lo ==> !IsJsSpace(s[r - 1])
    decreases j
  {
    if j > lo && IsJsSpace(s[j - 1]) then TrailingStart(s, lo, j - 1) else j
  }

  /** `trim`: removes the white space at both ends (`/^\s+|\s+$/g` replaced by
      nothing). */
  function Trim(s: string): (r: string)
    ensures |r| <= |s|
    ensures r == [] || (!IsJsSpace(r[0]) && !IsJsSpace(r[|r| - 1]))
  {
    var a := LeadingEnd(s, 0);
    s[a..TrailingStart(s, a, |s|)]
  }

  /** What is left after trimming is a slice of `s` with only white space
      before it and after it, and none at its own ends. */
  lemma TrimSpec(s: string)
    ensures var r := Trim(s);
      && (r == [] || (!IsJsSpace(r[0]) && !IsJsSpace(r[|r| - 1])))
      && var a := LeadingEnd(s, 0);
      && a + |r| <= |s| && r == s[a..a + |r|]
      && (forall j :: 0 <= j < a ==> IsJsSpace(s[j]))
      && (forall j :: a + |r| <= j < |s| ==> IsJsSpace(s[j]))
  {
  }

  /** A string without white space at either end is its own trimming. */
  lemma TrimUnchanged(s: string)
    requires s == [] || (!IsJsSpace(s[0]) && !IsJsSpace(s[|s| - 1]))
    ensures Trim(s) == s
  {
  }

  /** Trimming twice trims no more than trimming once. */
  lemma TrimIdempotent(s: string)
    ensures Trim(Trim(s)) == Trim(s)
  {
    TrimSpec(s);
    TrimUnchanged(Trim(s));
  }

  // ---------------------------------------------------------------------------
  // Locating the parts of a frame
  // ---------------------------------------------------------------------------

  /** Position `i` starts a match of `\n\r?\n\r?`: LF, an optional CR, LF. */
  predicate DividerAt(s: string, i: int)
  {
    0 <= i && i + 1 < |s| && s[i] == LF
    && (s[i + 1] == LF || (s[i + 1] == CR && i + 2 < |s| && s[i + 2] == LF))
  }

  function FindDividerFrom(s: string, from: nat): (r: int)
    ensures r == -1 || (from <= r && DividerAt(s, r))
    ensures forall j {:trigger DividerAt(s, j)} :: from <= j && (r == -1 || j < r) ==> !DividerAt(s, j)
    decreases |s| - from
  {
    if from >= |s| then -1
    else if DividerAt(s, from) then from
    else FindDividerFrom(s, from + 1)
  }

  /** `data.search('\n\r?\n\r?')`: the first blank-line divider, or -1. */
  function FindDivider(s: string): (r: int)
    ensures r == -1 || DividerAt(s, r)
    ensures forall j {:trigger DividerAt(s, j)} :: 0 <= j && (r == -1 || j < r) ==> !DividerAt(s, j)
  {
    FindDividerFrom(s, 0)
  }

  /** The text with its trailing line feeds removed. */
  function StripTrailingLf(s: string): (r: string)
    ensures |r| <= |s| && r == s[..|r|]
    ensures forall i :: |r| <= i < |s| ==> s[i] == LF
    ensures r != [] ==> r[|r| - 1] != LF
  {
    if s != [] && s[|s| - 1] == LF then StripTrailingLf(s[..|s| - 1]) else s
  }

  /** The last-chunk test: the text matches `\0\n*$`, a NUL followed by nothing
      but line feeds up to the end. */
  predicate EndsWithTerminator(s: string)
  {
    var t := StripTrailingLf(s);
    |t| > 0 && t[|t| - 1] == NUL
  }

  /** The last-chunk test holds exactly when some NUL is followed only by line
      feeds. */
  lemma EndsWithTerminatorSpec(s: string)
    ensures EndsWithTerminator(s) <==>
      exists i :: 0 <= i < |s| && s[i] == NUL && forall j :: i < j < |s| ==> s[j] == LF
  {
    var t := StripTrailingLf(s);
    if EndsWithTerminator(s) {
      var i := |t| - 1;
      assert s[i] == NUL && forall j :: i < j < |s| ==> s[j] == LF;
    }
    if exists i :: 0 <= i < |s| && s[i] == NUL && forall j :: i < j < |s| ==> s[j] == LF {
      var i :| 0 <= i < |s| && s[i] == NUL && forall j :: i < j < |s| ==> s[j] == LF;
      assert |t| > i;
      assert t[|t| - 1] == s[|t| - 1] != LF;
    }
  }

  /** The text up to, not including, its first NUL. */
  function TakeUntilNul(s: string): (r: string)
    ensures |r| <= |s| && r == s[..|r|]
    ensures NUL !in r
    ensures |r| < |s| ==> s[|r|] == NUL
  {
    if s == [] || s[0] == NUL then [] else [s[0]] + TakeUntilNul(s[1..])
  }

  // ---------------------------------------------------------------------------
  // Parsing one frame
  // ---------------------------------------------------------------------------

  /** `parseCommand`: the command a token names, failing for a token that names
      none and for ACK, whose value fails the truth test. */
  function ParseCommand(token: string): (r: Result<TruthyCommand, StompError>)
    ensures r.Success? ==> Name(r.value) == token
    ensures r.Failure? ==> r.error == UnknownCommand(token)
  {
    match FromName(token)
    case Some(c) => if Truthy(c) then Success(c) else Failure(UnknownCommand(token))
    case None => Failure(UnknownCommand(token))
  }

  /** A token parses exactly when it is the name of a command other than ACK,
      and then to that command; otherwise the error names the token. */
  lemma ParseCommandSpec(token: string)
    ensures ParseCommand(token).Success? <==> exists c: Command :: c != ACK && Name(c) == token
    ensures ParseCommand(token).Success? ==> Name(ParseCommand(token).value) == token
    ensures ParseCommand(token).Failure? ==> ParseCommand(token).error == UnknownCommand(token)
  {
    FromNameOnlyNames(token);
    if FromName(token).Some? {
      NameRoundTrip(FromName(token).value, token);
    }
    if exists c: Command :: c != ACK && Name(c) == token {
      var c: Command :| c != ACK && Name(c) == token;
      NameRoundTrip(c, token);
    }
  }

  /** One header line: the text before the first colon and the text after it,
      both trimmed (`indexOf` and two `substring` calls). */
  function ParseHeaderLine(line: string): (string, string)
  {
    var idx := Find(line, ":");
    (Trim(Substring(line, 0, idx)), Trim(Substring(line, idx + 1, |line|)))
  }

  /** A line with no colon is stored under the empty key, with the whole line,
      trimmed, as its value. */
  lemma ParseHeaderLineNoColon(line: string)
    requires ':' !in line
    ensures ParseHeaderLine(line) == ("", Trim(line))
  {
    AbsentChar(line, ':');
    assert Find(line, ":") == -1;
    assert Substring(line, 0, |line|) == line;
  }

  /** A header line is split at its first colon and both sides are trimmed. */
  lemma ParseHeaderLineAtColon(line: string, i: nat)
    requires i < |line| && line[i] == ':' && ':' !in line[..i]
    ensures ParseHeaderLine(line) == (Trim(line[..i]), Trim(line[i + 1..]))
  {
    var idx := Find(line, ":");
    assert OccursAt(line, ":", i) by {
      assert line[i..i + 1] == [line[i]];
    }
    assert idx == i;
  }

  /** The header map of a frame. The lines are stored with `Map.set` from the
      last to the first, so the map is the one for the later lines with the
      first line stored on top. */
  function ParseHeaders(lines: seq<string>): HeaderMap
  {
    if lines == [] then []
    else
      var (key, value) := ParseHeaderLine(lines[0]);
      Set(ParseHeaders(lines[1..]), key, value)
  }

  /** The value of the topmost line whose key is `k`, if any: the reading of
      repeated header entries where the first occurrence wins. */
  function FirstValue(lines: seq<string>, k: string): Option<string>
  {
    if lines == [] then None
    else if ParseHeaderLine(lines[0]).0 == k then Some(ParseHeaderLine(lines[0]).1)
    else FirstValue(lines[1..], k)
  }

  /** Storing the lines from the last to the first leaves every key with the
      value of its topmost line, and adds no key no line has. */
  lemma {:induction false} ParseHeadersFirstWins(lines: seq<string>, k: string)
    ensures Get(ParseHeaders(lines), k) == FirstValue(lines, k)
  {
    if lines != [] {
      ParseHeadersFirstWins(lines[1..], k);
      var (key, value) := ParseHeaderLine(lines[0]);
      if key != k {
        SetHeaderSpec(ParseHeaders(lines[1..]), key, value, k);
      }
    }
  }

  /** The body: the text from `start` up to the first NUL or the end. */
  function BodyFrom(data: string, start: nat): string
  {
    if start <= |data| then TakeUntilNul(data[start..]) else ""
  }

  /** `deserializeFrame`: the command line and header lines are the text before
      the divider; the body starts two characters after it. */
  function ParseFrame(data: string): (r: Result<Frame, StompError>)
  {
    var divider := FindDivider(data);
    var headerLines := Split(Substring(data, 0, divider), [LF]);
    var commandStr := headerLines[0];
    var headers := ParseHeaders(headerLines[1..]);
    var body := BodyFrom(data, divider + 2);
    if commandStr == "" then Failure(MissingCommand)
    else match ParseCommand(commandStr)
      case Failure(e) => Failure(e)
      case Success(c) => Success(Frame(c, headers, Some(body)))
  }

  /** Text without a blank-line divider has an empty command line and fails. */
  lemma NoDividerMissingCommand(data: string)
    requires forall j :: !DividerAt(data, j)
    ensures ParseFrame(data) == Failure(MissingCommand)
  {
    assert FindDivider(data) == -1;
    assert Substring(data, 0, -1) == "";
    SplitAbsent("", [LF]);
  }

  /** Parses chunks from the first on and stops at the first failure. */
  function ParseAll(chunks: seq<string>): Result<seq<Frame>, StompError>
  {
    if chunks == [] then Success([])
    else match ParseAll(chunks[..|chunks| - 1])
      case Failure(e) => Failure(e)
      case Success(fs) =>
        match ParseFrame(chunks[|chunks| - 1])
        case Failure(e) => Failure(e)
        case Success(f) => Success(fs + [f])
  }

  /** Whether the last chunk is parsed: it is a lone LF or matches `\0\n*$`. */
  predicate LastIsComplete(last: string)
  {
    last == [LF] || EndsWithTerminator(last)
  }

  /** The last chunk: its frame when it is complete, nothing when it is not. */
  function ParseLast(last: string): Result<Option<Frame>, StompError>
  {
    if LastIsComplete(last) then
      match ParseFrame(last)
      case Failure(e) => Failure(e)
      case Success(f) => Success(Some(f))
    else Success(None)
  }

  /** The buffer for the frames `fs` parsed from the leading chunks and the
      last chunk `last`: its frame is added when it is complete and parses, and
      it is kept as the partial text when it is not complete. */
  function WithLast(fs: seq<Frame>, last: string): Result<FrameBuffer<Frame>, StompError>
  {
    match ParseLast(last)
    case Failure(e) => Failure(e)
    case Success(None) => Success(FrameBuffer(fs, Some(last)))
    case Success(Some(f)) => Success(FrameBuffer(fs + [f], None))
  }

  /** `deserializeFrames`. */
  function DeserializeFramesSpec(data: string): Result<FrameBuffer<Frame>, StompError>
  {
    var chunks := Split(data, Separator);
    match ParseAll(chunks[..|chunks| - 1])
    case Failure(e) => Failure(e)
    case Success(fs) => WithLast(fs, chunks[|chunks| - 1])
  }

  /** `deserializeMessage`. */
  function Deserialize(payload: Payload): Result<FrameBuffer<Frame>, StompError>
  {
    match payload
    case Unsupported(kind) => Failure(UnsupportedPayload(kind))
    case Text(data) => if data == [LF] then Success(EmptyBuffer) else DeserializeFramesSpec(data)
  }

  // ---------------------------------------------------------------------------
  // The deserializer's methods
  // ---------------------------------------------------------------------------

  /** The values a sequence of frame objects currently hold. */
  function Values(fs: seq<StompFrame>): (vs: seq<Frame>)
    reads fs
    ensures |vs| == |fs|
  {
    if fs == [] then [] else Values(fs[..|fs| - 1]) + [fs[|fs| - 1].Value()]
  }

  lemma ValuesSnoc(fs: seq<StompFrame>, f: StompFrame)
    ensures Values(fs + [f]) == Values(fs) + [f.Value()]
  {
    assert (fs + [f])[..|fs|] == fs;
  }

  /** `extractBodyAsString`: copies characters from `start` until a NUL or the
      end of the text. */
  method ExtractBodyAsString(data: string, start: nat) returns (body: string)
    ensures body == BodyFrom(data, start)
    ensures NUL !in body
  {
    body := "";
    var i := start;
    while i < |data|
      invariant start <= i && (start <= |data| ==> i <= |data|)
      invariant start <= |data| ==> body == data[start..i] && NUL !in body
      invariant start > |data| ==> body == ""
      decreases |data| - i
    {
      var chr := data[i];
      if chr == NUL {
        break;
      }
      body := body + [chr];
      i := i + 1;
    }
    assert start <= |data| ==> (i == |data| || data[i] == NUL);
    assert start <= |data| ==> data[start..][..i - start] == body;
    if start <= |data| {
      TakeUntilNulPrefix(data[start..], i - start);
    }
  }

  /** A NUL-free prefix that ends at a NUL or at the end is what `TakeUntilNul`
      keeps. */
  lemma {:induction false} TakeUntilNulPrefix(s: string, n: nat)
    requires n <= |s| && NUL !in s[..n] && (n == |s| || s[n] == NUL)
    ensures TakeUntilNul(s) == s[..n]
  {
    if n > 0 {
      assert s[0] == s[..n][0];
      assert s[1..][..n - 1] == s[..n][1..];
      TakeUntilNulPrefix(s[1..], n - 1);
    }
  }

  /** Storing one more line, taken from the end, extends the map of the lines
      after it. */
  lemma ParseHeadersStep(lines: seq<string>, i: nat)
    requires i < |lines|
    ensures var line := lines[|lines| - 1 - i];
      ParseHeaders(lines[|lines| - 1 - i..]) ==
      Set(ParseHeaders(lines[|lines| - i..]), ParseHeaderLine(line).0, ParseHeaderLine(line).1)
  {
    var k := |lines| - 1 - i;
    assert lines[k..][0] == lines[k];
    assert lines[k..][1..] == lines[k + 1..];
  }

  /** The header loop of `deserializeFrame`: the lines, reversed, each split at
      its first colon and stored with `Map.set`. */
  method ReadHeaders(lines: seq<string>) returns (headers: HeaderMap)
    ensures headers == ParseHeaders(lines)
  {
    var rest := Reverse(lines);
    headers := [];
    for i := 0 to |rest|
      invariant headers == ParseHeaders(lines[|lines| - i..])
    {
      var line := rest[i];
      var idx := Find(line, ":");
      var key := Trim(Substring(line, 0, idx));
      var value := Trim(Substring(line, idx + 1, |line|));
      assert (key, value) == ParseHeaderLine(line);
      ParseHeadersStep(lines, i);
      headers := Set(headers, key, value);
    }
    assert lines[0..] == lines;
  }

  /** `deserializeFrame`: fails as `ParseFrame` fails, and otherwise returns a
      new frame object holding the parsed frame. */
  method DeserializeFrame(data: string) returns (r: Result<StompFrame, StompError>)
    ensures r.Failure? ==> ParseFrame(data) == Failure(r.error)
    ensures r.Success? ==> fresh(r.value) && ParseFrame(data) == Success(r.value.Value())
  {
    var divider := FindDivider(data);
    var headerLines := Split(Substring(data, 0, divider), [LF]);
    var commandStr := headerLines[0];
    var headers := ReadHeaders(headerLines[1..]);
    var start := divider + 2;
    var body := ExtractBodyAsString(data, start);
    if commandStr == "" {
      return Failure(MissingCommand);
    }
    var command := ParseCommand(commandStr);
    if command.Failure? {
      return Failure(command.error);
    }
    var frame := new StompFrame(command.value, Some(body), headers);
    r := Success(frame);
  }

  /** Once a prefix of the chunks fails to parse, the whole sequence fails with
      the same error. */
  lemma {:induction false} ParseAllFailureSticks(cs: seq<string>, n: nat)
    requires n <= |cs| && ParseAll(cs[..n]).Failure?
    ensures ParseAll(cs) == ParseAll(cs[..n])
    decreases |cs|
  {
    if n == |cs| {
      assert cs[..n] == cs;
    } else {
      var init := cs[..|cs| - 1];
      assert init[..n] == cs[..n];
      ParseAllFailureSticks(init, n);
    }
  }

  /** A buffer of frame objects holds the frames and the partial text of a
      parsed buffer. */
  predicate Holds(buffer: FrameBuffer<StompFrame>, spec: FrameBuffer<Frame>)
    reads buffer.frames
  {
    Values(buffer.frames) == spec.frames && buffer.partial == spec.partial
  }

  /** Parsing one more chunk extends the parsed prefix by its frame, or fails
      with its error. */
  lemma ParseAllStep(cs: seq<string>, i: nat, f: Result<Frame, StompError>)
    requires i < |cs| && ParseAll(cs[..i]).Success? && ParseFrame(cs[i]) == f
    ensures f.Failure? ==> ParseAll(cs[..i + 1]) == Failure(f.error)
    ensures f.Success? ==> ParseAll(cs[..i + 1]) == Success(ParseAll(cs[..i]).value + [f.value])
  {
    assert cs[..i + 1][..i] == cs[..i];
  }

  /** Parses the chunks in order into new frame objects, stopping at the first
      chunk that fails. */
  method ParseChunks(chunks: seq<string>) returns (r: Result<seq<StompFrame>, StompError>)
    ensures ParseAll(chunks) == (if r.Failure? then Failure(r.error) else Success(Values(r.value)))
    ensures r.Success? ==> forall i :: 0 <= i < |r.value| ==> fresh(r.value[i])
  {
    var frames: seq<StompFrame> := [];
    for i := 0 to |chunks|
      invariant ParseAll(chunks[..i]) == Success(Values(frames))
      invariant forall k :: 0 <= k < |frames| ==> fresh(frames[k])
    {
      var f := DeserializeFrame(chunks[i]);
      if f.Failure? {
        ParseAllStep(chunks, i, Failure(f.error));
        ParseAllFailureSticks(chunks, i + 1);
        return Failure(f.error);
      }
      ParseAllStep(chunks, i, Success(f.value.Value()));
      ValuesSnoc(frames, f.value);
      frames := frames + [f.value];
    }
    assert chunks[..|chunks|] == chunks;
    r := Success(frames);
  }

  /** The last-chunk step of `deserializeFrames`: the frame objects already
      parsed are kept, and the last chunk adds a new frame object or becomes the
      partial text. */
  method AddLastChunk(frames: seq<StompFrame>, last: string) returns (r: Result<FrameBuffer<StompFrame>, StompError>)
    ensures r.Failure? ==> WithLast(Values(frames), last) == Failure(r.error)
    ensures r.Success? ==> WithLast(Values(frames), last).Success? && Holds(r.value, WithLast(Values(frames), last).value)
    ensures r.Success? ==> forall i :: 0 <= i < |r.value.frames| ==> r.value.frames[i] in frames || fresh(r.value.frames[i])
  {
    if last == [LF] || EndsWithTerminator(last) {
      var f := DeserializeFrame(last);
      if f.Failure? {
        return Failure(f.error);
      }
      ValuesSnoc(frames, f.value);
      r := Success(FrameBuffer(frames + [f.value], None));
    } else {
      r := Success(FrameBuffer(frames, Some(last)));
    }
  }

  /** `deserializeFrames`: splits the text on the separator, parses every chunk
      but the last, then handles the last. */
  method DeserializeFrames(data: string) returns (r: Result<FrameBuffer<StompFrame>, StompError>)
    ensures r.Failure? ==> DeserializeFramesSpec(data) == Failure(r.error)
    ensures r.Success? ==> DeserializeFramesSpec(data).Success? && Holds(r.value, DeserializeFramesSpec(data).value)
    ensures r.Success? ==> forall i :: 0 <= i < |r.value.frames| ==> fresh(r.value.frames[i])
  {
    var chunks := Split(data, Separator);
    var n := |chunks| - 1;
    var parsed := ParseChunks(chunks[..n]);
    if parsed.Failure? {
      return Failure(parsed.error);
    }
    r := AddLastChunk(parsed.value, chunks[n]);
  }

  /** `deserializeMessage`: rejects a payload that is not text, returns an empty
      buffer for a heart-beat, and parses anything else. */
  method DeserializeMessage(message: Payload) returns (r: Result<FrameBuffer<StompFrame>, StompError>)
    ensures r.Failure? ==> Deserialize(message) == Failure(r.error)
    ensures r.Success? ==> Deserialize(message).Success? && Holds(r.value, Deserialize(message).value)
    ensures r.Success? ==> forall i :: 0 <= i < |r.value.frames| ==> fresh(r.value.frames[i])
  {
    if message.Unsupported? {
      return Failure(UnsupportedPayload(message.kind));
    }
    var data := message.data;
    if data == [LF] {
      return Success(FrameBuffer([], None));
    }
    r := DeserializeFrames(data);
  }
}
