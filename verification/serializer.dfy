/** Turning a frame into the text sent over the socket: the command line, one
    `key:value` line per header in the map's iteration order, a blank line, the
    body and a terminating NUL. A non-empty body first gets a `content-length`
    header holding its size in UTF-8 bytes. */
module Serializer {
  import opened Wrappers
  import opened Strings
  import opened StompCommands
  import opened Headers
  import opened Frames
  import opened Bytes

  // ---------------------------------------------------------------------------
  // UTF-8 byte length (section 3 of RFC 3629)
  // ---------------------------------------------------------------------------

  /** The UTF-8 encoding of one character, as byte values (section 3 of RFC 3629). */
  function Utf8Bytes(c: char): (bs: seq<nat>)
    ensures 1 <= |bs| <= 4
    ensures forall i :: 0 <= i < |bs| ==> bs[i] < 256
    ensures |bs| == 1 <==> c as int < 0x80
  {
    var n := c as int;
    if n < 0x80 then [n]
    else if n < 0x800 then [0xC0 + n / 64, 0x80 + n % 64]
    else if n < 0x10000 then [0xE0 + n / 4096, 0x80 + (n / 64) % 64, 0x80 + n % 64]
    else [0xF0 + n / 262144, 0x80 + (n / 4096) % 64, 0x80 + (n / 64) % 64, 0x80 + n % 64]
  }

  /** The code point a well-formed UTF-8 sequence of one to four bytes encodes. */
  function Utf8DecodeChar(bs: seq<nat>): int
    requires 1 <= |bs| <= 4
  {
    var b: seq<int> := bs;
    if |b| == 1 then b[0]
    else if |b| == 2 then (b[0] - 0xC0) * 64 + (b[1] - 0x80)
    else if |b| == 3 then ((b[0] - 0xE0) * 64 + (b[1] - 0x80)) * 64 + (b[2] - 0x80)
    else (((b[0] - 0xF0) * 64 + (b[1] - 0x80)) * 64 + (b[2] - 0x80)) * 64 + (b[3] - 0x80)
  }

  /** Decoding the encoding of a character gives its code point back, and the
      lead byte announces the length of the sequence. */
  lemma Utf8RoundTrip(c: char)
    ensures Utf8DecodeChar(Utf8Bytes(c)) == c as int
    ensures var bs := Utf8Bytes(c);
      && (|bs| == 1 ==> bs[0] < 0x80)
      && (|bs| == 2 ==> 0xC0 <= bs[0] < 0xE0)
      && (|bs| == 3 ==> 0xE0 <= bs[0] < 0xF0)
      && (|bs| == 4 ==> 0xF0 <= bs[0] < 0xF8)
      && (forall i :: 1 <= i < |bs| ==> 0x80 <= bs[i] < 0xC0)
  {
    var n := c as int;
    if n >= 0x80 {
      assert n == (n / 64) * 64 + n % 64;
      if n >= 0x800 {
        assert n / 64 == (n / 4096) * 64 + (n / 64) % 64;
        if n >= 0x10000 {
          assert n / 4096 == (n / 262144) * 64 + (n / 4096) % 64;
        }
      }
    }
  }

  /** The number of bytes in the UTF-8 encoding of `s`. */
  function Utf8Length(s: string): nat
  {
    if s == [] then 0 else |Utf8Bytes(s[0])| + Utf8Length(s[1..])
  }

  /** Characters `encodeURI` leaves as they are; every other character becomes
      the `%XY` escapes of its UTF-8 bytes. */
  predicate UriUnescaped(c: char)
  {
    || 'a' <= c <= 'z' || 'A' <= c <= 'Z' || '0' <= c <= '9'
    || c in UriMarks
  }

  /** The marks and reserved characters `encodeURI` keeps (`#` included). */
  const UriMarks: set<char> :=
    {'-', '_', '.', '!', '~', '*', '\'', '(', ')', ';', '/', '?', ':', '@', '&', '=', '+', '$', ',', '#'}

  /** A character `encodeURI` keeps is ASCII, is not `%` and is not a line
      terminator, so it is one match of `.` and one byte. */
  lemma UnescapedIsPlain(c: char)
    requires UriUnescaped(c)
    ensures c as int < 0x80 && c != '%' && !IsLineTerminator(c)
  {
  }

  function HexDigit(d: nat): (c: char)
    requires d < 16
    ensures '0' <= c <= '9' || 'A' <= c <= 'F'
  {
    "0123456789ABCDEF"[d]
  }

  function PercentEncode(bs: seq<nat>): string
    requires forall i :: 0 <= i < |bs| ==> bs[i] < 256
  {
    if bs == [] then "" else ['%', HexDigit(bs[0] / 16), HexDigit(bs[0] % 16)] + PercentEncode(bs[1..])
  }

  function EncodeUriChar(c: char): string
  {
    if UriUnescaped(c) then [c] else PercentEncode(Utf8Bytes(c))
  }

  /** `encodeURI`: characters are never lone surrogates here, so it never fails. */
  function EncodeUri(s: string): string
  {
    if s == [] then "" else EncodeUriChar(s[0]) + EncodeUri(s[1..])
  }

  /** The characters the regular-expression wildcard `.` does not match. */
  predicate IsLineTerminator(c: char)
  {
    c == '\n' || c == '\r' || c == '\U{2028}' || c == '\U{2029}'
  }

  /** The number of matches of `/%..|./g`, scanning from the left. */
  function CountUnits(t: string): nat
    decreases |t|
  {
    if t == [] then 0
    else if t[0] == '%' && |t| >= 3 && !IsLineTerminator(t[1]) && !IsLineTerminator(t[2]) then
      1 + CountUnits(t[3..])
    else if IsLineTerminator(t[0]) then CountUnits(t[1..])
    else 1 + CountUnits(t[1..])
  }

  lemma {:induction false} CountPercentEncode(bs: seq<nat>, rest: string)
    requires forall i :: 0 <= i < |bs| ==> bs[i] < 256
    ensures CountUnits(PercentEncode(bs) + rest) == |bs| + CountUnits(rest)
  {
    if bs != [] {
      var head := ['%', HexDigit(bs[0] / 16), HexDigit(bs[0] % 16)];
      var t := PercentEncode(bs) + rest;
      assert t == head + (PercentEncode(bs[1..]) + rest);
      assert t[0] == '%' && t[1] == head[1] && t[2] == head[2];
      assert !IsLineTerminator(t[1]) && !IsLineTerminator(t[2]);
      assert t[3..] == PercentEncode(bs[1..]) + rest;
      assert CountUnits(t) == 1 + CountUnits(t[3..]);
      CountPercentEncode(bs[1..], rest);
    } else {
      assert PercentEncode(bs) + rest == rest;
    }
  }

  lemma CountEncodeUriChar(c: char, rest: string)
    ensures CountUnits(EncodeUriChar(c) + rest) == |Utf8Bytes(c)| + CountUnits(rest)
  {
    if UriUnescaped(c) {
      UnescapedIsPlain(c);
      assert ([c] + rest)[0] == c && ([c] + rest)[1..] == rest;
    } else {
      CountPercentEncode(Utf8Bytes(c), rest);
    }
  }

  /** Counting the escapes and plain characters of `encodeURI(s)` counts the
      UTF-8 bytes of `s`. */
  lemma {:induction false} CountEncodeUri(s: string)
    ensures CountUnits(EncodeUri(s)) == Utf8Length(s)
  {
    if s != [] {
      CountEncodeUriChar(s[0], EncodeUri(s[1..]));
      CountEncodeUri(s[1..]);
    }
  }

  /** `getUTF8Length`: the number of matches of `/%..|./g` in `encodeURI(value)`,
      and 0 for a null or empty value. */
  function GetUtf8Length(value: Option<string>): (n: nat)
    ensures n == if value.Some? then Utf8Length(value.value) else 0
  {
    if value.Some? && value.value != "" then
      CountEncodeUri(value.value);
      CountUnits(EncodeUri(value.value))
    else 0
  }

  /** An ASCII string has as many bytes as characters. */
  lemma {:induction false} AsciiUtf8Length(s: string)
    requires forall i :: 0 <= i < |s| ==> s[i] as int < 0x80
    ensures Utf8Length(s) == |s|
  {
    if s != [] {
      AsciiUtf8Length(s[1..]);
    }
  }

  /** The byte length adds up over concatenation and lies between one and four
      bytes per character. */
  lemma {:induction false} Utf8LengthAppend(a: string, b: string)
    ensures Utf8Length(a + b) == Utf8Length(a) + Utf8Length(b)
    ensures |a| <= Utf8Length(a) <= 4 * |a|
  {
    if a != [] {
      assert (a + b)[0] == a[0];
      assert (a + b)[1..] == a[1..] + b;
      Utf8LengthAppend(a[1..], b);
    } else {
      assert a + b == b;
    }
  }

  /** Umlauts such as `ä` and `ü` take two bytes each; null and the empty
      string take none. */
  lemma UmlautLength()
    ensures GetUtf8Length(Some("ä")) == 2
    ensures GetUtf8Length(Some("ü")) == 2
    ensures GetUtf8Length(None) == 0 && GetUtf8Length(Some("")) == 0
  {
  }

  /** A plain ASCII text takes one byte per character. */
  lemma AsciiTextLength()
    ensures GetUtf8Length(Some("hello world!")) == 12
  {
    AsciiUtf8Length("hello world!");
  }

  // ---------------------------------------------------------------------------
  // Frame text
  // ---------------------------------------------------------------------------

  /** Whether a body is sent: present and non-empty. */
  predicate HasBody(body: Option<string>)
  {
    body.Some? && body.value != ""
  }

  /** The decimal text of the UTF-8 byte length of a body. */
  function ContentLength(body: string): string
  {
    NatToString(Utf8Length(body))
  }

  /** The frame after `serialize` has set `content-length` on it. */
  function Prepare(f: Frame): (r: Frame)
    ensures r.command == f.command && r.body == f.body
  {
    if HasBody(f.body) then f.(headers := Set(f.headers, "content-length", ContentLength(f.body.value)))
    else f
  }

  /** One `key:value` line per header, in iteration order. */
  function HeaderLines(h: seq<(string, string)>): (r: seq<string>)
    ensures |r| == |h|
  {
    if h == [] then [] else [h[0].0 + ":" + h[0].1] + HeaderLines(h[1..])
  }

  /** One more header adds its line at the end. */
  lemma {:induction false} HeaderLinesSnoc(h: seq<(string, string)>, e: (string, string))
    ensures HeaderLines(h + [e]) == HeaderLines(h) + [e.0 + ":" + e.1]
    decreases |h|
  {
    if h != [] {
      assert (h + [e])[1..] == h[1..] + [e];
      HeaderLinesSnoc(h[1..], e);
    }
  }

  /** Every header as LF, key, colon and value, in iteration order. */
  function HeaderText(h: seq<(string, string)>): string
  {
    if h == [] then "" else [LF] + h[0].0 + ":" + h[0].1 + HeaderText(h[1..])
  }

  function BodyText(body: Option<string>): string
  {
    if HasBody(body) then body.value else ""
  }

  /** The text a frame is sent as: the command name and the header lines, then
      LF LF, the body when it is non-empty, and one NUL. */
  function Wire(f: Frame): string
  {
    Name(f.command) + HeaderText(f.headers) + [LF, LF] + BodyText(f.body) + [NUL]
  }

  lemma {:induction false} JoinHeaderLines(name: string, h: seq<(string, string)>)
    ensures Join([name] + HeaderLines(h), [LF]) == name + HeaderText(h)
    decreases |h|
  {
    if h != [] {
      var first := h[0].0 + ":" + h[0].1;
      JoinHeaderLines(first, h[1..]);
      assert ([name] + HeaderLines(h))[1..] == [first] + HeaderLines(h[1..]);
    }
  }

  /** `serialize`: sets `content-length` on the frame when the body is non-empty
      and returns the frame's text. */
  method Serialize(frame: StompFrame) returns (out: string)
    modifies frame
    ensures frame.Value() == Prepare(old(frame.Value()))
    ensures out == Wire(frame.Value())
  {
    if HasBody(frame.body) {
      frame.SetHeader("content-length", NatToString(GetUtf8Length(frame.body)));
    }
    out := FrameText(frame.command, frame.headers, frame.body);
  }

  /** The text-building part of `serialize`: one line per header after the
      command line, joined with LF, then LF LF, the body and a NUL. */
  method FrameText(command: Command, h: HeaderMap, body: Option<string>) returns (out: string)
    ensures out == Wire(Frame(command, h, body))
  {
    var commandStr := Name(command);
    var lines: seq<string> := [commandStr];
    for i := 0 to |h|
      invariant lines == [commandStr] + HeaderLines(h[..i])
    {
      lines := lines + [h[i].0 + ":" + h[i].1];
      assert h[..i + 1] == h[..i] + [h[i]];
      HeaderLinesSnoc(h[..i], h[i]);
    }
    assert h[..|h|] == h;
    JoinHeaderLines(commandStr, h);
    var header := Join(lines, [LF]);
    var content := header + [LF] + [LF];
    ghost var front := commandStr + HeaderText(h) + [LF, LF];
    assert content == front;
    if HasBody(body) {
      content := content + body.value;
    }
    assert content == front + BodyText(body);
    out := content + [NUL];
  }

  // ---------------------------------------------------------------------------
  // Properties of the frame text
  // ---------------------------------------------------------------------------

  /** The text starts with the command name and a line feed. */
  lemma WireStartsWithCommand(f: Frame)
    ensures StartsWith(Wire(f), Name(f.command) + [LF])
  {
    var w := Wire(f);
    var n := |Name(f.command)|;
    assert w[..n + 1] == Name(f.command) + [LF];
  }

  /** A non-empty body is given `content-length`, overwriting any earlier value,
      whose digits read back as the body's UTF-8 length; no other header changes,
      and a frame without a body is left alone. */
  lemma PrepareSpec(f: Frame, key: string)
    ensures Prepare(f).command == f.command && Prepare(f).body == f.body
    ensures HasBody(f.body) ==>
      && Get(Prepare(f).headers, "content-length") == Some(ContentLength(f.body.value))
      && DecimalValue(ContentLength(f.body.value)) == Utf8Length(f.body.value)
    ensures key != "content-length" ==> Get(Prepare(f).headers, key) == Get(f.headers, key)
    ensures !HasBody(f.body) ==> Prepare(f) == f
  {
    if HasBody(f.body) {
      DecimalRoundTrip(Utf8Length(f.body.value));
    }
  }

  predicate NulFree(s: string)
  {
    NUL !in s
  }

  lemma {:induction false} HeaderTextNulFree(h: seq<(string, string)>)
    requires forall i :: 0 <= i < |h| ==> NulFree(h[i].0) && NulFree(h[i].1)
    ensures NulFree(HeaderText(h))
  {
    if h != [] {
      HeaderTextNulFree(h[1..]);
    }
  }

  /** When no header and not the body contains a NUL, the text holds exactly one
      NUL, as its last character. */
  lemma WireEndsWithSingleNul(f: Frame)
    requires forall i :: 0 <= i < |f.headers| ==> NulFree(f.headers[i].0) && NulFree(f.headers[i].1)
    requires f.body.Some? ==> NulFree(f.body.value)
    ensures var w := Wire(f); |w| > 0 && w[|w| - 1] == NUL && NulFree(w[..|w| - 1])
  {
    HeaderTextNulFree(f.headers);
    NameIsUpperCase(f.command);
    assert NulFree(Name(f.command));
    var w := Wire(f);
    var front := Name(f.command) + HeaderText(f.headers) + [LF, LF] + BodyText(f.body);
    assert w == front + [NUL];
    assert w[..|w| - 1] == front;
  }

  /** A header's line sits in the text right after the lines of the headers
      before it. */
  lemma {:induction false} HeaderTextSplits(h: seq<(string, string)>, i: nat)
    requires i < |h|
    ensures HeaderText(h) == HeaderText(h[..i]) + [LF] + h[i].0 + ":" + h[i].1 + HeaderText(h[i + 1..])
  {
    if i > 0 {
      HeaderTextSplits(h[1..], i - 1);
      assert h[1..][..i - 1] == h[..i][1..];
      assert h[1..][i..] == h[i + 1..];
    } else {
      assert h[1..] == h[i + 1..];
    }
  }
}
