/** What the parser makes of the serializer's output: a frame whose header
    entries and body survive the text format is read back as one frame with the
    same command and body and the same header map, its entries in reverse
    order. Several frames in one payload come back as the first alone, and a
    cut-off frame comes back as partial text. */
module RoundTrip {
  import opened Wrappers
  import opened Strings
  import opened StompCommands
  import opened Headers
  import opened Frames
  import opened Bytes
  import Serializer
  import opened Deserializer

  /** No white space at either end, so `trim` leaves the text alone. */
  predicate Trimmed(s: string)
  {
    s == [] || (!IsJsSpace(s[0]) && !IsJsSpace(s[|s| - 1]))
  }

  /** A header key the text format carries unchanged: no line feed, NUL or
      colon, and no white space at its ends. */
  predicate CleanKey(k: string)
  {
    LF !in k && NUL !in k && ':' !in k && Trimmed(k)
  }

  /** A header value the text format carries unchanged. */
  predicate CleanValue(v: string)
  {
    LF !in v && NUL !in v && Trimmed(v)
  }

  predicate CleanEntry(e: (string, string))
  {
    CleanKey(e.0) && CleanValue(e.1)
  }

  predicate CleanHeaders(h: seq<(string, string)>)
  {
    forall i :: 0 <= i < |h| ==> CleanEntry(h[i])
  }

  /** A frame the format carries unchanged: a command other than ACK (which no
      frame can hold), clean header entries and a body without NUL. */
  predicate CleanFrame(f: Frame)
  {
    f.command != ACK && CleanHeaders(f.headers) && (f.body.Some? ==> NUL !in f.body.value)
  }

  // ---------------------------------------------------------------------------
  // The header block
  // ---------------------------------------------------------------------------

  /** Every entry of `Set(h, k, v)` is `(k, v)` or an entry of `h`. */
  lemma SetEntries(h: HeaderMap, k: string, v: string)
    ensures forall i :: 0 <= i < |Set(h, k, v)| ==> Set(h, k, v)[i] == (k, v) || Set(h, k, v)[i] in h
  {
    var i := KeyIndex(h, k);
    if i >= 0 {
      var r := Replace(h, i, v);
      forall j | 0 <= j < |r| ensures r[j] == (k, v) || r[j] in h {
        if j != i {
          assert r[j] == h[j];
        }
      }
    }
  }

  /** Digits are a clean header value. */
  lemma DigitsClean(s: string)
    requires |s| >= 1 && IsDigits(s)
    ensures CleanValue(s)
  {
    assert !IsJsSpace(s[0]) && !IsJsSpace(s[|s| - 1]);
    assert LF !in s && NUL !in s by {
      forall i | 0 <= i < |s| ensures s[i] != LF && s[i] != NUL {
        assert '0' <= s[i] <= '9';
      }
    }
  }

  /** Setting a clean entry keeps a header map clean. */
  lemma SetClean(h: HeaderMap, k: string, v: string)
    requires CleanHeaders(h) && CleanEntry((k, v))
    ensures CleanHeaders(Set(h, k, v))
  {
    SetEntries(h, k, v);
    var r := Set(h, k, v);
    forall i | 0 <= i < |r| ensures CleanEntry(r[i]) {
      if r[i] != (k, v) {
        var j :| 0 <= j < |h| && h[j] == r[i];
      }
    }
  }

  /** `serialize` keeps a clean frame clean: `content-length` and its digits
      are a clean entry. */
  lemma PrepareClean(f: Frame)
    requires CleanFrame(f)
    ensures CleanFrame(Serializer.Prepare(f))
  {
    if Serializer.HasBody(f.body) {
      var n := Serializer.ContentLength(f.body.value);
      DigitsClean(n);
      assert CleanKey("content-length");
      SetClean(f.headers, "content-length", n);
      assert Serializer.Prepare(f) == f.(headers := Set(f.headers, "content-length", n));
    }
  }

  /** No header line of a clean map holds a line feed. */
  lemma {:induction false} HeaderLinesNoLf(h: seq<(string, string)>)
    requires CleanHeaders(h)
    ensures forall i :: 0 <= i < |h| ==> LF !in Serializer.HeaderLines(h)[i]
    decreases |h|
  {
    if h != [] {
      assert CleanHeaders(h[1..]) by {
        forall i | 0 <= i < |h| - 1 ensures CleanEntry(h[1..][i]) {
          assert h[1..][i] == h[i + 1];
        }
      }
      HeaderLinesNoLf(h[1..]);
      assert CleanEntry(h[0]);
    }
  }

  /** The header lines split at their line feeds. */
  lemma HeaderBlockSplits(x: string, h: seq<(string, string)>)
    requires LF !in x && CleanHeaders(h)
    ensures Split(x + Serializer.HeaderText(h), [LF]) == [x] + Serializer.HeaderLines(h)
  {
    var xs := [x] + Serializer.HeaderLines(h);
    Serializer.JoinHeaderLines(x, h);
    HeaderLinesNoLf(h);
    assert forall i :: 0 <= i < |xs| ==> LF !in xs[i] by {
      forall i | 0 <= i < |xs| ensures LF !in xs[i] {
        if i > 0 {
          assert xs[i] == Serializer.HeaderLines(h)[i - 1];
        }
      }
    }
    SplitJoin(xs, LF);
  }

  /** A `key:value` line of a clean entry parses back to the entry. */
  lemma ParseCleanLine(e: (string, string))
    requires CleanEntry(e)
    ensures ParseHeaderLine(e.0 + ":" + e.1) == e
  {
    var line := e.0 + ":" + e.1;
    assert line[..|e.0|] == e.0;
    assert line[|e.0| + 1..] == e.1;
    ParseHeaderLineAtColon(line, |e.0|);
    TrimUnchanged(e.0);
    TrimUnchanged(e.1);
  }

  /** The first key of a header map is not among the keys after it. */
  lemma HeadKeyFresh(h: HeaderMap, below: seq<(string, string)>)
    requires |h| > 0 && below == Reverse(h[1..])
    ensures h[0].0 !in Keys(below)
  {
    forall i | 0 <= i < |below| ensures below[i].0 != h[0].0 {
      DistinctKeys(h, 0, |h| - 1 - i);
    }
  }

  /** The parser stores the first line of a clean header block on top of the
      map it built from the others. */
  lemma HeaderLinesStep(h: HeaderMap)
    requires |h| > 0 && CleanEntry(h[0])
    ensures ParseHeaders(Serializer.HeaderLines(h)) ==
      Set(ParseHeaders(Serializer.HeaderLines(h[1..])), h[0].0, h[0].1)
  {
    var lines := Serializer.HeaderLines(h);
    assert lines[0] == h[0].0 + ":" + h[0].1;
    assert lines[1..] == Serializer.HeaderLines(h[1..]);
    ParseCleanLine(h[0]);
  }

  /** The entries of `h` stored with `Set` from the last to the first. */
  function StoredBackward(h: seq<(string, string)>): HeaderMap
  {
    if h == [] then [] else Set(StoredBackward(h[1..]), h[0].0, h[0].1)
  }

  /** The parser stores the lines of a clean header block as their entries. */
  lemma {:induction false} HeaderLinesStored(h: HeaderMap)
    requires CleanHeaders(h)
    ensures ParseHeaders(Serializer.HeaderLines(h)) == StoredBackward(h)
    decreases |h|
  {
    if h != [] {
      var tail := h[1..];
      SliceUnique(h, 1, |h|);
      assert h[1..|h|] == tail;
      assert CleanHeaders(tail) by {
        forall i | 0 <= i < |tail| ensures CleanEntry(tail[i]) {
          assert tail[i] == h[i + 1];
        }
      }
      HeaderLinesStored(tail);
      StoredStep(h, tail);
    }
  }

  /** One step of `HeaderLinesStored`, given the map of the later lines. */
  lemma StoredStep(h: HeaderMap, tail: HeaderMap)
    requires |h| > 0 && CleanEntry(h[0]) && tail == h[1..]
    requires ParseHeaders(Serializer.HeaderLines(tail)) == StoredBackward(tail)
    ensures ParseHeaders(Serializer.HeaderLines(h)) == StoredBackward(h)
  {
    HeaderLinesStep(h);
  }

  /** Storing distinct keys backward appends each one, giving the reversal. */
  lemma {:induction false} StoredBackwardReverses(h: HeaderMap)
    ensures StoredBackward(h) == Reverse(h)
    decreases |h|
  {
    if h != [] {
      SliceUnique(h, 1, |h|);
      assert h[1..|h|] == h[1..];
      StoredBackwardReverses(h[1..]);
      var below := StoredBackward(h[1..]);
      HeadKeyFresh(h, below);
      assert Set(below, h[0].0, h[0].1) == below + [h[0]];
    }
  }

  /** The parser stores the lines of a clean header map last to first, so it
      rebuilds the map with its entries in reverse order. */
  lemma HeaderLinesParse(h: HeaderMap)
    requires CleanHeaders(h)
    ensures ParseHeaders(Serializer.HeaderLines(h)) == Reverse(h)
  {
    HeaderLinesStored(h);
    StoredBackwardReverses(h);
  }

  // ---------------------------------------------------------------------------
  // The divider
  // ---------------------------------------------------------------------------

  /** Every line feed is followed by a character that is neither a line feed
      nor a carriage return, so no blank line starts inside. */
  predicate LinesOpen(s: string)
  {
    forall j :: 0 <= j < |s| && s[j] == LF ==> j + 1 < |s| && s[j + 1] != LF && s[j + 1] != CR
  }

  lemma {:induction false} HeaderTextOpen(x: string, h: seq<(string, string)>)
    requires LF !in x && CleanHeaders(h)
    ensures LinesOpen(x + Serializer.HeaderText(h))
    decreases |h|
  {
    if h == [] {
      assert x + Serializer.HeaderText(h) == x;
    } else {
      var line := h[0].0 + ":" + h[0].1;
      var rest := Serializer.HeaderText(h[1..]);
      assert Serializer.HeaderText(h) == [LF] + line + rest;
      HeaderTextOpen(line, h[1..]);
      var s := x + Serializer.HeaderText(h);
      assert s == x + [LF] + (line + rest);
      assert line[0] != LF && line[0] != CR by {
        if h[0].0 == [] {
          assert line[0] == ':';
        } else {
          assert line[0] == h[0].0[0];
        }
      }
      forall j | 0 <= j < |s| && s[j] == LF ensures j + 1 < |s| && s[j + 1] != LF && s[j + 1] != CR {
        if j > |x| {
          assert s[j] == (line + rest)[j - |x| - 1];
          assert s[j + 1] == (line + rest)[j - |x|];
        } else {
          assert j == |x|;
        }
      }
    }
  }

  /** The text a frame is sent as, cut at its divider. */
  lemma WireLayout(g: Frame, rest: string)
    ensures var w := Serializer.Wire(g) + rest;
      var p := |Name(g.command)| + |Serializer.HeaderText(g.headers)|;
      && w[..p] == Name(g.command) + Serializer.HeaderText(g.headers)
      && p + 1 < |w| && w[p] == LF && w[p + 1] == LF
      && w[p + 2..] == Serializer.BodyText(g.body) + [NUL] + rest
  {
  }

  /** The divider of a clean frame's text is the blank line after the headers. */
  lemma WireDivider(g: Frame, rest: string)
    requires CleanHeaders(g.headers)
    ensures FindDivider(Serializer.Wire(g) + rest) == |Name(g.command)| + |Serializer.HeaderText(g.headers)|
  {
    var w := Serializer.Wire(g) + rest;
    var p := |Name(g.command)| + |Serializer.HeaderText(g.headers)|;
    WireLayout(g, rest);
    NameIsUpperCase(g.command);
    HeaderTextOpen(Name(g.command), g.headers);
    var s := w[..p];
    assert DividerAt(w, p);
    forall j | 0 <= j < p ensures !DividerAt(w, j) {
      assert w[j] == s[j];
      if w[j] == LF {
        assert w[j + 1] == s[j + 1];
      }
    }
  }

  // ---------------------------------------------------------------------------
  // One frame
  // ---------------------------------------------------------------------------

  /** `deserializeFrame` on text laid out as command line, header lines,
      divider and body. */
  lemma ParseFrameParts(data: string, p: nat, c: TruthyCommand, lines: seq<string>, body: string)
    requires FindDivider(data) == p && p <= |data|
    requires Split(data[..p], [LF]) == [Name(c)] + lines
    requires BodyFrom(data, p + 2) == body
    ensures ParseFrame(data) == Success(Frame(c, ParseHeaders(lines), Some(body)))
  {
    assert Substring(data, 0, p) == data[..p];
    assert ([Name(c)] + lines)[1..] == lines;
    NameIsUpperCase(c);
    NameRoundTrip(c, Name(c));
  }

  /** The frame the parser reads from the text of `g`. */
  function Reparsed(g: Frame): Frame
  {
    Frame(g.command, ParseHeaders(Serializer.HeaderLines(g.headers)), Some(Serializer.BodyText(g.body)))
  }

  /** The command line and header lines of a clean frame's text. */
  lemma WireHeaderBlock(g: Frame, rest: string)
    requires CleanHeaders(g.headers)
    ensures var w := Serializer.Wire(g) + rest;
      var p := |Name(g.command)| + |Serializer.HeaderText(g.headers)|;
      Split(w[..p], [LF]) == [Name(g.command)] + Serializer.HeaderLines(g.headers)
  {
    WireLayout(g, rest);
    NameIsUpperCase(g.command);
    assert LF !in Name(g.command);
    HeaderBlockSplits(Name(g.command), g.headers);
  }

  /** The body read from a clean frame's text is the body sent. */
  lemma WireBody(g: Frame, rest: string)
    requires g.body.Some? ==> NUL !in g.body.value
    ensures var w := Serializer.Wire(g) + rest;
      var p := |Name(g.command)| + |Serializer.HeaderText(g.headers)|;
      BodyFrom(w, p + 2) == Serializer.BodyText(g.body)
  {
    var w := Serializer.Wire(g) + rest;
    var p := |Name(g.command)| + |Serializer.HeaderText(g.headers)|;
    var body := Serializer.BodyText(g.body);
    WireLayout(g, rest);
    assert NUL !in body;
    TakeUntilNulPrefix(w[p + 2..], |body|);
    assert (body + [NUL] + rest)[..|body|] == body;
  }

  /** Where the parser finds the parts of a clean frame's text. */
  lemma WireParts(g: Frame, rest: string) returns (p: nat)
    requires CleanFrame(g)
    ensures var w := Serializer.Wire(g) + rest;
      && FindDivider(w) == p && p <= |w|
      && Split(w[..p], [LF]) == [Name(g.command)] + Serializer.HeaderLines(g.headers)
      && BodyFrom(w, p + 2) == Serializer.BodyText(g.body)
  {
    p := |Name(g.command)| + |Serializer.HeaderText(g.headers)|;
    WireDivider(g, rest);
    WireHeaderBlock(g, rest);
    WireBody(g, rest);
  }

  /** A clean frame's text, followed by anything, parses to the frame: same
      command and body, and the header entries as the parser stores them. */
  lemma ParseWire(g: Frame, rest: string)
    requires CleanFrame(g)
    ensures ParseFrame(Serializer.Wire(g) + rest) == Success(Reparsed(g))
  {
    var p := WireParts(g, rest);
    ParseFrameParts(Serializer.Wire(g) + rest, p, g.command, Serializer.HeaderLines(g.headers), Serializer.BodyText(g.body));
  }

  /** The parsed header entries are the sent ones in reverse order, so they
      make the same header map. */
  lemma ReparsedHeaders(g: Frame)
    requires CleanHeaders(g.headers)
    ensures Reparsed(g).headers == Reverse(g.headers)
    ensures ToMap(Reparsed(g).headers) == ToMap(g.headers)
  {
    var r := Reparsed(g).headers;
    HeaderLinesParse(g.headers);
    ReversedMap(g.headers, r);
  }

  /** `Headers.ReverseSameMap` for a map given as `Reverse(h)`: restates the
      reversal entry by entry, apart from the frame-sized facts above. */
  lemma ReversedMap(h: HeaderMap, r: HeaderMap)
    requires r == Reverse(h)
    ensures ToMap(r) == ToMap(h)
  {
    ReverseSameMap(h, r);
  }

  // ---------------------------------------------------------------------------
  // Whole payloads
  // ---------------------------------------------------------------------------

  /** Text in which no NUL is followed by a line feed holds no separator. */
  lemma NoSeparatorAbsent(s: string)
    requires forall j :: 0 <= j < |s| - 1 && s[j] == NUL ==> s[j + 1] != LF
    ensures Absent(s, Separator)
  {
    forall j | 0 <= j < |s| ensures !OccursAt(s, Separator, j) {
      if j + 3 <= |s| {
        assert s[j..j + 3][0] == s[j] && s[j..j + 3][1] == s[j + 1];
      }
    }
  }

  /** ... so it is one chunk. */
  lemma NoSeparator(s: string)
    requires forall j :: 0 <= j < |s| - 1 && s[j] == NUL ==> s[j + 1] != LF
    ensures Split(s, Separator) == [s]
  {
    NoSeparatorAbsent(s);
    SplitAbsent(s, Separator);
  }

  /** A payload that is one chunk and not a heart-beat is read as its last
      chunk alone. */
  lemma SingleChunk(s: string)
    requires Split(s, Separator) == [s] && s != [LF]
    ensures Deserialize(Text(s)) == WithLast([], s)
  {
    assert Split(s, Separator)[..0] == [];
  }

  /** A complete last chunk that parses adds its frame and leaves no partial
      text. */
  lemma CompleteLast(s: string, f: Frame)
    requires LastIsComplete(s) && ParseFrame(s) == Success(f)
    ensures WithLast([], s) == Success(FrameBuffer([f], None))
  {
    assert ParseLast(s) == Success(Some(f));
    assert [] + [f] == [f];
  }

  /** The text of a clean frame has one NUL, at its end. */
  lemma WireNul(g: Frame)
    requires CleanFrame(g)
    ensures var w := Serializer.Wire(g); |w| > 0 && w[|w| - 1] == NUL && NUL !in w[..|w| - 1]
    ensures Serializer.Wire(g)[0] in "ABCDEFGHIJKLMNOPQRSTUVWXYZ"
  {
    assert forall i :: 0 <= i < |g.headers| ==> CleanEntry(g.headers[i]);
    Serializer.WireEndsWithSingleNul(g);
    NameIsUpperCase(g.command);
    assert Serializer.Wire(g)[0] == Name(g.command)[0];
  }

  /** Text whose only NUL is its last character is one complete chunk. */
  lemma OneTerminatedChunk(s: string)
    requires |s| > 0 && s[|s| - 1] == NUL && NUL !in s[..|s| - 1]
    ensures Split(s, Separator) == [s]
    ensures LastIsComplete(s)
  {
    forall j | 0 <= j < |s| - 1 ensures s[j] != NUL {
      assert s[j] == s[..|s| - 1][j];
    }
    NoSeparator(s);
  }

  /** A payload holding the text of one clean frame is read back as that
      frame, with nothing left over. */
  lemma OneFrame(g: Frame)
    requires CleanFrame(g)
    ensures Deserialize(Text(Serializer.Wire(g))) == Success(FrameBuffer([Reparsed(g)], None))
  {
    var w := Serializer.Wire(g);
    WireNul(g);
    OneTerminatedChunk(w);
    ParseWire(g, "");
    assert w + "" == w;
    assert w != [LF] by {
      assert w[0] != LF;
    }
    SingleChunk(w);
    CompleteLast(w, Reparsed(g));
  }

  /** `serialize` then `deserializeMessage`: a clean frame comes back as one
      frame with its command and body, with `content-length` set to the body's
      UTF-8 length when there is a body, and with the same header map. */
  lemma WireRoundTrip(f: Frame)
    requires CleanFrame(f)
    ensures var g := Serializer.Prepare(f);
      && Deserialize(Text(Serializer.Wire(g))) == Success(FrameBuffer([Reparsed(g)], None))
      && Reparsed(g).command == f.command
      && Reparsed(g).body == Some(Serializer.BodyText(f.body))
      && ToMap(Reparsed(g).headers) == ToMap(g.headers)
      && (Serializer.HasBody(f.body) ==>
            ToMap(Reparsed(g).headers) == ToMap(f.headers)["content-length" := Serializer.ContentLength(f.body.value)])
      && (!Serializer.HasBody(f.body) ==> ToMap(Reparsed(g).headers) == ToMap(f.headers))
  {
    var g := Serializer.Prepare(f);
    PrepareClean(f);
    OneFrame(g);
    ReparsedHeaders(g);
  }

  /** Two texts, each with a single NUL at its end, joined: the NUL between
      them is followed by the second text's first character. */
  lemma JoinedAtNul(w1: string, w2: string)
    requires |w1| > 0 && NUL !in w1[..|w1| - 1]
    requires |w2| > 0 && w2[0] != LF && NUL !in w2[..|w2| - 1]
    ensures var s := w1 + w2; forall j :: 0 <= j < |s| - 1 && s[j] == NUL ==> s[j + 1] != LF
  {
    var s := w1 + w2;
    forall j | 0 <= j < |s| - 1 ensures s[j] == NUL ==> s[j + 1] != LF {
      if j < |w1| - 1 {
        assert s[j] == w1[..|w1| - 1][j];
      } else if j == |w1| - 1 {
        assert s[j + 1] == w2[0];
      } else {
        assert s[j] == w2[..|w2| - 1][j - |w1|];
      }
    }
  }

  /** Two frames sent back to back in one payload: the separator is never
      there, so the payload is one chunk, and the body stops at the first NUL:
      only the first frame is read and the second is lost. */
  lemma SecondFrameLost(g1: Frame, g2: Frame)
    requires CleanFrame(g1) && CleanFrame(g2)
    ensures Deserialize(Text(Serializer.Wire(g1) + Serializer.Wire(g2))) ==
      Success(FrameBuffer([Reparsed(g1)], None))
  {
    var w1, w2 := Serializer.Wire(g1), Serializer.Wire(g2);
    var s := w1 + w2;
    WireNul(g1);
    WireNul(g2);
    assert w2[0] != LF;
    JoinedAtNul(w1, w2);
    NoSeparator(s);
    assert s[|s| - 1] == NUL;
    assert LastIsComplete(s);
    ParseWire(g1, w2);
    assert s != [LF] by {
      assert s[0] == w1[0];
    }
    SingleChunk(s);
    CompleteLast(s, Reparsed(g1));
  }

  /** A payload holding only the start of a clean frame's text, cut before its
      NUL, parses nothing and is kept whole as the partial text. */
  lemma CutFrameIsPartial(g: Frame, n: nat)
    requires CleanFrame(g) && 0 < n < |Serializer.Wire(g)|
    ensures Deserialize(Text(Serializer.Wire(g)[..n])) ==
      Success(FrameBuffer([], Some(Serializer.Wire(g)[..n])))
  {
    var w := Serializer.Wire(g);
    var s := w[..n];
    WireNul(g);
    assert NUL !in s by {
      assert s == w[..|w| - 1][..n];
    }
    NoSeparator(s);
    assert s != [LF] by {
      assert s[0] == w[0];
    }
    assert !EndsWithTerminator(s) by {
      var t := StripTrailingLf(s);
      if |t| > 0 {
        assert t[|t| - 1] == s[|t| - 1];
      }
    }
    SingleChunk(s);
  }

  /** A frame built with no headers and a NUL-free body comes back with its
      command and body. */
  lemma BodyRoundTrip(c: Command, body: string)
    requires c != ACK && NUL !in body
    ensures var r := Deserialize(Text(Serializer.Wire(Serializer.Prepare(Frame(c, [], Some(body))))));
      && r.Success? && r.value.partial == None && |r.value.frames| == 1
      && r.value.frames[0].command == c && r.value.frames[0].body == Some(body)
  {
    var f := Frame(c, [], Some(body));
    assert CleanFrame(f);
    WireRoundTrip(f);
  }
}
