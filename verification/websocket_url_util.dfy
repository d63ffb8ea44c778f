/** Turning the address the client is given into an absolute WebSocket URL:
    a relative path is resolved against the page's location, an `http`/`https`
    address is refused, and a SockJS-style address is rewritten to the raw
    WebSocket endpoint under it. */
module WebsocketUrl {
  import opened Wrappers
  import opened Strings

  /** The parts of the page's location the resolution reads. */
  datatype Location = Location(protocol: string, hostname: string, port: string, pathname: string)

  /** Whether `url` names a WebSocket scheme (`ws://` or `wss://`). */
  predicate IsWsUrl(url: string)
  {
    StartsWith(url, "ws://") || StartsWith(url, "wss://")
  }

  /** Whether `url` names an HTTP scheme (`http://` or `https://`). */
  predicate IsHttpUrl(url: string)
  {
    StartsWith(url, "http://") || StartsWith(url, "https://")
  }

  /** The scheme a relative URL gets: `ws:` on an `http:` page and `wss:` on
      any other. */
  function WsProtocol(loc: Location): string
  {
    if loc.protocol == "http:" then "ws:" else "wss:"
  }

  /** `:port` when the location has a port, nothing otherwise. */
  function PortPart(loc: Location): string
  {
    if loc.port != "" then ":" + loc.port else ""
  }

  /** A path starting with `/` is kept; any other is put under the location's
      path. */
  function AbsolutePath(url: string, loc: Location): string
  {
    if StartsWith(url, "/") then url else loc.pathname + "/" + url
  }

  /** `fromWsUrlToAbsolute`: an HTTP address is refused, a WebSocket address is
      kept, and anything else is resolved against the location. */
  function FromWsUrlToAbsolute(url: string, loc: Location): (r: Result<string, StompError>)
    ensures r.Failure? <==> IsHttpUrl(url)
    ensures r.Failure? ==> r.error == NotWebsocketProtocol
    ensures IsWsUrl(url) ==> r == Success(url)
  {
    if IsHttpUrl(url) then
      assert !IsWsUrl(url) by {
        assert url[0] == 'h';
      }
      Failure(NotWebsocketProtocol)
    else if IsWsUrl(url) then Success(url)
    else Success(WsProtocol(loc) + "//" + loc.hostname + PortPart(loc) + AbsolutePath(url, loc))
  }

  /** Whatever it is given, a resolved URL is a WebSocket URL that ends with
      the address given. */
  lemma ResolvedIsWsUrl(url: string, loc: Location)
    requires FromWsUrlToAbsolute(url, loc).Success?
    ensures IsWsUrl(FromWsUrlToAbsolute(url, loc).value)
    ensures EndsWith(FromWsUrlToAbsolute(url, loc).value, url)
  {
    if !IsWsUrl(url) {
      RelativeUrlResolved(url, loc);
      var r := FromWsUrlToAbsolute(url, loc).value;
      var path := AbsolutePath(url, loc);
      assert EndsWith(r, path) by {
        assert r[|r| - |path|..] == path;
      }
      assert EndsWith(path, url) by {
        assert path[|path| - |url|..] == url;
      }
      SuffixOfSuffix(r, path, url);
    } else {
      assert url[|url| - |url|..] == url;
    }
  }

  /** A resolved relative URL: the scheme chosen by the page's protocol, the
      page's host and port, and the path. */
  lemma RelativeUrlResolved(url: string, loc: Location)
    requires !IsHttpUrl(url) && !IsWsUrl(url)
    ensures FromWsUrlToAbsolute(url, loc).Success?
    ensures var r := FromWsUrlToAbsolute(url, loc).value;
      && (loc.protocol == "http:" ==> StartsWith(r, "ws://"))
      && (loc.protocol != "http:" ==> StartsWith(r, "wss://"))
      && (StartsWith(url, "/") ==> EndsWith(r, loc.hostname + PortPart(loc) + url))
      && (!StartsWith(url, "/") ==> EndsWith(r, loc.hostname + PortPart(loc) + loc.pathname + "/" + url))
  {
    var p := WsProtocol(loc);
    var tail := loc.hostname + PortPart(loc) + AbsolutePath(url, loc);
    var r := p + "//" + tail;
    assert r == FromWsUrlToAbsolute(url, loc).value;
    assert r[..|p| + 2] == p + "//";
    assert r[|r| - |tail|..] == tail;
  }

  /** `fromSockJSToAbsolute`: the first `https://` becomes `wss://`, then the
      first `http://` becomes `ws://`, `/websocket` is appended, and the result
      is resolved. */
  function FromSockJsToAbsolute(sockJsUrl: string, loc: Location): Result<string, StompError>
  {
    FromWsUrlToAbsolute(SockJsBase(sockJsUrl), loc)
  }

  /** The address `fromSockJSToAbsolute` resolves. */
  function SockJsBase(sockJsUrl: string): (r: string)
    ensures EndsWith(r, "/websocket")
  {
    var r := ReplaceFirst(ReplaceFirst(sockJsUrl, "https://", "wss://"), "http://", "ws://") + "/websocket";
    assert r[|r| - 10..] == "/websocket";
    r
  }

  /** The scheme rewrite only puts a `w` where it replaces, so a result that
      starts with a text `t` free of `w` keeps the start of the input, and any
      replacement lies after `t`. */
  lemma KeepsPrefix(x: string, pat: string, rep: string, t: string)
    requires |pat| > 0 && |rep| > 0 && rep[0] == 'w' && 'w' !in t
    requires StartsWith(ReplaceFirst(x, pat, rep), t)
    ensures StartsWith(x, t)
    ensures Find(x, pat) < 0 ==> ReplaceFirst(x, pat, rep) == x
    ensures Find(x, pat) >= 0 ==> Find(x, pat) >= |t| && |ReplaceFirst(x, pat, rep)| >= |t| + |rep|
  {
    var i := Find(x, pat);
    var r := ReplaceFirst(x, pat, rep);
    if i >= 0 {
      assert r[i] == 'w';
      assert i >= |t|;
      assert r[..|t|] == x[..|t|];
    }
  }

  /** A short text followed by `/websocket` starts with `t` (which holds no `w`
      and ends with `/`) only when the text is `t` without its final `/`. */
  lemma ShortPrefix(s: string, t: string)
    requires |t| > 0 && t[|t| - 1] == '/' && 'w' !in t
    requires |s| < |t| && StartsWith(s + "/websocket", t)
    ensures s == t[..|t| - 1]
  {
    var u := s + "/websocket";
    assert u[|s| + 1] == 'w';
    assert |s| + 1 >= |t|;
    assert s == u[..|s|];
  }

  /** An input that starts with `pat` has its first occurrence at the start. */
  lemma FoundAtStart(x: string, pat: string)
    requires |pat| > 0 && StartsWith(x, pat)
    ensures Find(x, pat) == 0
  {
    assert OccursAt(x, pat, 0);
  }

  /** A rewritten SockJS address is refused exactly for `http:/` and
      `https:/`: appending `/websocket` completes their scheme. Any other
      address has its HTTP scheme rewritten before the check. */
  lemma SockJsRefusedExactly(s: string, loc: Location)
    ensures FromSockJsToAbsolute(s, loc).Failure? <==> s == "http:/" || s == "https:/"
  {
    var u := SockJsBase(s);
    if s == "http:/" || s == "https:/" {
      IncompleteSchemeRefused(s);
    }
    if StartsWith(u, "http://") {
      NoHttpAfterRewrite(s);
    }
    if StartsWith(u, "https://") {
      NoHttpsAfterRewrite(s);
    }
  }

  lemma IncompleteSchemeRefused(s: string)
    requires s == "http:/" || s == "https:/"
    ensures IsHttpUrl(SockJsBase(s))
  {
    var u := SockJsBase(s);
    assert Find(s, "https://") < 0;
    if s == "http:/" {
      assert Find(s, "http://") < 0;
      assert u[..7] == s + "/";
    } else {
      assert !OccursAt(s, "http://", 0) by {
        assert s[..7][4] != "http://"[4];
      }
      assert Find(s, "http://") < 0;
      assert u[..8] == s + "/";
    }
  }

  lemma NoHttpAfterRewrite(s: string)
    requires StartsWith(SockJsBase(s), "http://")
    ensures s == "http:/"
  {
    var s1 := ReplaceFirst(s, "https://", "wss://");
    var s2 := ReplaceFirst(s1, "http://", "ws://");
    var u := s2 + "/websocket";
    assert u == SockJsBase(s);
    if |s2| >= 7 {
      assert s2[..7] == u[..7];
      KeepsPrefix(s1, "http://", "ws://", "http://");
      FoundAtStart(s1, "http://");
      assert false;
    }
    ShortPrefix(s2, "http://");
    KeepsPrefix(s1, "http://", "ws://", "http:/");
    KeepsPrefix(s, "https://", "wss://", "http:/");
  }

  lemma NoHttpsAfterRewrite(s: string)
    requires StartsWith(SockJsBase(s), "https://")
    ensures s == "https:/"
  {
    var s1 := ReplaceFirst(s, "https://", "wss://");
    var s2 := ReplaceFirst(s1, "http://", "ws://");
    var u := s2 + "/websocket";
    assert u == SockJsBase(s);
    if |s2| >= 8 {
      assert s2[..8] == u[..8];
      KeepsPrefix(s1, "http://", "ws://", "https://");
      KeepsPrefix(s, "https://", "wss://", "https://");
      FoundAtStart(s, "https://");
      assert false;
    }
    ShortPrefix(s2, "https://");
    KeepsPrefix(s1, "http://", "ws://", "https:/");
    KeepsPrefix(s, "https://", "wss://", "https:/");
  }

  /** A resolved SockJS address ends with `/websocket`. */
  lemma SockJsEndsWithWebsocket(s: string, loc: Location)
    requires FromSockJsToAbsolute(s, loc).Success?
    ensures EndsWith(FromSockJsToAbsolute(s, loc).value, "/websocket")
  {
    var u := SockJsBase(s);
    ResolvedIsWsUrl(u, loc);
    SuffixOfSuffix(FromWsUrlToAbsolute(u, loc).value, u, "/websocket");
  }

  /** A text ending with `u` ends with every suffix of `u`. */
  lemma SuffixOfSuffix(r: string, u: string, t: string)
    requires EndsWith(r, u) && EndsWith(u, t)
    ensures EndsWith(r, t)
  {
    assert r[|r| - |t|..] == u[|u| - |t|..];
  }

  /** A pattern absent from `rest` that starts nowhere inside `p` is absent
      from `p + rest`. */
  lemma AbsentAfter(p: string, rest: string, pat: string)
    requires |pat| > 0 && Find(rest, pat) < 0
    requires forall j {:trigger OccursAt(p + rest, pat, j)} :: 0 <= j < |p| ==> !OccursAt(p + rest, pat, j)
    ensures Find(p + rest, pat) < 0
  {
    var a := p + rest;
    forall j | 0 <= j < |a| ensures !OccursAt(a, pat, j) {
      if j >= |p| && OccursAt(a, pat, j) {
        assert a[j..j + |pat|] == rest[j - |p|..j - |p| + |pat|];
        assert OccursAt(rest, pat, j - |p|);
      }
    }
  }

  /** The location of the page the examples resolve against: a scheme other
      than `http:`, no host name and no port, as on `about:blank`. */
  predicate BlankPage(loc: Location)
  {
    loc.protocol != "http:" && loc.hostname == "" && loc.port == ""
  }

  /** Addresses already in a WebSocket scheme are kept, a path is resolved to
      `wss://` on a blank page, and an HTTP address is refused. */
  lemma WsUrlExamples(loc: Location)
    requires BlankPage(loc)
    ensures FromWsUrlToAbsolute("ws://my.domain/ws", loc) == Success("ws://my.domain/ws")
    ensures FromWsUrlToAbsolute("wss://my.domain/ws", loc) == Success("wss://my.domain/ws")
    ensures FromWsUrlToAbsolute("/ws", loc) == Success("wss:///ws")
    ensures FromWsUrlToAbsolute("http://my.domain/ws", loc) == Failure(NotWebsocketProtocol)
  {
    assert StartsWith("ws://my.domain/ws", "ws://");
    assert StartsWith("wss://my.domain/ws", "wss://");
    assert StartsWith("http://my.domain/ws", "http://");
    assert !IsHttpUrl("/ws") && !IsWsUrl("/ws") && StartsWith("/ws", "/");
    assert FromWsUrlToAbsolute("/ws", loc).value == "wss:" + "//" + "" + "" + "/ws";
    assert "wss:" + "//" + "" + "" + "/ws" == "wss:///ws";
  }

  /** A SockJS path (a `/`-rooted address in which neither scheme occurs) is
      resolved against the page's location with `/websocket` appended: on a
      blank page `/chat` becomes `wss:///chat/websocket`. */
  lemma SockJsPathUrl(path: string, loc: Location)
    requires StartsWith(path, "/") && Find(path, "https://") < 0 && Find(path, "http://") < 0
    ensures FromSockJsToAbsolute(path, loc) ==
      Success(WsProtocol(loc) + "//" + loc.hostname + PortPart(loc) + path + "/websocket")
  {
    var p1 := ReplaceFirst(path, "https://", "wss://");
    assert p1 == path;
    assert ReplaceFirst(p1, "http://", "ws://") == path;
    var u := path + "/websocket";
    assert SockJsBase(path) == u;
    assert u[0] == '/';
    assert StartsWith(u, "/") by {
      assert u[..1] == path[..1];
    }
    assert !IsHttpUrl(u) && !IsWsUrl(u);
    var front := WsProtocol(loc) + "//" + loc.hostname + PortPart(loc);
    assert FromWsUrlToAbsolute(u, loc).value == front + u;
    assert front + u == front + path + "/websocket";
  }

  /** A SockJS `http://` address whose remainder holds no `https://` (such as
      `http://localhost:8080/stomp`) becomes the `ws://` address with
      `/websocket` appended. */
  lemma SockJsHttpUrl(rest: string, loc: Location)
    requires Find(rest, "https://") < 0
    ensures FromSockJsToAbsolute("http://" + rest, loc) == Success("ws://" + rest + "/websocket")
  {
    var a := "http://" + rest;
    NoHttpsInHttp(rest);
    var a1 := ReplaceFirst(a, "https://", "wss://");
    assert a1 == a;
    FoundAtStart(a, "http://");
    var a2 := ReplaceFirst(a1, "http://", "ws://");
    assert a[7..] == rest;
    assert a2 == "ws://" + rest;
    var u := "ws://" + rest + "/websocket";
    assert SockJsBase(a) == u;
    assert StartsWith(u, "ws://") by {
      assert u[..5] == "ws://";
    }
  }

  /** `https://` does not occur in an `http://` address whose remainder
      lacks it. */
  lemma NoHttpsInHttp(rest: string)
    requires Find(rest, "https://") < 0
    ensures Find("http://" + rest, "https://") < 0
  {
    var a := "http://" + rest;
    forall j | 0 <= j < 7 ensures !OccursAt(a, "https://", j) {
      if j + 8 <= |a| {
        if j == 0 {
          assert a[j..j + 8][4] == ':';
        } else {
          assert a[j..j + 8][0] == "http://"[j];
        }
      }
    }
    AbsentAfter("http://", rest, "https://");
  }

  /** `http://` does not occur in a `wss://` address whose remainder lacks
      it. */
  lemma NoHttpInWss(rest: string)
    requires Find(rest, "http://") < 0
    ensures Find("wss://" + rest, "http://") < 0
  {
    var a := "wss://" + rest;
    forall j | 0 <= j < 6 ensures !OccursAt(a, "http://", j) {
      if j + 7 <= |a| {
        assert a[j..j + 7][0] == "wss://"[j];
      }
    }
    AbsentAfter("wss://", rest, "http://");
  }

  /** A SockJS `https://` address whose remainder holds no `http://` (such as
      `https://chat.example.org/ws`) becomes the `wss://` address with
      `/websocket` appended. */
  lemma SockJsHttpsUrl(rest: string, loc: Location)
    requires Find(rest, "http://") < 0
    ensures FromSockJsToAbsolute("https://" + rest, loc) == Success("wss://" + rest + "/websocket")
  {
    var b := "https://" + rest;
    FoundAtStart(b, "https://");
    var b1 := "wss://" + rest;
    assert ReplaceFirst(b, "https://", "wss://") == b1;
    NoHttpInWss(rest);
    var u := b1 + "/websocket";
    assert SockJsBase(b) == u;
    assert StartsWith(u, "wss://") by {
      assert u[..6] == "wss://";
    }
  }
}
