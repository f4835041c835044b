/** When the request parser runs out of its buffer: the exact condition for every input, and the
    ordinary requests that meet it. */
module RequestFaults {
  import opened Options
  import opened CStrings
  import opened Headers
  import opened Request
  import opened RequestLaws

  // ---------- The exact condition ----------

  /** No line feed within the request, or nothing before the first. */
  ghost predicate NoLine(b: seq<char>, len: nat)
    requires len <= |b|
  {
    (forall k | 0 <= k < len :: b[k] != '\n') || (len > 0 && b[0] == '\n')
  }

  ghost predicate Lacks(b: seq<char>, i: nat, c: char) {
    forall k | i <= k < |b| :: b[k] != c
  }

  ghost predicate TextEndsAt(b: seq<char>, i: nat, e: nat) {
    i <= e <= |b| && (forall k | i <= k < e :: b[k] != '\0') && (forall k | e <= k < |b| :: b[k] == '\0')
  }

  /** Text and then nothing but NULs, up to the end of the buffer. */
  ghost predicate OnlyTextLeft(b: seq<char>, i: nat) {
    exists e: nat :: TextEndsAt(b, i, e)
  }

  lemma NoLineFaults(b: seq<char>, len: nat)
    requires len <= |b|
    ensures CutLine(b, len) == None <==> NoLine(b, len)
  {
    FindCharStops(b[..len], 0, '\n');
  }

  lemma UriFaults(server: Server, r: Req, p: nat)
    requires p <= |r.buf|
    ensures
      var s := UriStage(server, r, p);
      s.Done? && s.outcome == Fault <==> Lacks(r.buf, p, ' ')
  {
    FindCharStops(r.buf, p, ' ');
  }

  lemma {:induction false} SkipCharStops(b: seq<char>, i: nat, c: char)
    requires i <= |b|
    ensures
      var k := SkipChar(b, i, c);
      (k < |b| ==> b[k] != c) && forall j | i <= j < k :: b[j] == c
    decreases |b| - i
  {
    if i < |b| && b[i] == c {
      SkipCharStops(b, i + 1, c);
    }
  }

  /** The version in the text at `p` is one the server supports. */
  predicate VersionAccepted(r: Req, p: nat)
    requires p <= |r.buf|
  {
    var (major, minor) := ScanVersion(CString(r.buf, p), r.major, r.minor);
    Supported(major, minor)
  }

  lemma VersionFaults(r: Req, p: nat)
    requires p <= |r.buf|
    ensures
      var s := VersionStage(r, p);
      s.Done? && s.outcome == Fault <==>
        Lacks(r.buf, p, '\0') || (VersionAccepted(r, p) && OnlyTextLeft(r.buf, p))
  {
    hide ScanVersion, Supported;
    var b, end := r.buf, FindChar(r.buf, p, '\0');
    FindCharStops(b, p, '\0');
    if end < |b| {
      SkipCharStops(b, end, '\0');
      var rest := SkipChar(b, end, '\0');
      if OnlyTextLeft(b, p) {
        var e: nat :| TextEndsAt(b, p, e);
        assert b[end] == '\0' && e <= end;
        FindCharIs(b, p, '\0', e);
      }
      assert rest == |b| ==> TextEndsAt(b, p, end);
    }
  }

  /** For every request: the parser leaves its buffer exactly if there is no line to begin with,
      no space behind the method and its spaces, or, where method, file and version are accepted
      already, no NUL with something behind it. */
  lemma FaultsExactly(server: Server, r: Req, len: nat)
    requires len <= |r.buf|
    ensures
      ParseRequest(server, r, len).0 == Fault <==>
        NoLine(r.buf, len) ||
        (CutLine(r.buf, len).Some? &&
         var s1 := MethodStage(r.(buf := CutLine(r.buf, len).value));
         s1.Next? &&
         (Lacks(s1.r.buf, s1.p, ' ') ||
          var s2 := UriStage(server, s1.r, s1.p);
          s2.Next? &&
          (Lacks(s2.r.buf, s2.p, '\0') || (VersionAccepted(s2.r, s2.p) && OnlyTextLeft(s2.r.buf, s2.p)))))
  {
    hide UriStage, VersionStage, CutLine, VersionAccepted, OnlyTextLeft, NoLine, Lacks, ParseFrom, FindMethod;
    NoLineFaults(r.buf, len);
    if !NoLine(r.buf, len) {
      var s1 := MethodStage(r.(buf := CutLine(r.buf, len).value));
      if s1.Next? {
        UriFaults(server, s1.r, s1.p);
        var s2 := UriStage(server, s1.r, s1.p);
        if s2.Next? {
          VersionFaults(s2.r, s2.p);
        }
      }
    }
  }

  // ---------- Requests as they are read ----------

  /** The buffer is zeroed before the request is read into it. */
  ghost predicate ReadInto(b: seq<char>, text: string) {
    |text| <= |b| && b[..|text|] == text && '\0' !in text && forall k | |text| <= k < |b| :: b[k] == '\0'
  }

  /** A well-formed request for a file that is there is accepted if its first line ends in CRLF,
      and drives the parser out of the buffer if that line ends in a bare line feed: what is
      read behind the version then never stops. */
  lemma BareFeedFaults(server: Server, r: Req, m: Method, uri: string, major: nat, minor: nat, ending: string,
                       rest: string)
    requires Supported(major, minor) && IsUri(uri) && (ending == "\n" || ending == "\r\n")
    requires ReadInto(r.buf, RequestText(m, uri, major, minor, ending, rest))
    requires server.files(Path(server.root, uri)) == Regular
    ensures ParseRequest(server, r, |RequestText(m, uri, major, minor, ending, rest)|).0 ==
            if ending == "\n" then Fault else Reply(200)
  {
    hide ParseRequest, RequestText, HeadInPlace, IsUri, Path, MethodName;
    var b, f := r.buf, VersionAt(m, uri) + 8;
    TextLayout(b, m, uri, major, minor, ending, rest);
    assert b[f..f + |ending|][0] == b[f];
    if ending == "\r\n" {
      assert b[f..f + 2][1] == b[f + 1];
      LineAccepted(server, r, |RequestText(m, uri, major, minor, ending, rest)|, m, uri, major, minor);
    } else {
      BareFeed(server, r, |RequestText(m, uri, major, minor, ending, rest)|, m, uri, major, minor);
    }
  }

  lemma BareFeed(server: Server, r: Req, len: nat, m: Method, uri: string, major: nat, minor: nat)
    requires Supported(major, minor) && IsUri(uri) && HeadInPlace(r.buf, m, uri, major, minor)
    requires r.buf[UriEnd(m, uri)] == ' ' && VersionAt(m, uri) + 8 < len <= |r.buf|
    requires r.buf[VersionAt(m, uri) + 8] == '\n'
    requires (forall k | 0 <= k < len :: r.buf[k] != '\0') && (forall k | len <= k < |r.buf| :: r.buf[k] == '\0')
    requires server.files(Path(server.root, uri)) == Regular
    ensures ParseRequest(server, r, len).0 == Fault
  {
    hide MethodStage, UriStage, VersionStage, ScanVersion, CString, Path, IsUri, HeadInPlace, MethodName, ParseFrom;
    var b, q, v := r.buf, UriEnd(m, uri), VersionAt(m, uri);
    NoReturn(b, len, m, uri, major, minor);
    MethodWellFormed(r, m, uri, major, minor);
    var r1 := r.(kind := Some(m));
    UriWellFormed(server, r1, m, uri, major, minor);
    var r2 := r1.(buf := b[q := '\0'], uri := UriAt(m));
    VersionFaults(r2, v);
    assert OnlyTextLeft(r2.buf, v) by {
      assert TextEndsAt(r2.buf, v, len);
    }
    if !Lacks(r2.buf, v, '\0') {
      FindCharStops(r2.buf, v, '\0');
      VersionInPlace(b, q, m, uri, major, minor);
      ScanWellFormed(CString(r2.buf, v), major, minor, (r.major, r.minor));
    }
  }

  lemma NoReturn(b: seq<char>, len: nat, m: Method, uri: string, major: nat, minor: nat)
    requires Supported(major, minor) && IsUri(uri) && HeadInPlace(b, m, uri, major, minor)
    requires b[UriEnd(m, uri)] == ' ' && VersionAt(m, uri) + 8 < len <= |b| && b[VersionAt(m, uri) + 8] == '\n'
    ensures CutLine(b, len) == Some(b)
  {
    var v := VersionAt(m, uri);
    HeadHasNoFeed(b, m, uri, major, minor);
    FindCharIs(b[..len], 0, '\n', v + 8);
    assert b[v + 7] == b[v..v + 8][7] == Version(major, minor)[7];
  }

  /** The version's text after the URI was ended. */
  lemma VersionInPlace(b: seq<char>, q: nat, m: Method, uri: string, major: nat, minor: nat)
    requires Supported(major, minor) && HeadInPlace(b, m, uri, major, minor) && q == UriEnd(m, uri)
    requires VersionAt(m, uri) + 8 < |b| && b[VersionAt(m, uri) + 8] == '\n'
    ensures
      var s, b' := CString(b[q := '\0'], VersionAt(m, uri)), b[q := '\0'];
      |s| >= 8 && s[..8] == Version(major, minor) && (|s| > 8 ==> !IsDigit(s[8]))
  {
    var v, b' := VersionAt(m, uri), b[q := '\0'];
    assert b'[v..v + 8] == b[v..v + 8];
    forall k | v <= k < v + 8 ensures b'[k] != '\0' {
      VersionLetters(major, minor, k - v);
      assert b'[k] == b'[v..v + 8][k - v];
    }
    var end := FindChar(b', v, '\0');
    FindCharStops(b', v, '\0');
    assert end >= v + 8;
    assert b'[v..end][..8] == b'[v..v + 8];
  }

  // ---------- Requests without a version ----------

  lemma ShortLayout(b: seq<char>, m: Method, uri: string, ending: string)
    requires ReadInto(b, MethodName(m) + " " + uri + ending)
    ensures b[..|MethodName(m)|] == MethodName(m) && b[|MethodName(m)|] == ' '
    ensures forall k | 0 <= k < |uri| :: b[UriAt(m) + k] == uri[k]
    ensures forall k | 0 <= k < |ending| :: b[UriAt(m) + |uri| + k] == ending[k]
    ensures forall k | UriAt(m) + |uri| + |ending| <= k < |b| :: b[k] == '\0'
  {
    hide MethodName;
    var t := MethodName(m) + " " + uri + ending;
    assert forall k | 0 <= k < |t| :: b[k] == b[..|t|][k] == t[k];
  }

  /** The first line, where the method is followed by nothing but a URI. */
  lemma ShortLineCut(b: seq<char>, len: nat, m: Method, uri: string, ending: string)
    requires ReadInto(b, MethodName(m) + " " + uri + ending) && len == |MethodName(m) + " " + uri + ending|
    requires IsUri(uri) && (ending == "\n" || ending == "\r\n")
    ensures
      var cut := CutLine(b, len);
      cut == Some(b) || (cut == Some(b[len - 2 := '\0']) && len - 2 >= UriAt(m))
  {
    ShortLayout(b, m, uri, ending);
    forall k | 0 <= k < len - 1 ensures b[k] != '\n' {
      if k < |MethodName(m)| {
        MethodLetters(m, k);
        assert b[k] == b[..|MethodName(m)|][k];
      } else if UriAt(m) <= k < UriAt(m) + |uri| {
        assert b[k] == uri[k - UriAt(m)];
      } else if k >= UriAt(m) + |uri| {
        assert b[k] == ending[k - UriAt(m) - |uri|];
      }
    }
    assert b[len - 1] == ending[|ending| - 1] == '\n';
    FindCharIs(b[..len], 0, '\n', len - 1);
  }

  /** A request line that stops behind the URI, as HTTP/0.9 allows, drives the parser out of the
      buffer whatever the file: the search for a space never stops. */
  lemma NoVersionFaults(server: Server, r: Req, len: nat, m: Method, uri: string, ending: string)
    requires ReadInto(r.buf, MethodName(m) + " " + uri + ending) && len == |MethodName(m) + " " + uri + ending|
    requires IsUri(uri) && (ending == "\n" || ending == "\r\n")
    ensures ParseRequest(server, r, len).0 == Fault
  {
    hide MethodName, MethodStage, UriStage, VersionStage, CutLine, ParseFrom, FindChar;
    var u := UriAt(m);
    ShortLineCut(r.buf, len, m, uri, ending);
    ShortLayout(r.buf, m, uri, ending);
    var r1 := r.(buf := CutLine(r.buf, len).value);
    assert r1.buf[..|MethodName(m)|] == r.buf[..|MethodName(m)|];
    assert r.buf[u + 0] == uri[0];
    MethodFound(r1, m);
    forall k | u <= k < |r.buf| ensures r1.buf[k] != ' ' {
      if k < u + |uri| {
        assert r.buf[u + (k - u)] == uri[k - u];
      } else if k < u + |uri| + |ending| {
        assert r.buf[u + |uri| + (k - u - |uri|)] == ending[k - u - |uri|];
      }
    }
    UriFaults(server, r1.(kind := Some(m)), u);
  }

  // ---------- Inputs ----------

  /** A request without a line feed, or with nothing before the first, always faults. */
  lemma NoLineAlwaysFaults(server: Server, r: Req, len: nat)
    requires len <= |r.buf| && NoLine(r.buf, len)
    ensures ParseRequest(server, r, len) == (Fault, r)
  {
    NoLineFaults(r.buf, len);
  }

  function Zeroed(text: string, pad: nat): seq<char> {
    text + seq(pad, _ => '\0')
  }

  /** The shortest request without a line, ... */
  lemma EmptyLineHappens(server: Server, r: Req, pad: nat)
    ensures ParseRequest(server, r.(buf := Zeroed("\n", pad)), 1).0 == Fault
  {
    hide ParseRequest;
    NoLineAlwaysFaults(server, r.(buf := Zeroed("\n", pad)), 1);
  }

  /** ... one without a version, ... */
  lemma NoVersionHappens(server: Server, r: Req, pad: nat)
    ensures ParseRequest(server, r.(buf := Zeroed("GET /\r\n", pad)), 7).0 == Fault
  {
    hide ParseRequest;
    var text := MethodName(GET) + " " + "/" + "\r\n";
    assert text == "GET /\r\n";
    NoVersionFaults(server, r.(buf := Zeroed(text, pad)), 7, GET, "/", "\r\n");
  }

  /** ... and one whose line ends in a bare line feed, in a buffer with any room behind them. */
  lemma BareFeedHappens(server: Server, r: Req, pad: nat)
    requires server.files(Path(server.root, "/")) == Regular
    ensures ParseRequest(server, r.(buf := Zeroed("GET / HTTP/1.1\n", pad)), 15).0 == Fault
  {
    hide ParseRequest, Path;
    var text := RequestText(GET, "/", 1, 1, "\n", "");
    assert text == "GET / HTTP/1.1\n";
    assert ReadInto(Zeroed(text, pad), text);
    hide RequestText, ReadInto, Zeroed;
    BareFeedFaults(server, r.(buf := Zeroed(text, pad)), GET, "/", 1, 1, "\n", "");
  }
}
