/** Well-formed requests, section 5.1 of RFC 2616, are accepted and come out as they went in. */
module RequestLaws {
  import opened Options
  import opened CStrings
  import opened Headers
  import opened HeaderLaws
  import opened Request
  import opened HttpHeaders

  function Version(major: nat, minor: nat): string
    requires Supported(major, minor)
  {
    "HTTP/" + ["0123456789"[major]] + "." + ["0123456789"[minor]]
  }

  predicate IsUri(uri: string) {
    uri != "" && forall k | 0 <= k < |uri| :: uri[k] != ' ' && uri[k] != '\n' && uri[k] != '\0'
  }

  /** A request in print: the request line and the lines behind it, the empty one included. */
  function Render(m: Method, uri: string, major: nat, minor: nat, lines: seq<Line>): string
    requires Supported(major, minor)
  {
    MethodName(m) + " " + uri + " " + Version(major, minor) + "\r\n" + PrintAll(lines)
  }

  // ---------- Positions in the request line ----------

  function UriAt(m: Method): nat { |MethodName(m)| + 1 }
  function UriEnd(m: Method, uri: string): nat { UriAt(m) + |uri| }
  function VersionAt(m: Method, uri: string): nat { UriEnd(m, uri) + 1 }
  function LineEnd(m: Method, uri: string): nat { VersionAt(m, uri) + 9 }

  /** Method, URI and version are in place. */
  predicate HeadInPlace(b: seq<char>, m: Method, uri: string, major: nat, minor: nat)
    requires Supported(major, minor)
  {
    var v := VersionAt(m, uri);
    && v + 8 <= |b|
    && b[..|MethodName(m)|] == MethodName(m) && b[|MethodName(m)|] == ' '
    && b[UriAt(m)..UriEnd(m, uri)] == uri
    && b[v..v + 8] == Version(major, minor)
  }

  /** The request line is in place; its CR may be cleared already. */
  predicate LineInPlace(b: seq<char>, m: Method, uri: string, major: nat, minor: nat)
    requires Supported(major, minor)
  {
    LineEnd(m, uri) < |b| && b[LineEnd(m, uri)] == '\n' && HeadInPlace(b, m, uri, major, minor)
  }

  /** A request whose first line ends in `ending`. */
  function RequestText(m: Method, uri: string, major: nat, minor: nat, ending: string, rest: string): string
    requires Supported(major, minor)
  {
    MethodName(m) + " " + uri + " " + Version(major, minor) + ending + rest
  }

  lemma TextLayout(b: seq<char>, m: Method, uri: string, major: nat, minor: nat, ending: string, rest: string)
    requires Supported(major, minor)
    requires
      var t := RequestText(m, uri, major, minor, ending, rest);
      |t| <= |b| && b[..|t|] == t
    ensures
      var f := VersionAt(m, uri) + 8;
      && |RequestText(m, uri, major, minor, ending, rest)| == f + |ending| + |rest|
      && HeadInPlace(b, m, uri, major, minor) && b[UriEnd(m, uri)] == ' '
      && b[f..f + |ending|] == ending && b[f + |ending|..f + |ending| + |rest|] == rest
  {
    hide MethodName, Version;
    var t, n, u, v := RequestText(m, uri, major, minor, ending, rest), |MethodName(m)|, UriAt(m), VersionAt(m, uri);
    VersionLength(major, minor);
    Pieces(t, MethodName(m), uri, Version(major, minor), ending, rest);
    hide RequestText;
    SubText(b, t, 0, n, MethodName(m));
    SubText(b, t, n, n + 1, " ");
    SubText(b, t, u, u + |uri|, uri);
    SubText(b, t, v - 1, v, " ");
    SubText(b, t, v, v + 8, Version(major, minor));
    SubText(b, t, v + 8, v + 8 + |ending|, ending);
    SubText(b, t, v + 8 + |ending|, |t|, rest);
    assert b[0..n] == b[..n] && b[n] == b[n..n + 1][0] && b[v - 1] == b[v - 1..v][0];
  }

  lemma SubText(b: seq<char>, t: string, i: nat, j: nat, x: string)
    requires i <= j <= |t| <= |b| && b[..|t|] == t && t[i..j] == x
    ensures b[i..j] == x
  {
    assert forall k | i <= k < j :: b[k] == b[..|t|][k];
  }

  lemma Pieces(t: string, name: string, uri: string, version: string, ending: string, rest: string)
    requires t == name + " " + uri + " " + version + ending + rest
    ensures
      var u := |name| + 1;
      var v := u + |uri| + 1;
      var f := v + |version|;
      && |t| == f + |ending| + |rest|
      && t[0..|name|] == name && t[|name|..u] == " " && t[u..u + |uri|] == uri && t[v - 1..v] == " "
      && t[v..f] == version && t[f..f + |ending|] == ending && t[f + |ending|..|t|] == rest
  {}

  lemma VersionLength(major: nat, minor: nat)
    requires Supported(major, minor)
    ensures |Version(major, minor)| == 8
  {}

  lemma RenderLayout(b: seq<char>, len: nat, m: Method, uri: string, major: nat, minor: nat, lines: seq<Line>)
    requires Supported(major, minor) && len <= |b| && b[..len] == Render(m, uri, major, minor, lines)
    ensures LineInPlace(b, m, uri, major, minor)
    ensures LineEnd(m, uri) < len && b[UriEnd(m, uri)] == ' '
    ensures b[LineEnd(m, uri) - 1] == '\r' && b[LineEnd(m, uri)] == '\n'
    ensures b[LineEnd(m, uri) + 1..len] == PrintAll(lines)
  {
    hide PrintAll, HeadInPlace;
    var f := LineEnd(m, uri);
    RenderIsText(m, uri, major, minor, lines);
    hide Render, RequestText;
    TextLayout(b, m, uri, major, minor, "\r\n", PrintAll(lines));
    assert b[f - 1] == b[f - 1..f + 1][0] && b[f] == b[f - 1..f + 1][1];
  }

  lemma RenderIsText(m: Method, uri: string, major: nat, minor: nat, lines: seq<Line>)
    requires Supported(major, minor)
    ensures Render(m, uri, major, minor, lines) == RequestText(m, uri, major, minor, "\r\n", PrintAll(lines))
  {
    hide PrintAll, MethodName, Version;
  }

  // ---------- The searches ----------

  lemma MethodLetters(m: Method, k: nat)
    requires k < |MethodName(m)|
    ensures 'A' <= MethodName(m)[k] <= 'Z'
  {}

  lemma VersionLetters(major: nat, minor: nat, k: nat)
    requires Supported(major, minor) && k < 8
    ensures |Version(major, minor)| == 8
    ensures Version(major, minor)[k] != '\n' && Version(major, minor)[k] != '\0' && Version(major, minor)[k] != ' '
  {}

  lemma HeadHasNoFeed(b: seq<char>, m: Method, uri: string, major: nat, minor: nat)
    requires Supported(major, minor) && IsUri(uri) && HeadInPlace(b, m, uri, major, minor)
    requires b[UriEnd(m, uri)] == ' '
    ensures forall k | 0 <= k < VersionAt(m, uri) + 8 :: b[k] != '\n'
  {
    forall k | 0 <= k < VersionAt(m, uri) + 8 ensures b[k] != '\n' {
      if k < |MethodName(m)| {
        MethodLetters(m, k);
        assert b[k] == b[..|MethodName(m)|][k];
      } else if UriAt(m) <= k < UriEnd(m, uri) {
        assert b[k] == uri[k - UriAt(m)];
      } else if VersionAt(m, uri) <= k {
        VersionLetters(major, minor, k - VersionAt(m, uri));
        assert b[k] == Version(major, minor)[k - VersionAt(m, uri)];
      }
    }
  }

  // ---------- The stages ----------

  lemma CutWellFormed(b: seq<char>, len: nat, m: Method, uri: string, major: nat, minor: nat)
    requires Supported(major, minor) && IsUri(uri) && LineInPlace(b, m, uri, major, minor)
    requires b[UriEnd(m, uri)] == ' ' && b[LineEnd(m, uri) - 1] == '\r' && LineEnd(m, uri) < len <= |b|
    ensures CutLine(b, len) == Some(b[LineEnd(m, uri) - 1 := '\0'])
  {
    HeadHasNoFeed(b, m, uri, major, minor);
    FindCharIs(b[..len], 0, '\n', LineEnd(m, uri));
  }

  lemma {:induction false} FindMethodIs(b: seq<char>, i: nat, m: Method, k: nat)
    requires k <= |METHODS| && BeginsAt(b, i, MethodName(m))
    requires exists x | k <= x < |METHODS| :: METHODS[x] == m
    ensures FindMethod(b, i, k) == Some(m)
    decreases |METHODS| - k
  {
    var other := METHODS[k];
    if BeginsAt(b, i, MethodName(other)) {
      NamesTellMethods(b, i, m, other);
    } else {
      FindMethodIs(b, i, m, k + 1);
    }
  }

  lemma NamesTellMethods(b: seq<char>, i: nat, m: Method, n: Method)
    requires BeginsAt(b, i, MethodName(m)) && BeginsAt(b, i, MethodName(n))
    ensures m == n
  {
    assert b[i] == b[i..i + |MethodName(m)|][0] == b[i..i + |MethodName(n)|][0];
    assert b[i + 1] == b[i..i + |MethodName(m)|][1] == b[i..i + |MethodName(n)|][1];
  }

  lemma MethodFound(r: Req, m: Method)
    requires UriAt(m) < |r.buf| && r.buf[..|MethodName(m)|] == MethodName(m)
    requires r.buf[|MethodName(m)|] == ' ' && r.buf[UriAt(m)] != ' '
    ensures MethodStage(r) == Next(r.(kind := Some(m)), UriAt(m))
  {
    var b, n := r.buf, |MethodName(m)|;
    MethodLetters(m, 0);
    assert b[0] == b[..n][0];
    assert SkipChar(b, 0, ' ') == 0;
    assert b[0..n] == b[..n];
    assert METHODS[0] == GET && METHODS[1] == POST && METHODS[2] == PUT && METHODS[3] == DELETE && METHODS[4] == HEAD;
    FindMethodIs(b, 0, m, 0);
    assert SkipChar(b, n, ' ') == SkipChar(b, n + 1, ' ') == n + 1;
  }

  lemma MethodWellFormed(r: Req, m: Method, uri: string, major: nat, minor: nat)
    requires Supported(major, minor) && IsUri(uri) && HeadInPlace(r.buf, m, uri, major, minor)
    ensures MethodStage(r) == Next(r.(kind := Some(m)), UriAt(m))
  {
    hide MethodStage, MethodName, Version;
    var b := r.buf;
    assert b[UriAt(m)] == b[UriAt(m)..UriEnd(m, uri)][0] != ' ';
    MethodFound(r, m);
  }

  lemma UriWellFormed(server: Server, r: Req, m: Method, uri: string, major: nat, minor: nat)
    requires Supported(major, minor) && IsUri(uri) && HeadInPlace(r.buf, m, uri, major, minor)
    requires r.buf[UriEnd(m, uri)] == ' '
    ensures
      var r' := r.(buf := r.buf[UriEnd(m, uri) := '\0'], uri := UriAt(m));
      UriStage(server, r, UriAt(m)) ==
      match server.files(Path(server.root, uri))
      case Missing => Done(Reply(404), r')
      case Directory => Done(Reply(403), r')
      case Regular => Next(r', VersionAt(m, uri))
  {
    hide Version, MethodName, Path, FindChar;
    var b, u, q := r.buf, UriAt(m), UriEnd(m, uri);
    assert forall k | u <= k < q :: b[k] == uri[k - u];
    FindCharIs(b, u, ' ', q);
    var b' := b[q := '\0'];
    FindCharIs(b', u, '\0', q);
    assert CString(b', u) == uri;
    VersionLetters(major, minor, 0);
    assert b'[q + 1] == b[q + 1..q + 9][0] != ' ';
  }

  lemma ScanWellFormed(s: string, major: nat, minor: nat, was: (nat, nat))
    requires Supported(major, minor)
    requires |s| >= 8 && s[..8] == Version(major, minor) && (|s| > 8 ==> !IsDigit(s[8]))
    ensures ScanVersion(s, was.0, was.1) == (major, minor)
  {
    var v := Version(major, minor);
    assert s[0..5] == v[..5] == "HTTP/";
    assert s[5] == v[5] == "0123456789"[major] && s[6] == v[6] == '.' && s[7] == v[7] == "0123456789"[minor];
    ScanDigit(s, 5, major);
    ScanDigit(s, 7, minor);
  }

  lemma ScanDigit(s: string, i: nat, d: nat)
    requires i < |s| && d < 10 && s[i] == "0123456789"[d] && (i + 1 < |s| ==> !IsDigit(s[i + 1]))
    ensures ScanNumber(s, i) == Some((d, i + 1))
  {
    assert s[i] == '0' + d as char;
    assert EndOfSpace(s, i) == i && EndOfDigits(s, i) == i + 1;
    assert s[i..i + 1] == [s[i]] && Decimal(s[i..i + 1], 0) == d;
  }

  lemma VersionWellFormed(r: Req, m: Method, uri: string, major: nat, minor: nat)
    requires Supported(major, minor) && LineInPlace(r.buf, m, uri, major, minor)
    requires r.buf[LineEnd(m, uri) - 1] == '\0'
    ensures VersionStage(r, VersionAt(m, uri)) == Next(r.(major := major, minor := minor), LineEnd(m, uri))
  {
    hide ScanVersion;
    var b, v, c := r.buf, VersionAt(m, uri), LineEnd(m, uri) - 1;
    forall k | v <= k < c ensures b[k] != '\0' {
      VersionLetters(major, minor, k - v);
      assert b[k] == b[v..c][k - v];
    }
    FindCharIs(b, v, '\0', c);
    assert CString(b, v) == Version(major, minor);
    assert SkipChar(b, c, '\0') == SkipChar(b, c + 1, '\0') == c + 1;
    ScanWellFormed(Version(major, minor), major, minor, (r.major, r.minor));
  }

  /** The lines the header parser is given: what is left of the request line, and the others. */
  function Block(lines: seq<Line>): seq<Line> {
    [Unknown("", "\n")] + lines
  }

  lemma BlockText(lines: seq<Line>)
    ensures PrintAll(Block(lines)) == "\n" + PrintAll(lines)
  {
    assert Block(lines)[1..] == lines;
  }

  /** The request after its line was parsed. */
  function LineParsed(r: Req, m: Method, uri: string, major: nat, minor: nat): Req
    requires LineEnd(m, uri) < |r.buf|
  {
    Req(r.buf[LineEnd(m, uri) - 1 := '\0'][UriEnd(m, uri) := '\0'], Some(m), UriAt(m), major, minor, r.headers)
  }

  /** A request line that ends in CRLF gets the status its file decides. */
  lemma LineAccepted(server: Server, r: Req, len: nat, m: Method, uri: string, major: nat, minor: nat)
    requires Supported(major, minor) && IsUri(uri) && LineInPlace(r.buf, m, uri, major, minor)
    requires r.buf[UriEnd(m, uri)] == ' ' && r.buf[LineEnd(m, uri) - 1] == '\r' && LineEnd(m, uri) < len <= |r.buf|
    ensures
      var (outcome, r') := ParseRequest(server, r, len);
      var file, done := server.files(Path(server.root, uri)), LineParsed(r, m, uri, major, minor);
      && outcome == Reply(match file case Missing => 404 case Directory => 403 case Regular => 200)
      && (file == Regular ==>
            r' == done.(headers := ParseFrom(server.table, done.buf, LineEnd(m, uri), len, r.headers)))
      && LineInPlace(done.buf, m, uri, major, minor)
  {
    hide CutLine, MethodStage, UriStage, VersionStage, ParseFrom, LineInPlace, HeadInPlace;
    hide Version, IsUri, MethodName, Path;
    var q, f := UriEnd(m, uri), LineEnd(m, uri);
    CutWellFormed(r.buf, len, m, uri, major, minor);
    var b1 := r.buf[f - 1 := '\0'];
    StillInPlace(r.buf, f - 1, m, uri, major, minor);
    var r1 := r.(buf := b1);
    MethodWellFormed(r1, m, uri, major, minor);
    var r2 := r1.(kind := Some(m));
    UriWellFormed(server, r2, m, uri, major, minor);
    StillInPlace(b1, q, m, uri, major, minor);
    if server.files(Path(server.root, uri)) == Regular {
      VersionWellFormed(r2.(buf := b1[q := '\0'], uri := UriAt(m)), m, uri, major, minor);
    }
  }

  /** Every rendered request is accepted, whatever follows it in the buffer, exactly if its
      file is there and is no directory. The method, the URI and the version are those
      rendered, and the header parser is given exactly the rest of the request. */
  lemma RenderedRequestAccepted(server: Server, r: Req, len: nat, m: Method, uri: string, major: nat, minor: nat,
                                lines: seq<Line>)
    requires Supported(major, minor) && IsUri(uri) && len <= |r.buf|
    requires r.buf[..len] == Render(m, uri, major, minor, lines)
    ensures
      var (outcome, r') := ParseRequest(server, r, len);
      var file := server.files(Path(server.root, uri));
      && outcome == Reply(match file case Missing => 404 case Directory => 403 case Regular => 200)
      && (file == Regular ==> Accepted(server, r, r', len, m, uri, major, minor, lines))
  {
    hide ParseRequest, ParseFrom, PrintAll, CString, LineInPlace, Render, Version, IsUri, MethodName, Path, Block;
    var f := LineEnd(m, uri);
    RenderLayout(r.buf, len, m, uri, major, minor, lines);
    LineAccepted(server, r, len, m, uri, major, minor);
    var b := LineParsed(r, m, uri, major, minor).buf;
    BlockText(lines);
    assert b[f..len] == ['\n'] + r.buf[f + 1..len];
    UriKept(b, m, uri, major, minor);
  }

  ghost predicate Accepted(server: Server, r: Req, r': Req, len: nat, m: Method, uri: string, major: nat, minor: nat,
                           lines: seq<Line>)
    requires len <= |r.buf|
  {
    && r'.kind == Some(m) && r'.major == major && r'.minor == minor
    && |r'.buf| == |r.buf| && r'.uri <= |r'.buf| && CString(r'.buf, r'.uri) == uri
    && LineEnd(m, uri) <= len && r'.buf[LineEnd(m, uri)..len] == PrintAll(Block(lines))
    && r'.headers == ParseFrom(server.table, r'.buf, LineEnd(m, uri), len, r.headers)
  }

  lemma StillInPlace(b: seq<char>, k: nat, m: Method, uri: string, major: nat, minor: nat)
    requires Supported(major, minor) && LineInPlace(b, m, uri, major, minor)
    requires k == UriEnd(m, uri) || k == LineEnd(m, uri) - 1
    ensures LineInPlace(b[k := '\0'], m, uri, major, minor)
  {}

  lemma UriKept(b: seq<char>, m: Method, uri: string, major: nat, minor: nat)
    requires Supported(major, minor) && IsUri(uri) && LineInPlace(b, m, uri, major, minor)
    requires b[UriEnd(m, uri)] == '\0'
    ensures CString(b, UriAt(m)) == uri
  {
    assert forall k | UriAt(m) <= k < UriEnd(m, uri) :: b[k] == uri[k - UriAt(m)];
    FindCharIs(b, UriAt(m), '\0', UriEnd(m, uri));
  }

  // ---------- Any request ----------

  /** The characters of the buffer that a parse may clear. */
  predicate Cleared(before: char, after: char) {
    after == before || (after == '\0' && (before == '\r' || before == ' '))
  }

  lemma CutClearsReturn(b: seq<char>, len: nat, k: nat)
    requires len <= |b| && k < |b| && CutLine(b, len).Some?
    ensures Cleared(b[k], CutLine(b, len).value[k])
  {}

  lemma UriClearsSpace(server: Server, r: Req, p: nat, k: nat)
    requires p <= |r.buf| && k < |r.buf|
    ensures Cleared(r.buf[k], UriStage(server, r, p).r.buf[k])
    ensures r.buf[k] == '\0' ==> UriStage(server, r, p).r.buf[k] == '\0'
    ensures UriStage(server, r, p).Next? ==>
              var r' := UriStage(server, r, p).r;
              r'.uri == p && server.files(Path(server.root, CString(r'.buf, p))) == Regular
  {
    hide Path;
    FindCharStops(r.buf, p, ' ');
  }

  /** Whatever the request, the parser writes nothing but NULs over a CR or over spaces, and
      what it accepts has a method, a supported version and a file that is there. */
  lemma AnyRequest(server: Server, r: Req, len: nat, k: nat)
    requires len <= |r.buf| && k < |r.buf|
    ensures
      var (outcome, r') := ParseRequest(server, r, len);
      && |r'.buf| == |r.buf| && Cleared(r.buf[k], r'.buf[k])
      && outcome in {Fault, Reply(200), Reply(400), Reply(403), Reply(404), Reply(505)}
      && (outcome == Reply(200) ==>
            r'.kind.Some? && Supported(r'.major, r'.minor) && r'.uri <= |r'.buf| &&
            server.files(Path(server.root, CString(r'.buf, r'.uri))) == Regular)
  {
    hide CString, Path, ParseFrom, ScanVersion, FindMethod, Supported;
    var cut := CutLine(r.buf, len);
    if cut.Some? {
      CutClearsReturn(r.buf, len, k);
      var s := MethodStage(r.(buf := cut.value));
      if s.Next? {
        UriClearsSpace(server, s.r, s.p, k);
      }
    }
  }

  // ---------- The server's own table ----------

  lemma {:induction false} NoNameBegins(text: string, i: nat)
    requires i <= |HttpTable()| && (text == "" || text[0] == '\r')
    ensures NoneBegins(text, HttpTable(), i)
    decreases |HttpTable()| - i
  {
    hide NameOf;
    if i < |HttpTable()| {
      NameIsValid(FIELDS[i]);
      NoNameBegins(text, i + 1);
    }
  }

  /** Whole-request round trip: a rendered request is accepted with its method, URI and version,
      and every header of the table has in the result what the last line naming it says, with
      the name in any letter case, or what it had before. */
  lemma RequestRoundTrip(root: string, files: string -> File, r: Req, len: nat,
                         m: Method, uri: string, major: nat, minor: nat, lines: seq<Line>, f: Field)
    requires Supported(major, minor) && IsUri(uri) && AllPrintable(HttpTable(), lines) && len <= |r.buf|
    requires r.buf[..len] == Render(m, uri, major, minor, lines)
    requires files(Path(root, uri)) == Regular
    ensures
      var (outcome, r') := ParseRequest(Server(HttpTable(), root, files), r, len);
      && outcome == Reply(200) && r'.kind == Some(m) && r'.major == major && r'.minor == minor
      && r'.uri <= |r'.buf| && CString(r'.buf, r'.uri) == uri
      && AllPrintable(HttpTable(), Block(lines))
      && LastLineWins(HttpTable(), Block(lines), r'.buf, r'.headers, r.headers, f)
  {
    hide Render, IsUri, AllPrintable, ParseRequest, CString, ParseFrom, PrintAll;
    hide Block, Path, LastLineWins, LineEnd, HttpTable;
    RenderedRequestAccepted(Server(HttpTable(), root, files), r, len, m, uri, major, minor, lines);
    var (_, r') := ParseRequest(Server(HttpTable(), root, files), r, len);
    BlockPrintable(lines);
    HttpTableValid();
    PrintedHeadersParseBack(HttpTable(), Block(lines), r'.buf, LineEnd(m, uri), len, r.headers, f);
  }

  lemma BlockPrintable(lines: seq<Line>)
    requires AllPrintable(HttpTable(), lines)
    ensures AllPrintable(HttpTable(), Block(lines))
  {
    hide HttpTable, NoneBegins;
    NoNameBegins("", 0);
    forall i | 0 < i < |Block(lines)| ensures Block(lines)[i] == lines[i - 1] {}
  }

  /** The empty line is one of those the table does not know. */
  lemma EmptyLinePrintable()
    ensures Printable(HttpTable(), Unknown("\r", "\n")) && Print(Unknown("\r", "\n")) == "\r\n"
  {
    hide HttpTable, NoneBegins;
    NoNameBegins("\r", 0);
  }
}
