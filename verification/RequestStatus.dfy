/** Which status a request gets, stated over its text: any blanks, any version, any method. */
module RequestStatus {
  import opened Options
  import opened CStrings
  import opened Headers
  import opened Request
  import opened RequestLaws
  import opened RequestFaults

  predicate Spaces(b: seq<char>, i: nat, j: nat) {
    i <= j <= |b| && forall k | i <= k < j :: b[k] == ' '
  }

  lemma SkipCharIs(b: seq<char>, i: nat, c: char, k: nat)
    requires i <= k < |b| && b[k] != c && forall j | i <= j < k :: b[j] == c
    ensures SkipChar(b, i, c) == k
  {
    SkipCharStops(b, i, c);
  }

  // ---------- A request line, wherever its parts are ----------

  /** Where the parts of a request line are: the method after any blanks, the URI, the text of the
      version and the CR of its CRLF. */
  datatype Parts = Parts(name: nat, uri: nat, uriEnd: nat, version: nat, end: nat)

  ghost predicate LineAt(b: seq<char>, len: nat, m: Method, l: Parts) {
    var n := l.name + |MethodName(m)|;
    && n <= l.uri < l.uriEnd < l.version <= l.end && l.end + 1 < len <= |b|
    && Spaces(b, 0, l.name) && b[l.name..n] == MethodName(m) && Spaces(b, n, l.uri)
    && (forall k | l.uri <= k < l.uriEnd :: b[k] != ' ' && b[k] != '\n' && b[k] != '\0')
    && Spaces(b, l.uriEnd, l.version) && b[l.version] != ' '
    && (forall k | l.version <= k < l.end :: b[k] != '\n' && b[k] != '\0')
    && b[l.end] == '\r' && b[l.end + 1] == '\n'
  }

  lemma NameHasNoBlank(b: seq<char>, m: Method, i: nat)
    requires i + |MethodName(m)| <= |b| && b[i..i + |MethodName(m)|] == MethodName(m)
    ensures forall k | i <= k < i + |MethodName(m)| :: 'A' <= b[k] <= 'Z'
  {
    hide MethodName;
    forall k | i <= k < i + |MethodName(m)| ensures 'A' <= b[k] <= 'Z' {
      MethodLetters(m, k - i);
      assert b[k] == b[i..i + |MethodName(m)|][k - i];
    }
  }

  lemma NameNotEmpty(m: Method)
    ensures |MethodName(m)| > 0
  {}

  lemma CutAt(b: seq<char>, len: nat, m: Method, l: Parts)
    requires LineAt(b, len, m, l)
    ensures CutLine(b, len) == Some(b[l.end := '\0'])
  {
    hide MethodName;
    NameHasNoBlank(b, m, l.name);
    FindCharIs(b[..len], 0, '\n', l.end + 1);
  }

  lemma AllMethods(m: Method)
    ensures exists k | 0 <= k < |METHODS| :: METHODS[k] == m
  {
    assert METHODS[0] == GET && METHODS[1] == POST && METHODS[2] == PUT && METHODS[3] == DELETE && METHODS[4] == HEAD;
  }

  lemma MethodAt(r: Req, len: nat, m: Method, l: Parts)
    requires LineAt(r.buf, len, m, l)
    ensures
      var r1 := r.(buf := r.buf[l.end := '\0']);
      MethodStage(r1) == Next(r1.(kind := Some(m)), l.uri)
  {
    hide MethodName, FindMethod;
    var b, n := r.buf[l.end := '\0'], l.name + |MethodName(m)|;
    NameHasNoBlank(r.buf, m, l.name);
    NameNotEmpty(m);
    assert b[l.name..n] == r.buf[l.name..n];
    SkipCharIs(b, 0, ' ', l.name);
    AllMethods(m);
    FindMethodIs(b, l.name, m, 0);
    SkipCharIs(b, n, ' ', l.uri);
  }

  lemma UriAtParts(server: Server, r: Req, len: nat, m: Method, l: Parts)
    requires LineAt(r.buf, len, m, l)
    ensures
      var r1 := r.(buf := r.buf[l.end := '\0'], kind := Some(m));
      var r2 := r1.(buf := r1.buf[l.uriEnd := '\0'], uri := l.uri);
      UriStage(server, r1, l.uri) ==
      match server.files(Path(server.root, r.buf[l.uri..l.uriEnd]))
      case Missing => Done(Reply(404), r2)
      case Directory => Done(Reply(403), r2)
      case Regular => Next(r2, l.version)
  {
    hide MethodName, Path;
    var b1 := r.buf[l.end := '\0'];
    var b2 := b1[l.uriEnd := '\0'];
    FindCharIs(b1, l.uri, ' ', l.uriEnd);
    FindCharIs(b2, l.uri, '\0', l.uriEnd);
    assert b2[l.uri..l.uriEnd] == r.buf[l.uri..l.uriEnd];
    SkipCharIs(b2, l.uriEnd + 1, ' ', l.version);
  }

  lemma VersionAtParts(b: seq<char>, len: nat, m: Method, l: Parts, r2: Req)
    requires LineAt(b, len, m, l) && r2.buf == b[l.end := '\0'][l.uriEnd := '\0']
    ensures
      var (major, minor) := ScanVersion(b[l.version..l.end], r2.major, r2.minor);
      var r3 := r2.(major := major, minor := minor);
      VersionStage(r2, l.version) == if Supported(major, minor) then Next(r3, l.end + 1) else Done(Reply(505), r3)
  {
    hide MethodName, ScanVersion, Supported;
    FindCharIs(r2.buf, l.version, '\0', l.end);
    assert r2.buf[l.version..l.end] == b[l.version..l.end];
    SkipCharIs(r2.buf, l.end, '\0', l.end + 1);
  }

  /** The answer to every request whose line has a method, a URI and a CRLF, with any blanks and any
      text for a version: its file is looked at first, then its version, and once both are accepted
      the header parser is given all that follows the CR. */
  lemma LineAnswered(server: Server, r: Req, len: nat, m: Method, l: Parts)
    requires LineAt(r.buf, len, m, l)
    ensures
      var (outcome, r') := ParseRequest(server, r, len);
      var (major, minor) := ScanVersion(r.buf[l.version..l.end], r.major, r.minor);
      var b := r.buf[l.end := '\0'][l.uriEnd := '\0'];
      match server.files(Path(server.root, r.buf[l.uri..l.uriEnd]))
      case Missing => outcome == Reply(404)
      case Directory => outcome == Reply(403)
      case Regular =>
        if !Supported(major, minor) then outcome == Reply(505)
        else outcome == Reply(200) &&
             r' == Req(b, Some(m), l.uri, major, minor, ParseFrom(server.table, b, l.end + 1, len, r.headers))
  {
    hide CutLine, MethodStage, UriStage, VersionStage, ScanVersion, Supported, ParseFrom, Path, MethodName;
    CutAt(r.buf, len, m, l);
    MethodAt(r, len, m, l);
    UriAtParts(server, r, len, m, l);
    var r2 := Req(r.buf[l.end := '\0'][l.uriEnd := '\0'], Some(m), l.uri, r.major, r.minor, r.headers);
    VersionAtParts(r.buf, len, m, l, r2);
  }

  // ---------- Versions ----------

  predicate AllDigits(s: string) {
    forall k | 0 <= k < |s| :: '0' <= s[k] <= '9'
  }

  /** The number a string of digits writes, most significant first. */
  function ValueOf(s: string): nat
    requires AllDigits(s)
  {
    if s == "" then 0 else 10 * ValueOf(s[..|s| - 1]) + (s[|s| - 1] as int - '0' as int)
  }

  lemma {:induction false} DecimalSnoc(s: string, c: char, acc: nat)
    requires AllDigits(s) && '0' <= c <= '9'
    ensures Decimal(s + [c], acc) == 10 * Decimal(s, acc) + (c as int - '0' as int)
    decreases |s|
  {
    if s == "" {
      assert [c][1..] == "";
    } else {
      assert (s + [c])[1..] == s[1..] + [c];
      DecimalSnoc(s[1..], c, 10 * acc + (s[0] - '0') as nat);
    }
  }

  lemma {:induction false} DecimalIsValue(s: string)
    requires AllDigits(s)
    ensures Decimal(s, 0) == ValueOf(s)
    decreases |s|
  {
    if s != "" {
      DecimalIsValue(s[..|s| - 1]);
      DecimalSnoc(s[..|s| - 1], s[|s| - 1], 0);
      assert s[..|s| - 1] + [s[|s| - 1]] == s;
    }
  }

  lemma {:induction false} EndOfDigitsIs(s: string, i: nat, k: nat)
    requires i <= k <= |s| && (forall j | i <= j < k :: '0' <= s[j] <= '9')
    requires k < |s| ==> !('0' <= s[k] <= '9')
    ensures EndOfDigits(s, i) == k
    decreases k - i
  {
    if i < k {
      EndOfDigitsIs(s, i + 1, k);
    }
  }

  lemma {:induction false} EndOfSpaceIs(s: string, i: nat, k: nat)
    requires i <= k <= |s| && (forall j | i <= j < k :: s[j] == ' ' || '\t' <= s[j] <= '\r')
    requires k < |s| ==> s[k] != ' ' && !('\t' <= s[k] <= '\r')
    ensures EndOfSpace(s, i) == k
    decreases k - i
  {
    if i < k {
      EndOfSpaceIs(s, i + 1, k);
    }
  }

  /** A `%lu` conversion of blanks up to `j`, a sign if `signed`, and digits up to `k`: too large a
      number saturates, and any other one is negated modulo 2^64 behind a minus. */
  lemma ScanNumberIs(s: string, i: nat, j: nat, signed: bool, k: nat)
    requires i <= j && (if signed then j + 1 else j) < k <= |s|
    requires forall x | i <= x < j :: s[x] == ' ' || '\t' <= s[x] <= '\r'
    requires signed ==> s[j] == '+' || s[j] == '-'
    requires AllDigits(s[if signed then j + 1 else j..k]) && (k < |s| ==> !('0' <= s[k] <= '9'))
    ensures
      var n := ValueOf(s[if signed then j + 1 else j..k]);
      ScanNumber(s, i) == Some((
        if n >= 0x1_0000_0000_0000_0000 then 0xFFFF_FFFF_FFFF_FFFF
        else if signed && s[j] == '-' && n > 0 then 0x1_0000_0000_0000_0000 - n
        else n, k))
  {
    var start := if signed then j + 1 else j;
    var digits := s[start..k];
    assert forall x | start <= x < k :: s[x] == digits[x - start];
    EndOfSpaceIs(s, i, j);
    EndOfDigitsIs(s, start, k);
    DecimalIsValue(digits);
    assert s[j] in "+-" <==> signed by {
      assert "+-"[0] == '+' && "+-"[1] == '-';
    }
  }

  /** Two numbers with a dot, and anything that does not go on with the second. */
  lemma ScanVersionIs(s: string, major: nat, minor: nat, a: string, d: string, rest: string)
    requires s == "HTTP/" + a + "." + d + rest && a != "" && d != "" && AllDigits(a) && AllDigits(d)
    requires rest != "" ==> !('0' <= rest[0] <= '9')
    ensures ScanVersion(s, major, minor) == (Saturated(ValueOf(a)), Saturated(ValueOf(d)))
  {
    hide ScanNumber, ValueOf;
    var dot := 5 + |a|;
    var end := dot + 1 + |d|;
    VersionPieces(s, a, d, rest);
    ScanNumberIs(s, 5, 5, false, dot);
    ScanNumberIs(s, dot + 1, dot + 1, false, end);
  }

  function Saturated(n: nat): nat {
    if n >= 0x1_0000_0000_0000_0000 then 0xFFFF_FFFF_FFFF_FFFF else n
  }

  lemma VersionPieces(s: string, a: string, d: string, rest: string)
    requires s == "HTTP/" + a + "." + d + rest
    ensures
      var dot := 5 + |a|;
      var end := dot + 1 + |d|;
      && |s| == end + |rest| && BeginsAt(s, 0, "HTTP/") && s[5..dot] == a && s[dot] == '.'
      && s[dot + 1..end] == d && (rest != "" ==> s[end] == rest[0])
  {}

  /** A text that is no version leaves the one of the request before. */
  lemma NoVersionKept(s: string, major: nat, minor: nat)
    requires |s| < 5 || s[..5] != "HTTP/"
    ensures ScanVersion(s, major, minor) == (major, minor)
  {
    assert |s| >= 5 ==> s[0..5] == s[..5];
  }

  /** A first number alone replaces the major version only. */
  lemma MajorAlone(s: string, major: nat, minor: nat, a: string, rest: string)
    requires s == "HTTP/" + a + rest && a != "" && AllDigits(a)
    requires rest != "" ==> !('0' <= rest[0] <= '9') && rest[0] != '.'
    ensures ScanVersion(s, major, minor) == (Saturated(ValueOf(a)), minor)
  {
    hide ScanNumber, ValueOf;
    assert BeginsAt(s, 0, "HTTP/") && s[5..5 + |a|] == a;
    assert rest != "" ==> s[5 + |a|] == rest[0];
    ScanNumberIs(s, 5, 5, false, 5 + |a|);
  }

  /** Nothing that could begin a number: no blank, sign or digit. */
  predicate NoNumber(s: string) {
    s != "" ==> s[0] != ' ' && !('\t' <= s[0] <= '\r') && s[0] != '+' && s[0] != '-' && !('0' <= s[0] <= '9')
  }

  lemma NoNumberScanned(s: string, i: nat)
    requires i <= |s| && NoNumber(s[i..])
    ensures ScanNumber(s, i).None?
  {
    assert i < |s| ==> s[i..][0] == s[i];
  }

  /** Without a number behind the slash nothing is replaced, and without one behind the dot the
      major version only. */
  lemma NumbersMissing(major: nat, minor: nat, a: string, rest: string)
    requires a != "" && AllDigits(a) && NoNumber(rest)
    ensures ScanVersion("HTTP/" + rest, major, minor) == (major, minor)
    ensures ScanVersion("HTTP/" + a + "." + rest, major, minor) == (Saturated(ValueOf(a)), minor)
  {
    hide ScanNumber, ValueOf, NoNumber;
    var s, t, dot := "HTTP/" + rest, "HTTP/" + a + "." + rest, 5 + |a|;
    assert BeginsAt(s, 0, "HTTP/") && s[5..] == rest;
    NoNumberScanned(s, 5);
    assert BeginsAt(t, 0, "HTTP/") && t[5..dot] == a && t[dot] == '.' && t[dot + 1..] == rest;
    ScanNumberIs(t, 5, 5, false, dot);
    NoNumberScanned(t, dot + 1);
  }

  /** For every pair of numbers: 200 for versions 0.9, 1.0 and 1.1, and 505 for any other. */
  lemma VersionAnswered(server: Server, r: Req, len: nat, m: Method, l: Parts, a: string, d: string, rest: string)
    requires LineAt(r.buf, len, m, l) && server.files(Path(server.root, r.buf[l.uri..l.uriEnd])) == Regular
    requires r.buf[l.version..l.end] == "HTTP/" + a + "." + d + rest
    requires a != "" && d != "" && AllDigits(a) && AllDigits(d) && (rest != "" ==> !('0' <= rest[0] <= '9'))
    ensures ParseRequest(server, r, len).0 ==
            Reply(if (ValueOf(a), ValueOf(d)) in {(0, 9), (1, 0), (1, 1)} then 200 else 505)
  {
    hide ParseRequest, ScanVersion, ValueOf, Path, MethodName;
    LineAnswered(server, r, len, m, l);
    ScanVersionIs(r.buf[l.version..l.end], r.major, r.minor, a, d, rest);
  }

  // ---------- Methods ----------

  predicate NoMethodAt(b: seq<char>, i: nat) {
    && !BeginsAt(b, i, "GET") && !BeginsAt(b, i, "POST") && !BeginsAt(b, i, "PUT")
    && !BeginsAt(b, i, "DELETE") && !BeginsAt(b, i, "HEAD")
  }

  lemma NoMethodFound(b: seq<char>, i: nat)
    ensures FindMethod(b, i, 0).None? <==> NoMethodAt(b, i)
  {
    hide BeginsAt;
    assert METHODS[0] == GET && METHODS[1] == POST && METHODS[2] == PUT && METHODS[3] == DELETE && METHODS[4] == HEAD;
    assert FindMethod(b, i, 5).None?;
    assert FindMethod(b, i, 4).None? <==> !BeginsAt(b, i, "HEAD");
    assert FindMethod(b, i, 3).None? <==> !BeginsAt(b, i, "DELETE") && FindMethod(b, i, 4).None?;
    assert FindMethod(b, i, 2).None? <==> !BeginsAt(b, i, "PUT") && FindMethod(b, i, 3).None?;
    assert FindMethod(b, i, 1).None? <==> !BeginsAt(b, i, "POST") && FindMethod(b, i, 2).None?;
  }

  lemma NameSurvives(b: seq<char>, x: nat, i: nat, name: string)
    requires x < |b| && b[x] == '\r' && '\r' !in name && '\0' !in name
    ensures BeginsAt(b[x := '\0'], i, name) <==> BeginsAt(b, i, name)
  {
    var c := b[x := '\0'];
    BeginsAtIs(b, i, name);
    BeginsAtIs(c, i, name);
    assert i <= x < i + |name| ==> name[x - i] != '\r' && name[x - i] != '\0' && b[i + (x - i)] == '\r';
  }

  lemma BeginsAtIs(b: seq<char>, i: nat, name: string)
    ensures BeginsAt(b, i, name) <==> i + |name| <= |b| && forall k | 0 <= k < |name| :: name[k] == b[i + k]
  {
    if i + |name| <= |b| {
      var s := b[i..i + |name|];
      assert forall k | 0 <= k < |name| :: s[k] == b[i + k];
    }
  }

  lemma NoMethodSurvives(b: seq<char>, x: nat, i: nat)
    requires x < |b| && b[x] == '\r'
    ensures NoMethodAt(b[x := '\0'], i) <==> NoMethodAt(b, i)
  {
    hide BeginsAt;
    NameSurvives(b, x, i, "GET");
    NameSurvives(b, x, i, "POST");
    NameSurvives(b, x, i, "PUT");
    NameSurvives(b, x, i, "DELETE");
    NameSurvives(b, x, i, "HEAD");
  }

  /** A request is answered 400 exactly if it has a first line and, behind its blanks, begins with
      none of the five methods. */
  lemma BadMethodExactly(server: Server, r: Req, len: nat, i: nat)
    requires len <= |r.buf| && i < |r.buf| && Spaces(r.buf, 0, i) && r.buf[i] != ' '
    ensures ParseRequest(server, r, len).0 == Reply(400) <==> !NoLine(r.buf, len) && NoMethodAt(r.buf, i)
  {
    hide NoMethodAt, FindMethod, NoLine, ScanVersion, Path, ParseFrom, Supported, CString;
    NoLineFaults(r.buf, len);
    var cut := CutLine(r.buf, len);
    if cut.Some? {
      NoMethodCut(r.buf, len, i);
      var b := cut.value;
      hide CutLine;
      SkipCharIs(b, 0, ' ', i);
      NoMethodFound(b, i);
    }
  }

  lemma NoMethodCut(b: seq<char>, len: nat, i: nat)
    requires len <= |b| && CutLine(b, len).Some? && i < |b| && Spaces(b, 0, i) && b[i] != ' '
    ensures
      var c := CutLine(b, len).value;
      i < |c| && Spaces(c, 0, i) && c[i] != ' ' && (NoMethodAt(c, i) <==> NoMethodAt(b, i))
  {
    hide NoMethodAt;
    var feed := FindChar(b[..len], 0, '\n');
    if b[feed - 1] == '\r' {
      NoMethodSurvives(b, feed - 1, i);
    }
  }

  // ---------- Paths ----------

  /** The file looked at lies below the document root, its name cut to the size of the buffer. */
  lemma PathBelowRoot(root: string, uri: string)
    ensures
      var full := root + "/" + uri;
      && |Path(root, uri)| == (if |full| <= 16383 then |full| else 16383)
      && Path(root, uri) <= full
      && (|root| < 16383 ==> root + "/" <= Path(root, uri))
  {
    assert |root| < 16383 ==> (root + "/" + uri)[..|root| + 1] == root + "/";
  }
}
