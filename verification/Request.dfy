/** The parser for the request line, which cuts the request buffer into C strings in place and
    hands what follows to the header parser. */
module Request {
  import opened Options
  import opened CStrings
  import opened Headers

  datatype Method = GET | POST | PUT | DELETE | HEAD

  datatype File = Missing | Directory | Regular

  /** The status the parser returns. `Fault`: a pointer left the request buffer, and C gives no
      meaning to what happens. */
  datatype Outcome = Reply(status: int) | Fault

  /** The connection's request: its buffer and what was parsed out of it. `uri` points into the
      buffer. */
  datatype Req = Req(buf: seq<char>, kind: Option<Method>, uri: nat, major: nat, minor: nat, headers: map<Field, Value>)

  // ---------- The method table ----------

  function MethodName(m: Method): string {
    match m
    case GET => "GET"
    case POST => "POST"
    case PUT => "PUT"
    case DELETE => "DELETE"
    case HEAD => "HEAD"
  }

  predicate BeginsAt(b: seq<char>, i: nat, s: string) {
    i + |s| <= |b| && b[i..i + |s|] == s
  }

  const METHODS: seq<Method> := [GET, POST, PUT, DELETE, HEAD]

  function FindMethod(b: seq<char>, i: nat, k: nat): (m: Option<Method>)
    requires k <= |METHODS|
    ensures m.Some? ==> BeginsAt(b, i, MethodName(m.value))
    decreases |METHODS| - k
  {
    if k == |METHODS| then None
    else if BeginsAt(b, i, MethodName(METHODS[k])) then Some(METHODS[k])
    else FindMethod(b, i, k + 1)
  }

  // ---------- sscanf(p, "HTTP/%lu.%lu", ...) ----------

  predicate IsSpace(c: char) {
    c == ' ' || '\t' <= c <= '\r'
  }

  predicate IsDigit(c: char) {
    '0' <= c <= '9'
  }

  const ULONG_MAX: nat := 0xFFFF_FFFF_FFFF_FFFF

  function EndOfDigits(s: string, i: nat): (k: nat)
    requires i <= |s|
    ensures i <= k <= |s|
    decreases |s| - i
  {
    if i < |s| && IsDigit(s[i]) then EndOfDigits(s, i + 1) else i
  }

  function Decimal(s: string, acc: nat): nat {
    if s == "" || !IsDigit(s[0]) then acc else Decimal(s[1..], 10 * acc + (s[0] - '0') as nat)
  }

  function EndOfSpace(s: string, i: nat): (k: nat)
    requires i <= |s|
    ensures i <= k <= |s|
    decreases |s| - i
  {
    if i < |s| && IsSpace(s[i]) then EndOfSpace(s, i + 1) else i
  }

  /** A `%lu` conversion from position `i`: its value and where it ends, if there is a number.
      As in `strtoul`, blanks and a sign may come first, and large numbers saturate. */
  function ScanNumber(s: string, i: nat): (r: Option<(nat, nat)>)
    requires i <= |s|
    ensures r.Some? ==> r.value.1 <= |s|
  {
    var sign := EndOfSpace(s, i);
    var start := if sign < |s| && s[sign] in "+-" then sign + 1 else sign;
    var end := EndOfDigits(s, start);
    if end == start then None
    else
      var n := Decimal(s[start..end], 0);
      Some((if n > ULONG_MAX then ULONG_MAX
            else if sign < |s| && s[sign] == '-' && n > 0 then ULONG_MAX + 1 - n
            else n, end))
  }

  /** A field that is not reached keeps its value. */
  function ScanVersion(s: string, major: nat, minor: nat): (nat, nat) {
    if !BeginsAt(s, 0, "HTTP/") then (major, minor)
    else
      match ScanNumber(s, 5)
      case None => (major, minor)
      case Some((first, i)) =>
        if i == |s| || s[i] != '.' then (first, minor)
        else
          match ScanNumber(s, i + 1)
          case None => (first, minor)
          case Some((second, _)) => (first, second)
  }

  predicate Supported(major: nat, minor: nat) {
    (major == 0 && minor == 9) || (major == 1 && minor == 0) || (major == 1 && minor == 1)
  }

  // ---------- The parser as a function of the buffer ----------

  const URI_MAX: nat := 16384

  function Path(root: string, uri: string): string {
    var path := root + "/" + uri;
    if |path| < URI_MAX then path else path[..URI_MAX - 1]
  }

  datatype Server = Server(table: seq<Header>, root: string, files: string -> File)

  /** A stage of the parser ends the parse, or passes on where the next one starts. */
  datatype Progress = Done(outcome: Outcome, r: Req) | Next(r: Req, p: nat)

  function MethodStage(r: Req): (s: Progress)
    ensures |s.r.buf| == |r.buf| && (s.Next? ==> s.p <= |r.buf|)
  {
    var p := SkipChar(r.buf, 0, ' ');
    match FindMethod(r.buf, p, 0)
    case None => Done(Reply(400), r)
    case Some(m) => Next(r.(kind := Some(m)), SkipChar(r.buf, p + |MethodName(m)|, ' '))
  }

  function UriStage(server: Server, r: Req, p: nat): (s: Progress)
    requires p <= |r.buf|
    ensures |s.r.buf| == |r.buf| && (s.Next? ==> s.p <= |r.buf|)
  {
    var q := FindChar(r.buf, p, ' ');
    if q == |r.buf| then Done(Fault, r)
    else
      var r' := r.(buf := r.buf[q := '\0'], uri := p);
      match server.files(Path(server.root, CString(r'.buf, p)))
      case Missing => Done(Reply(404), r')
      case Directory => Done(Reply(403), r')
      case Regular => Next(r', SkipChar(r'.buf, q + 1, ' '))
  }

  function VersionStage(r: Req, p: nat): (s: Progress)
    requires p <= |r.buf|
    ensures |s.r.buf| == |r.buf| && (s.Next? ==> s.p <= |r.buf|)
  {
    var end := FindChar(r.buf, p, '\0');
    if end == |r.buf| then Done(Fault, r)
    else
      var (major, minor) := ScanVersion(CString(r.buf, p), r.major, r.minor);
      var r' := r.(major := major, minor := minor);
      if !Supported(major, minor) then Done(Reply(505), r')
      else
        var rest := SkipChar(r.buf, end, '\0');
        if rest == |r.buf| then Done(Fault, r') else Next(r', rest)
  }

  /** The buffer with a CR before the first line feed cleared. Without a line feed, or with
      nothing before it, the code looks for the CR outside the buffer. */
  function CutLine(b: seq<char>, len: nat): (r: Option<seq<char>>)
    requires len <= |b|
    ensures r.Some? ==> |r.value| == |b|
  {
    var feed := FindChar(b[..len], 0, '\n');
    if feed == len || feed == 0 then None
    else Some(if b[feed - 1] == '\r' then b[feed - 1 := '\0'] else b)
  }

  function ParseRequest(server: Server, r: Req, len: nat): (Outcome, Req)
    requires len <= |r.buf|
  {
    match CutLine(r.buf, len)
    case None => (Fault, r)
    case Some(b) =>
      match MethodStage(r.(buf := b))
      case Done(outcome, r1) => (outcome, r1)
      case Next(r1, p1) =>
        match UriStage(server, r1, p1)
        case Done(outcome, r2) => (outcome, r2)
        case Next(r2, p2) =>
          match VersionStage(r2, p2)
          case Done(outcome, r3) => (outcome, r3)
          case Next(r3, p3) =>
            (Reply(200), r3.(headers := ParseFrom(server.table, r3.buf, p3, len, r3.headers)))
  }

  // ---------- The code ----------

  class Connection {
    const dreq: array<char>
    const ch: Parsed
    var kind: Option<Method>
    var uri: nat
    var major: nat
    var minor: nat

    constructor (buffer: array<char>)
      ensures dreq == buffer && fresh(ch)
      ensures Snapshot() == Req(buffer[..], None, 0, 0, 0, map[])
    {
      dreq := buffer;
      ch := new Parsed();
      kind, uri, major, minor := None, 0, 0, 0;
    }

    ghost function Snapshot(): Req
      reads this, dreq, ch
    {
      Req(dreq[..], kind, uri, major, minor, ch.values)
    }

    method JumpTo(from: nat, c: char, end: nat) returns (pos: nat)
      requires from <= end <= dreq.Length
      ensures pos == FindChar(dreq[..end], from, c)
    {
      pos := from;
      while pos < end && dreq[pos] != c
        invariant from <= pos <= end
        invariant FindChar(dreq[..end], from, c) == FindChar(dreq[..end], pos, c)
      {
        pos := pos + 1;
      }
    }

    method JumpOver(from: nat, c: char) returns (pos: nat)
      requires from <= dreq.Length
      ensures pos == SkipChar(dreq[..], from, c)
    {
      pos := from;
      while pos < dreq.Length && dreq[pos] == c
        invariant from <= pos <= dreq.Length
        invariant SkipChar(dreq[..], from, c) == SkipChar(dreq[..], pos, c)
      {
        pos := pos + 1;
      }
    }

    method ParseMethod() returns (end: Option<Outcome>, pos: nat)
      modifies this
      ensures MethodStage(old(Snapshot())) ==
              if end.Some? then Done(end.value, Snapshot()) else Next(Snapshot(), pos)
    {
      hide FindMethod, SkipChar, MethodName;
      end := None;
      pos := JumpOver(0, ' ');
      var m := LookUpMethod(pos);
      if m == |METHODS| {
        return Some(Reply(400)), pos;
      }
      kind := Some(METHODS[m]);
      pos := pos + |MethodName(METHODS[m])|;
      pos := JumpOver(pos, ' ');
    }

    method ParseUri(server: Server, p: nat) returns (end: Option<Outcome>, pos: nat)
      requires p <= dreq.Length
      modifies this, dreq
      ensures UriStage(server, old(Snapshot()), p) ==
              if end.Some? then Done(end.value, Snapshot()) else Next(Snapshot(), pos)
    {
      end := None;
      assert dreq[..dreq.Length] == dreq[..];
      pos := JumpTo(p, ' ', dreq.Length);
      if pos == dreq.Length {
        return Some(Fault), pos;
      }
      dreq[pos] := '\0';
      uri := p;
      assert dreq[..] == old(dreq[..])[pos := '\0'];
      match server.files(Path(server.root, CString(dreq[..], p))) {
        case Missing => return Some(Reply(404)), pos;
        case Directory => return Some(Reply(403)), pos;
        case Regular =>
      }
      pos := pos + 1;
      pos := JumpOver(pos, ' ');
    }

    method ParseVersion(p: nat) returns (end: Option<Outcome>, pos: nat)
      requires p <= dreq.Length
      modifies this
      ensures VersionStage(old(Snapshot()), p) ==
              if end.Some? then Done(end.value, Snapshot()) else Next(Snapshot(), pos)
    {
      end := None;
      assert dreq[..dreq.Length] == dreq[..];
      pos := JumpTo(p, '\0', dreq.Length);
      if pos == dreq.Length {
        return Some(Fault), pos;
      }
      var (first, second) := ScanVersion(dreq[p..pos], major, minor);
      major, minor := first, second;
      if !Supported(major, minor) {
        return Some(Reply(505)), pos;
      }
      pos := JumpOver(pos, '\0');
      if pos == dreq.Length {
        return Some(Fault), pos;
      }
    }

    method ClearReturn(len: nat) returns (ok: bool)
      requires len <= dreq.Length
      modifies dreq
      ensures
        var cut := CutLine(old(dreq[..]), len);
        ok == cut.Some? && dreq[..] == if ok then cut.value else old(dreq[..])
    {
      ghost var b := dreq[..];
      var pos := JumpTo(0, '\n', len);
      assert b[..len] == dreq[..len];
      ok := pos != len && pos != 0;
      if ok {
        if dreq[pos - 1] == '\r' {
          dreq[pos - 1] := '\0';
        }
        FindCharStops(b[..len], 0, '\n');
        dreq[pos] := '\n';
        assert dreq[..] == if b[pos - 1] == '\r' then b[pos - 1 := '\0'] else b;
      }
    }

    method LookUpMethod(pos: nat) returns (m: nat)
      requires pos <= dreq.Length
      ensures m <= |METHODS|
      ensures FindMethod(dreq[..], pos, 0) == if m == |METHODS| then None else Some(METHODS[m])
    {
      m := 0;
      while m < |METHODS| && !BeginsAt(dreq[..], pos, MethodName(METHODS[m]))
        invariant 0 <= m <= |METHODS|
        invariant FindMethod(dreq[..], pos, 0) == FindMethod(dreq[..], pos, m)
      {
        m := m + 1;
      }
    }

    method RequestParse(server: Server, reqLen: nat) returns (retval: Outcome)
      requires ValidTable(server.table) && reqLen <= dreq.Length
      modifies this, dreq, ch
      ensures (retval, Snapshot()) == ParseRequest(server, old(Snapshot()), reqLen)
    {
      hide MethodStage, UriStage, VersionStage, CutLine;
      var p: nat, len: int := 0, reqLen;
      var ok := ClearReturn(len);
      if !ok {
        return Fault;
      }
      var end, pos := ParseMethod();
      if end.Some? {
        return end.value;
      }
      len := len - (pos - p);
      p := pos;
      end, pos := ParseUri(server, p);
      if end.Some? {
        return end.value;
      }
      len := len - (pos - p);
      p := pos;
      end, pos := ParseVersion(p);
      if end.Some? {
        return end.value;
      }
      len := len - (pos - p);
      p := pos;
      HeaderParse(server.table, dreq, p, len, ch);
      retval := Reply(200);
    }
  }
}
