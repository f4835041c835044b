/** The table-driven parser for the header lines of an HTTP request. Nothing is copied: a
    string header becomes a slice of the request buffer. Everything here holds for any table
    whose names cannot be mistaken for one another; `HttpHeaders` shows the server's is one. */
module Headers {
  import opened Options

  datatype Kind = DateKind | IntKind | StringKind

  datatype Field =
    | ContentLength | ContentType | UserAgent | IfModifiedSince | Authorization | Referer
    | Cookie | Location | Status | Range | Connection | TransferEncoding

  /** A table entry: where a header is stored, how, and the name it is recognised by. */
  datatype Header = Header(kind: Kind, field: Field, name: string)

  /** A stored header: a slice of the buffer, or the position `strtoul` or the date conversion
      is applied to. */
  datatype Value = Text(at: nat, len: nat) | Number(at: nat) | Moment(at: nat)

  function Lower(c: char): char {
    if 'A' <= c <= 'Z' then c - 'A' + 'a' else c
  }

  /** `e - s > len && !strncasecmp(s, name, len)` */
  predicate Matches(buf: seq<char>, s: nat, e: nat, name: string)
    requires s <= e <= |buf|
  {
    e - s > |name| && forall k | 0 <= k < |name| :: Lower(buf[s + k]) == Lower(name[k])
  }

  ghost predicate ValidTable(table: seq<Header>) {
    && (forall i | 0 <= i < |table| :: ValidName(table[i].name))
    && (forall i, j | 0 <= i < j < |table| ::
          table[i].field != table[j].field && Distinct(table[i].name, table[j].name))
  }

  /** Neither name is, in any letter case, the beginning of the other. */
  predicate Distinct(a: string, b: string) {
    DifferFrom(a, b, 0)
  }

  predicate DifferFrom(a: string, b: string, k: nat)
    decreases |a| - k
  {
    k < |a| && k < |b| && (Lower(a[k]) != Lower(b[k]) || DifferFrom(a, b, k + 1))
  }

  predicate ValidName(name: string) {
    name != [] && NoFeedFrom(name, 0)
  }

  predicate NoFeedFrom(s: string, k: nat)
    decreases |s| - k
  {
    k >= |s| || (Lower(s[k]) != '\n' && NoFeedFrom(s, k + 1))
  }

  lemma {:induction false} NoFeedAt(s: string, i: nat, k: nat)
    requires i <= k < |s| && NoFeedFrom(s, i)
    ensures Lower(s[k]) != '\n'
    decreases k - i
  {
    if i < k {
      NoFeedAt(s, i + 1, k);
    }
  }

  /** The first entry from `i` on whose name begins the text at `s`. */
  function FindHeader(table: seq<Header>, buf: seq<char>, s: nat, e: nat, i: nat): Option<Header>
    requires s <= e <= |buf| && i <= |table|
    decreases |table| - i
  {
    if i == |table| then None
    else if Matches(buf, s, e, table[i].name) then Some(table[i])
    else FindHeader(table, buf, s, e, i + 1)
  }

  lemma {:induction false} FoundHeaderMatches(table: seq<Header>, buf: seq<char>, s: nat, e: nat, i: nat)
    requires s <= e <= |buf| && i <= |table|
    ensures
      var h := FindHeader(table, buf, s, e, i);
      h.Some? ==> h.value in table && Matches(buf, s, e, h.value.name)
    decreases |table| - i
  {
    if i < |table| && !Matches(buf, s, e, table[i].name) {
      FoundHeaderMatches(table, buf, s, e, i + 1);
    }
  }

  function EndOfLine(buf: seq<char>, s: nat, e: nat): (p: nat)
    requires s <= e <= |buf|
    ensures s <= p <= e
    decreases e - s
  {
    if s == e || buf[s] == '\n' then s else EndOfLine(buf, s + 1, e)
  }

  lemma {:induction false} LineEndsAtFeed(buf: seq<char>, s: nat, e: nat)
    requires s <= e <= |buf|
    ensures
      var p := EndOfLine(buf, s, e);
      (p < e ==> buf[p] == '\n') && forall k | s <= k < p :: buf[k] != '\n'
    decreases e - s
  {
    if s < e && buf[s] != '\n' {
      LineEndsAtFeed(buf, s + 1, e);
    }
  }

  lemma MatchStaysInLine(buf: seq<char>, s: nat, e: nat, name: string)
    requires s <= e <= |buf| && ValidName(name) && Matches(buf, s, e, name)
    ensures s + |name| <= EndOfLine(buf, s, e)
  {
    LineEndsAtFeed(buf, s, e);
    forall k | s <= k < s + |name| ensures buf[k] != '\n' {
      NoFeedAt(name, 0, k - s);
      assert Lower(buf[s + (k - s)]) == Lower(name[k - s]);
    }
  }

  /** What the text from `at` to the end of line `p` is stored as. One trailing CR is dropped. */
  function Stored(kind: Kind, buf: seq<char>, at: nat, p: nat): Value
    requires p <= |buf|
  {
    match kind
    case IntKind => Number(at)
    case DateKind => Moment(at)
    case StringKind => Text(at, if p <= at then 0 else if buf[p - 1] == '\r' then p - at - 1 else p - at)
  }

  datatype Assignment = Assignment(field: Field, value: Value)

  /** What the line that begins at `s` assigns, if its header is known. */
  function Effect(table: seq<Header>, buf: seq<char>, s: nat, e: nat): Option<Assignment>
    requires s <= e <= |buf|
  {
    match FindHeader(table, buf, s, e, 0)
    case None => None
    case Some(h) => Some(Assignment(h.field, Stored(h.kind, buf, s + |h.name|, EndOfLine(buf, s, e))))
  }

  function Assign(effect: Option<Assignment>, parsed: map<Field, Value>): map<Field, Value> {
    match effect
    case None => parsed
    case Some(a) => parsed[a.field := a.value]
  }

  function ParseFrom(table: seq<Header>, buf: seq<char>, s: nat, e: int, parsed: map<Field, Value>): map<Field, Value>
    requires e <= |buf|
    decreases e - s
  {
    if s >= e then parsed
    else ParseFrom(table, buf, EndOfLine(buf, s, e) + 1, e, Assign(Effect(table, buf, s, e), parsed))
  }

  // ---------- The code ----------

  class Parsed {
    var values: map<Field, Value>

    constructor ()
      ensures values == map[]
    {
      values := map[];
    }
  }

  method FindEndOfLine(buf: array<char>, s: nat, e: nat) returns (p: nat)
    requires s <= e <= buf.Length
    ensures p == EndOfLine(buf[..], s, e)
  {
    p := s;
    while p < e && buf[p] != '\n'
      invariant s <= p <= e
      invariant EndOfLine(buf[..], s, e) == EndOfLine(buf[..], p, e)
    {
      p := p + 1;
    }
  }

  method LookUp(table: seq<Header>, buf: array<char>, s: nat, e: nat) returns (h: nat)
    requires s <= e <= buf.Length
    ensures h <= |table|
    ensures FindHeader(table, buf[..], s, e, 0) == if h == |table| then None else Some(table[h])
  {
    h := 0;
    while h < |table| && !Matches(buf[..], s, e, table[h].name)
      invariant 0 <= h <= |table|
      invariant FindHeader(table, buf[..], s, e, 0) == FindHeader(table, buf[..], s, e, h)
    {
      h := h + 1;
    }
  }

  method StoreHeader(h: Header, buf: array<char>, s: nat, p: nat, parsed: Parsed)
    requires 0 < s <= p <= buf.Length
    modifies parsed
    ensures parsed.values == old(parsed.values)[h.field := Stored(h.kind, buf[..], s, p)]
  {
    match h.kind {
      case StringKind =>
        var length := p - s;
        if buf[p - 1] == '\r' && length > 0 {
          length := length - 1;
        }
        parsed.values := parsed.values[h.field := Text(s, length)];
      case IntKind =>
        parsed.values := parsed.values[h.field := Number(s)];
      case DateKind =>
        parsed.values := parsed.values[h.field := Moment(s)];
    }
  }

  /** One round of the outer loop: `p` is the end of the line that begins at `start`. */
  method ParseLine(table: seq<Header>, buf: array<char>, start: nat, e: nat, parsed: Parsed) returns (p: nat)
    requires ValidTable(table) && start <= e <= buf.Length
    modifies parsed
    ensures p == EndOfLine(buf[..], start, e)
    ensures parsed.values == Assign(Effect(table, buf[..], start, e), old(parsed.values))
  {
    p := FindEndOfLine(buf, start, e);
    var h := LookUp(table, buf, start, e);
    if h < |table| {
      FoundHeaderMatches(table, buf[..], start, e, 0);
      MatchStaysInLine(buf[..], start, e, table[h].name);
      StoreHeader(table[h], buf, start + |table[h].name|, p, parsed);
    }
  }

  method HeaderParse(table: seq<Header>, buf: array<char>, start: nat, len: int, parsed: Parsed)
    requires ValidTable(table) && start + len <= buf.Length
    modifies parsed
    ensures parsed.values == ParseFrom(table, old(buf[..]), start, start + len, old(parsed.values))
  {
    ghost var text, was := buf[..], parsed.values;
    var s, e := start, start + len;
    while s < e
      invariant buf[..] == text
      invariant ParseFrom(table, text, s, e, parsed.values) == ParseFrom(table, text, start, start + len, was)
      decreases e - s
    {
      var p := ParseLine(table, buf, s, e, parsed);
      s := p + 1;
    }
  }

  // ---------- Lines, declaratively ----------

  /** The lines of `buf[s..e]`: where each begins and where it ends. */
  ghost function Lines(buf: seq<char>, s: nat, e: int): seq<(nat, nat)>
    requires e <= |buf|
    decreases e - s
  {
    if s >= e then [] else [(s, EndOfLine(buf, s, e))] + Lines(buf, EndOfLine(buf, s, e) + 1, e)
  }

  ghost predicate LinesWithin(lines: seq<(nat, nat)>, s: nat, e: nat) {
    forall i | 0 <= i < |lines| :: s <= lines[i].0 <= lines[i].1 <= e
  }

  lemma {:induction false} LinesAreOrdered(buf: seq<char>, s: nat, e: nat)
    requires e <= |buf|
    ensures LinesWithin(Lines(buf, s, e), s, e)
    ensures forall i, j | 0 <= i < j < |Lines(buf, s, e)| :: Lines(buf, s, e)[i].1 < Lines(buf, s, e)[j].0
    decreases e - s
  {
    if s < e {
      LinesAreOrdered(buf, EndOfLine(buf, s, e) + 1, e);
    }
  }

  /** The effects of the lines, in order. */
  ghost function Effects(table: seq<Header>, buf: seq<char>, lines: seq<(nat, nat)>, e: nat): seq<Option<Assignment>>
    requires e <= |buf| && LinesWithin(lines, 0, e)
  {
    if lines == [] then [] else [Effect(table, buf, lines[0].0, e)] + Effects(table, buf, lines[1..], e)
  }

  function AssignAll(effects: seq<Option<Assignment>>, parsed: map<Field, Value>): map<Field, Value> {
    if effects == [] then parsed else AssignAll(effects[1..], Assign(effects[0], parsed))
  }

  /** The parser splits its input at line feeds and carries out, in order, what each line says
      on its own. */
  lemma {:induction false} ParseSplitsLines(table: seq<Header>, buf: seq<char>, s: nat, e: nat,
                                            parsed: map<Field, Value>)
    requires e <= |buf|
    ensures LinesWithin(Lines(buf, s, e), 0, e)
    ensures ParseFrom(table, buf, s, e, parsed) == AssignAll(Effects(table, buf, Lines(buf, s, e), e), parsed)
    decreases e - s
  {
    LinesAreOrdered(buf, s, e);
    if s < e {
      var first, rest := Effect(table, buf, s, e), EndOfLine(buf, s, e) + 1;
      ParseSplitsLines(table, buf, rest, e, Assign(first, parsed));
      assert Lines(buf, s, e)[1..] == Lines(buf, rest, e);
      AssignFirst(first, Effects(table, buf, Lines(buf, rest, e), e), parsed);
    }
  }

  lemma {:induction false} AssignFirst(first: Option<Assignment>, rest: seq<Option<Assignment>>,
                                       parsed: map<Field, Value>)
    ensures AssignAll([first] + rest, parsed) == AssignAll(rest, Assign(first, parsed))
  {}

  ghost predicate Sets(effect: Option<Assignment>, f: Field) {
    effect.Some? && effect.value.field == f
  }

  /** Last match wins: a field ends up with the value of the last line that names it, and a
      field no line names keeps what it had. */
  lemma {:induction false} LastMatchWins(effects: seq<Option<Assignment>>, parsed: map<Field, Value>, f: Field)
    ensures
      var result := AssignAll(effects, parsed);
      if forall i | 0 <= i < |effects| :: !Sets(effects[i], f)
      then (f in result <==> f in parsed) && (f in parsed ==> result[f] == parsed[f])
      else exists i | 0 <= i < |effects| && Sets(effects[i], f) ::
        && (forall j | i < j < |effects| :: !Sets(effects[j], f))
        && f in result && result[f] == effects[i].value.value
  {
    if effects != [] {
      var rest := effects[1..];
      LastMatchWins(rest, Assign(effects[0], parsed), f);
      assert forall i | 1 <= i < |effects| :: effects[i] == rest[i - 1];
      if exists i :: 0 <= i < |rest| && Sets(rest[i], f) {
        var i :| 0 <= i < |rest| && Sets(rest[i], f) && forall j | i < j < |rest| :: !Sets(rest[j], f);
        assert Sets(effects[i + 1], f);
      }
    }
  }
}
