/** What the header parser promises: sound, disjoint slices, and printing and parsing as
    inverses, for any valid table. */
module HeaderLaws {
  import opened Options
  import opened Headers

  // ---------- Slices ----------

  /** All string headers are slices of the text before `s`, free of line feeds, and no two of
      them overlap. */
  ghost predicate Tidy(buf: seq<char>, parsed: map<Field, Value>, s: int) {
    && (forall f | f in parsed && parsed[f].Text? :: SoundSlice(buf, parsed[f], s))
    && (forall f, g | f in parsed && g in parsed && f != g && parsed[f].Text? && parsed[g].Text? ::
          Apart(parsed[f], parsed[g]))
  }

  ghost predicate SoundSlice(buf: seq<char>, v: Value, s: int)
    requires v.Text?
  {
    v.at + v.len <= s && v.at + v.len <= |buf| && forall k | v.at <= k < v.at + v.len :: buf[k] != '\n'
  }

  predicate Apart(v: Value, w: Value)
    requires v.Text? && w.Text?
  {
    v.at + v.len <= w.at || w.at + w.len <= v.at
  }

  lemma EffectIsInLine(table: seq<Header>, buf: seq<char>, s: nat, e: nat)
    requires ValidTable(table) && s <= e <= |buf|
    ensures
      var effect := Effect(table, buf, s, e);
      effect.Some? && effect.value.value.Text? ==>
        s < effect.value.value.at && SoundSlice(buf, effect.value.value, EndOfLine(buf, s, e))
  {
    var h := FindHeader(table, buf, s, e, 0);
    if h.Some? {
      FoundHeaderMatches(table, buf, s, e, 0);
      MatchStaysInLine(buf, s, e, h.value.name);
      LineEndsAtFeed(buf, s, e);
    }
  }

  /** Parsing stores slices that lie in the buffer, contain no line feed and do not overlap. */
  lemma {:induction false} ParseStaysTidy(table: seq<Header>, buf: seq<char>, s: nat, e: nat, parsed: map<Field, Value>)
    requires ValidTable(table) && e <= |buf| && Tidy(buf, parsed, s)
    ensures Tidy(buf, ParseFrom(table, buf, s, e, parsed), if s < e then e + 1 else s)
    decreases e - s
  {
    hide Effect, EndOfLine, ValidTable;
    if s < e {
      var p := EndOfLine(buf, s, e);
      EffectIsInLine(table, buf, s, e);
      var next := Assign(Effect(table, buf, s, e), parsed);
      assert Tidy(buf, next, p + 1);
      ParseStaysTidy(table, buf, p + 1, e, next);
    }
  }

  // ---------- Printing ----------

  /** A header line in print: one of the table, its name in any letter case, or one the table
      does not know, which includes the empty line. A line ends in CRLF, in a bare line feed, or, if
      it is the last one, with the text; the CR of a line that is not known is part of its text. */
  datatype Line =
    | Known(entry: nat, name: string, value: string, ending: string)
    | Unknown(text: string, ending: string)

  predicate BeginsWith(text: string, name: string) {
    name == [] || (text != [] && Lower(text[0]) == Lower(name[0]) && BeginsWith(text[1..], name[1..]))
  }

  predicate NoneBegins(text: string, table: seq<Header>, i: nat)
    decreases |table| - i
  {
    i >= |table| || (!BeginsWith(text, table[i].name) && NoneBegins(text, table, i + 1))
  }

  lemma {:induction false} DoesNotBegin(text: string, table: seq<Header>, i: nat, j: nat)
    requires i <= j < |table| && NoneBegins(text, table, i)
    ensures !BeginsWith(text, table[j].name)
    decreases j - i
  {
    if i < j {
      DoesNotBegin(text, table, i + 1, j);
    }
  }

  lemma {:induction false} BeginsLike(text: string, name: string, k: nat)
    requires BeginsWith(text, name) && k < |name|
    ensures k < |text| && Lower(text[k]) == Lower(name[k])
  {
    if k > 0 {
      BeginsLike(text[1..], name[1..], k - 1);
    }
  }

  lemma {:induction false} BeginsOtherwise(text: string, name: string) returns (k: nat)
    requires !BeginsWith(text, name)
    ensures k < |name| && k <= |text| && (k < |text| ==> Lower(text[k]) != Lower(name[k]))
  {
    if text == [] || Lower(text[0]) != Lower(name[0]) {
      k := 0;
    } else {
      k := BeginsOtherwise(text[1..], name[1..]);
      k := k + 1;
    }
  }

  predicate Printable(table: seq<Header>, line: Line) {
    match line
    case Known(entry, name, value, ending) =>
      && entry < |table| && |name| == |table[entry].name| && BeginsWith(name, table[entry].name)
      && '\n' !in value && (ending == "\r\n" || ending == "\n" || (ending == "" && value != ""))
      && (ending != "\r\n" && value != "" ==> value[|value| - 1] != '\r')
    case Unknown(text, ending) =>
      '\n' !in text && NoneBegins(text, table, 0) && (ending == "\n" || (ending == "" && text != ""))
  }

  function Print(line: Line): string {
    match line
    case Known(_, name, value, ending) => name + value + ending
    case Unknown(text, ending) => text + ending
  }

  function PrintAll(lines: seq<Line>): string {
    if lines == [] then "" else Print(lines[0]) + PrintAll(lines[1..])
  }

  predicate AllPrintable(table: seq<Header>, lines: seq<Line>) {
    forall i | 0 <= i < |lines| :: Printable(table, lines[i]) && (i < |lines| - 1 ==> lines[i].ending != "")
  }

  /** What a printed line, at position `at`, should assign. */
  function Expected(table: seq<Header>, line: Line, at: nat): Option<Assignment>
    requires Printable(table, line)
  {
    match line
    case Unknown(_, _) => None
    case Known(entry, name, value, _) =>
      var h, start := table[entry], at + |name|;
      var stored := match h.kind
        case IntKind => Number(start)
        case DateKind => Moment(start)
        case StringKind => Text(start, |value|);
      Some(Assignment(h.field, stored))
  }

  lemma EndOfLineIs(buf: seq<char>, s: nat, e: nat, p: nat)
    requires s <= p <= e <= |buf| && (p < e ==> buf[p] == '\n') && forall k | s <= k < p :: buf[k] != '\n'
    ensures EndOfLine(buf, s, e) == p
  {
    LineEndsAtFeed(buf, s, e);
  }

  /** A name with nothing behind it, at the end of the text, is not recognised. */
  lemma BareNameIgnored(table: seq<Header>, buf: seq<char>, s: nat, e: nat, j: nat)
    requires ValidTable(table) && j < |table| && s <= e <= |buf| && e - s == |table[j].name|
    requires BeginsWith(buf[s..e], table[j].name)
    ensures Effect(table, buf, s, e) == None
  {
    forall i | 0 <= i < |table| ensures !Matches(buf, s, e, table[i].name) {
      if i != j && |table[i].name| < |table[j].name| {
        var k := DifferAt(table[if i < j then i else j].name, table[if i < j then j else i].name, 0);
        BeginsLike(buf[s..e], table[j].name, k);
        assert buf[s..e][k] == buf[s + k];
      }
    }
    FindHeaderNone(table, buf, s, e, 0);
  }

  lemma {:induction false} DifferAt(a: string, b: string, i: nat) returns (k: nat)
    requires DifferFrom(a, b, i)
    ensures k < |a| && k < |b| && Lower(a[k]) != Lower(b[k])
    decreases |a| - i
  {
    if Lower(a[i]) != Lower(b[i]) {
      k := i;
    } else {
      k := DifferAt(a, b, i + 1);
    }
  }

  lemma NotBoth(buf: seq<char>, s: nat, e: nat, a: string, b: string)
    requires s <= e <= |buf| && Distinct(a, b) && Matches(buf, s, e, b)
    ensures !Matches(buf, s, e, a)
  {
    var k := DifferAt(a, b, 0);
    assert Lower(buf[s + k]) == Lower(b[k]);
  }

  /** The entry found for a text is the only one that matches it. */
  lemma {:induction false} FindHeaderIs(table: seq<Header>, buf: seq<char>, s: nat, e: nat, i: nat, j: nat)
    requires ValidTable(table) && s <= e <= |buf| && i <= j < |table| && Matches(buf, s, e, table[j].name)
    ensures FindHeader(table, buf, s, e, i) == Some(table[j])
    decreases j - i
  {
    if i < j {
      NotBoth(buf, s, e, table[i].name, table[j].name);
      FindHeaderIs(table, buf, s, e, i + 1, j);
    }
  }

  lemma {:induction false} FindHeaderNone(table: seq<Header>, buf: seq<char>, s: nat, e: nat, i: nat)
    requires s <= e <= |buf| && i <= |table| && forall j | 0 <= j < |table| :: !Matches(buf, s, e, table[j].name)
    ensures FindHeader(table, buf, s, e, i) == None
    decreases |table| - i
  {
    if i < |table| {
      FindHeaderNone(table, buf, s, e, i + 1);
    }
  }

  /** Where a printed line ends. */
  function FeedAt(line: Line, s: nat): nat {
    if line.ending == "" then s + |Print(line)| else s + |Print(line)| - 1
  }

  predicate InPlace(buf: seq<char>, s: nat, e: nat, line: Line) {
    && s + |Print(line)| <= e <= |buf| && buf[s..s + |Print(line)|] == Print(line)
    && (line.ending == "" ==> s + |Print(line)| == e)
  }

  lemma KnownLine(table: seq<Header>, buf: seq<char>, s: nat, e: nat, line: Line)
    requires ValidTable(table) && Printable(table, line) && line.Known? && InPlace(buf, s, e, line)
    ensures EndOfLine(buf, s, e) == FeedAt(line, s)
    ensures line.ending == "\r\n" ==> buf[FeedAt(line, s) - 1] == '\r'
    ensures line.ending != "\r\n" && line.value != "" ==> buf[FeedAt(line, s) - 1] != '\r'
    ensures forall k | 0 <= k < |line.name| :: buf[s + k] == line.name[k]
  {
    var n, text, p := |Print(line)|, Print(line), FeedAt(line, s);
    assert forall k | 0 <= k < n :: buf[s + k] == buf[s..s + n][k] == text[k];
    forall k | 0 <= k < |line.name| ensures text[k] == line.name[k] != '\n' {
      NoFeedAt(table[line.entry].name, 0, k);
      BeginsLike(line.name, table[line.entry].name, k);
    }
    assert forall k | s <= k < p :: buf[k] == text[k - s] != '\n';
    assert p < e ==> buf[s + (n - 1)] == text[n - 1] == '\n';
    EndOfLineIs(buf, s, e, p);
    if line.ending == "\r\n" {
      assert buf[s + (n - 2)] == text[n - 2] == '\r';
    } else if line.value != "" {
      var last := |line.name| + |line.value| - 1;
      assert buf[s + last] == text[last] == line.value[|line.value| - 1];
    }
  }

  lemma PrintedKnown(table: seq<Header>, buf: seq<char>, s: nat, e: nat, line: Line)
    requires ValidTable(table) && Printable(table, line) && line.Known? && InPlace(buf, s, e, line)
    ensures EndOfLine(buf, s, e) == FeedAt(line, s)
    ensures Effect(table, buf, s, e) == Expected(table, line, s)
  {
    KnownLine(table, buf, s, e, line);
    forall k | 0 <= k < |line.name| ensures Lower(buf[s + k]) == Lower(table[line.entry].name[k]) {
      BeginsLike(line.name, table[line.entry].name, k);
    }
    FindHeaderIs(table, buf, s, e, 0, line.entry);
    if line.value == "" && line.ending == "\n" {
      assert buf[s + (|line.name| - 1)] == line.name[|line.name| - 1];
    }
  }

  lemma PrintedUnknown(table: seq<Header>, buf: seq<char>, s: nat, e: nat, line: Line)
    requires ValidTable(table) && Printable(table, line) && line.Unknown? && InPlace(buf, s, e, line)
    ensures EndOfLine(buf, s, e) == FeedAt(line, s)
    ensures Effect(table, buf, s, e) == Expected(table, line, s)
  {
    var n, text, m := |line.text|, line.text, |Print(line)|;
    assert forall k | 0 <= k < m :: buf[s + k] == buf[s..s + m][k] == Print(line)[k];
    assert forall k | s <= k < s + n :: buf[k] == text[k - s] != '\n';
    assert s + n < e ==> buf[s + n] == '\n';
    EndOfLineIs(buf, s, e, s + n);
    forall j | 0 <= j < |table| ensures !Matches(buf, s, e, table[j].name) {
      var name := table[j].name;
      DoesNotBegin(text, table, 0, j);
      var k := BeginsOtherwise(text, name);
      NoFeedAt(name, 0, k);
      if s + k < e {
        assert buf[s + k] == if k < n then text[k] else '\n';
        assert Lower(buf[s + k]) != Lower(name[k]);
      }
    }
    FindHeaderNone(table, buf, s, e, 0);
  }

  function ExpectedAll(table: seq<Header>, lines: seq<Line>, at: nat): seq<Option<Assignment>>
    requires AllPrintable(table, lines)
  {
    if lines == [] then []
    else [Expected(table, lines[0], at)] + ExpectedAll(table, lines[1..], at + |Print(lines[0])|)
  }

  lemma PrintedLine(table: seq<Header>, buf: seq<char>, s: nat, e: nat, line: Line, parsed: map<Field, Value>)
    requires ValidTable(table) && Printable(table, line) && InPlace(buf, s, e, line)
    ensures ParseFrom(table, buf, s, e, parsed) ==
            ParseFrom(table, buf, s + |Print(line)|, e, Assign(Expected(table, line, s), parsed))
  {
    if line.Known? {
      PrintedKnown(table, buf, s, e, line);
    } else {
      PrintedUnknown(table, buf, s, e, line);
    }
  }

  lemma FirstPrinted(buf: seq<char>, s: nat, e: nat, lines: seq<Line>)
    requires lines != [] && s <= e <= |buf| && buf[s..e] == PrintAll(lines)
    ensures
      var n := |Print(lines[0])|;
      s + n <= e && buf[s..s + n] == Print(lines[0]) && buf[s + n..e] == PrintAll(lines[1..])
  {
    var n := |Print(lines[0])|;
    assert buf[s..s + n] == buf[s..e][..n];
    assert buf[s + n..e] == buf[s..e][n..];
  }

  /** Parsing printed lines carries out the assignments they were printed from. */
  lemma {:induction false} ParseOfPrint(table: seq<Header>, lines: seq<Line>, buf: seq<char>, s: nat, e: nat,
                                        parsed: map<Field, Value>)
    requires ValidTable(table) && AllPrintable(table, lines)
    requires s <= e <= |buf| && buf[s..e] == PrintAll(lines)
    ensures ParseFrom(table, buf, s, e, parsed) == AssignAll(ExpectedAll(table, lines, s), parsed)
    decreases |lines|
  {
    hide Expected, Print, Printable, ValidTable, Effect, EndOfLine;
    if lines != [] {
      var n, first := |Print(lines[0])|, Expected(table, lines[0], s);
      FirstPrinted(buf, s, e, lines);
      PrintedLine(table, buf, s, e, lines[0], parsed);
      ParseOfPrint(table, lines[1..], buf, s + n, e, Assign(first, parsed));
      AssignFirst(first, ExpectedAll(table, lines[1..], s + n), parsed);
    }
  }

  /** A stored value stands for the text `value` that was printed before `ending`. */
  predicate Denotes(buf: seq<char>, v: Value, kind: Kind, value: string, ending: string) {
    match v
    case Text(at, len) => kind == StringKind && at + len <= |buf| && buf[at..at + len] == value
    case Number(at) => kind == IntKind && TailAt(buf, at, value + ending)
    case Moment(at) => kind == DateKind && TailAt(buf, at, value + ending)
  }

  predicate TailAt(buf: seq<char>, at: nat, tail: string) {
    at + |tail| <= |buf| && buf[at..at + |tail|] == tail
  }

  /** `effect` assigns to the header that `line` names, if any, what stands for its value. */
  predicate Renders(table: seq<Header>, buf: seq<char>, effect: Option<Assignment>, line: Line)
    requires Printable(table, line)
  {
    match line
    case Unknown(_, _) => effect == None
    case Known(entry, _, value, ending) =>
      effect.Some? && effect.value.field == table[entry].field &&
      Denotes(buf, effect.value.value, table[entry].kind, value, ending)
  }

  lemma SubSlice(buf: seq<char>, s: nat, n: nat, i: nat, j: nat)
    requires i <= j <= n && s + n <= |buf|
    ensures buf[s + i..s + j] == buf[s..s + n][i..j]
  {
    var a, b := buf[s + i..s + j], buf[s..s + n][i..j];
    forall k | 0 <= k < j - i ensures a[k] == b[k] {
      assert a[k] == buf[s + i + k] && b[k] == buf[s..s + n][i + k];
    }
  }

  /** Where the name and the value of a printed line are. */
  lemma PrintedPieces(buf: seq<char>, s: nat, name: string, value: string, ending: string)
    requires TailAt(buf, s, name + value + ending)
    ensures
      var at := s + |name|;
      buf[at..at + |value|] == value && TailAt(buf, at, value + ending)
  {
    var n, text := |name|, name + value + ending;
    SubSlice(buf, s, |text|, n, n + |value|);
    SubSlice(buf, s, |text|, n, |text|);
    assert text[n..n + |value|] == value && text[n..|text|] == value + ending;
  }

  lemma ExpectedRenders(table: seq<Header>, buf: seq<char>, s: nat, line: Line)
    requires Printable(table, line) && s + |Print(line)| <= |buf| && buf[s..s + |Print(line)|] == Print(line)
    ensures Renders(table, buf, Expected(table, line, s), line)
  {
    if line.Known? {
      PrintedPieces(buf, s, line.name, line.value, line.ending);
    }
  }

  lemma {:induction false} AllRender(table: seq<Header>, lines: seq<Line>, buf: seq<char>, s: nat, e: nat)
    requires AllPrintable(table, lines) && s <= e <= |buf| && buf[s..e] == PrintAll(lines)
    ensures |ExpectedAll(table, lines, s)| == |lines|
    ensures forall i | 0 <= i < |lines| :: Renders(table, buf, ExpectedAll(table, lines, s)[i], lines[i])
    decreases |lines|
  {
    hide Expected, Print, Printable, Renders;
    if lines != [] {
      FirstPrinted(buf, s, e, lines);
      ExpectedRenders(table, buf, s, lines[0]);
      AllRender(table, lines[1..], buf, s + |Print(lines[0])|, e);
    }
  }

  ghost predicate Names(table: seq<Header>, line: Line, f: Field) {
    line.Known? && line.entry < |table| && table[line.entry].field == f
  }

  lemma LastRendered(table: seq<Header>, lines: seq<Line>, buf: seq<char>, effects: seq<Option<Assignment>>,
                     parsed: map<Field, Value>, f: Field)
    requires AllPrintable(table, lines) && |effects| == |lines|
    requires forall i | 0 <= i < |lines| :: Renders(table, buf, effects[i], lines[i])
    ensures LastLineWins(table, lines, buf, AssignAll(effects, parsed), parsed, f)
  {
    assert forall i | 0 <= i < |lines| :: Sets(effects[i], f) <==> Names(table, lines[i], f);
    LastMatchWins(effects, parsed, f);
    if i :| 0 <= i < |lines| && Names(table, lines[i], f) {
      assert Sets(effects[i], f);
    }
  }

  /** `f` has in `result` what the last line naming it says, or else what it had in `parsed`. */
  ghost predicate LastLineWins(table: seq<Header>, lines: seq<Line>, buf: seq<char>, result: map<Field, Value>,
                               parsed: map<Field, Value>, f: Field)
    requires AllPrintable(table, lines)
  {
    if forall i | 0 <= i < |lines| :: !Names(table, lines[i], f)
    then (f in result <==> f in parsed) && (f in parsed ==> result[f] == parsed[f])
    else exists i | 0 <= i < |lines| && Names(table, lines[i], f) ::
      && (forall j | i < j < |lines| :: !Names(table, lines[j], f))
      && f in result && Denotes(buf, result[f], table[lines[i].entry].kind, lines[i].value, lines[i].ending)
  }

  /** Round trip: the last line printed for a header, in whatever letter case its name is
      written, is what the parser stores for it, byte for byte; headers that are not printed
      keep their value, and unknown lines change nothing. */
  lemma PrintedHeadersParseBack(table: seq<Header>, lines: seq<Line>, buf: seq<char>, s: nat, e: nat,
                                parsed: map<Field, Value>, f: Field)
    requires ValidTable(table) && AllPrintable(table, lines)
    requires s <= e <= |buf| && buf[s..e] == PrintAll(lines)
    ensures LastLineWins(table, lines, buf, ParseFrom(table, buf, s, e, parsed), parsed, f)
  {
    ParseOfPrint(table, lines, buf, s, e, parsed);
    AllRender(table, lines, buf, s, e);
    LastRendered(table, lines, buf, ExpectedAll(table, lines, s), parsed, f);
  }

  // ---------- Any line ----------

  lemma {:induction false} BeginsAll(text: string, name: string)
    requires |name| <= |text| && forall k | 0 <= k < |name| :: Lower(text[k]) == Lower(name[k])
    ensures BeginsWith(text, name)
    decreases |name|
  {
    if name != "" {
      BeginsAll(text[1..], name[1..]);
    }
  }

  lemma MatchesExactly(buf: seq<char>, s: nat, e: nat, name: string)
    requires s <= e <= |buf|
    ensures Matches(buf, s, e, name) <==> e - s > |name| && BeginsWith(buf[s..e], name)
  {
    var text := buf[s..e];
    assert forall k | 0 <= k < e - s :: buf[s + k] == text[k];
    if Matches(buf, s, e, name) {
      BeginsAll(text, name);
    } else if e - s > |name| && BeginsWith(text, name) {
      forall k | 0 <= k < |name| ensures Lower(buf[s + k]) == Lower(name[k]) {
        BeginsLike(text, name, k);
      }
    }
  }

  /** What any line does, whatever it ends in: nothing if no name of the table begins it with
      something behind, and else it stores, for the one that does, what lies behind the name: in a
      string header all of it up to the line feed or the end of the text, but for one CR there. */
  lemma EffectExactly(table: seq<Header>, buf: seq<char>, s: nat, e: nat)
    requires ValidTable(table) && s <= e <= |buf|
    ensures
      var effect, p := Effect(table, buf, s, e), EndOfLine(buf, s, e);
      && (effect.None? <==> forall j | 0 <= j < |table| ::
            !(e - s > |table[j].name| && BeginsWith(buf[s..e], table[j].name)))
      && (forall j | 0 <= j < |table| && e - s > |table[j].name| && BeginsWith(buf[s..e], table[j].name) ::
            var h, at := table[j], s + |table[j].name|;
            effect.Some? && effect.value.field == h.field && at <= p <= e &&
            match h.kind
            case IntKind => effect.value.value == Number(at)
            case DateKind => effect.value.value == Moment(at)
            case StringKind =>
              effect.value.value ==
              Text(at, if at < p && buf[p - 1] == '\r' then |buf[at..p - 1]| else |buf[at..p]|))
  {
    forall j | 0 <= j < |table| ensures Matches(buf, s, e, table[j].name) <==>
        e - s > |table[j].name| && BeginsWith(buf[s..e], table[j].name) {
      MatchesExactly(buf, s, e, table[j].name);
    }
    if j :| 0 <= j < |table| && Matches(buf, s, e, table[j].name) {
      forall i | 0 <= i < |table| && Matches(buf, s, e, table[i].name)
        ensures FindHeader(table, buf, s, e, 0) == Some(table[i])
        ensures s + |table[i].name| <= EndOfLine(buf, s, e)
      {
        FindHeaderIs(table, buf, s, e, 0, i);
        MatchStaysInLine(buf, s, e, table[i].name);
      }
    } else {
      FindHeaderNone(table, buf, s, e, 0);
    }
  }

  /** Letter case, spelled out. */
  lemma LetterCases(c: char, i: nat)
    requires i < 26
    ensures Lower("ABCDEFGHIJKLMNOPQRSTUVWXYZ"[i]) == "abcdefghijklmnopqrstuvwxyz"[i]
    ensures c !in "ABCDEFGHIJKLMNOPQRSTUVWXYZ" ==> Lower(c) == c
  {
    var upper := "ABCDEFGHIJKLMNOPQRSTUVWXYZ";
    if 'A' <= c <= 'Z' {
      assert upper[c as int - 'A' as int] == c;
    }
  }
}
