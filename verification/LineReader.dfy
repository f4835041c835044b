/** The reader of the configuration file: one line per call, read a character at a time into a
    buffer of fixed size. */
module LineReader {

  predicate IsBreak(c: char) {
    c == '\r' || c == '\n'
  }

  /** The first position from `i` on that holds no CR or LF. */
  function SkipBreaks(s: string, i: nat): (k: nat)
    requires i <= |s|
    ensures i <= k <= |s|
    decreases |s| - i
  {
    if i < |s| && IsBreak(s[i]) then SkipBreaks(s, i + 1) else i
  }

  /** The first position from `i` on that holds a CR or LF, but at most `len` further on. */
  function RunEnd(s: string, i: nat, len: nat): (k: nat)
    requires i <= |s|
    ensures i <= k <= |s| && k <= i + len
    decreases len
  {
    if len > 0 && i < |s| && !IsBreak(s[i]) then RunEnd(s, i + 1, len - 1) else i
  }

  /** The text one call returns, and the file position it leaves behind: a line that ends
      before the buffer is full takes its line break with it. */
  function NextLine(s: string, pos: nat, len: nat): (r: (string, nat))
    requires pos <= |s|
    ensures pos <= r.1 <= |s|
  {
    if len == 0 then ("", pos)
    else
      var i := SkipBreaks(s, pos);
      var k := RunEnd(s, i, len);
      (s[i..k], if k - i == len || k == |s| then k else k + 1)
  }

  lemma {:induction false} SkipBreaksIs(s: string, i: nat, k: nat)
    requires i <= k <= |s| && (forall j | i <= j < k :: IsBreak(s[j])) && (k < |s| ==> !IsBreak(s[k]))
    ensures SkipBreaks(s, i) == k
    decreases k - i
  {
    if i < k {
      SkipBreaksIs(s, i + 1, k);
    }
  }

  lemma {:induction false} RunEndIs(s: string, i: nat, len: nat, k: nat)
    requires i <= k <= |s| && k - i <= len && (forall j | i <= j < k :: !IsBreak(s[j]))
    requires k == |s| || k - i == len || IsBreak(s[k])
    ensures RunEnd(s, i, len) == k
    decreases k - i
  {
    if i < k {
      RunEndIs(s, i + 1, len - 1, k);
    }
  }

  /** What is read so far: line breaks up to `start`, then `r` other characters. */
  predicate Scanned(s: string, pos: nat, start: nat, r: nat) {
    && pos <= start && start + r <= |s|
    && (forall j | pos <= j < start :: s[j] == '\r' || s[j] == '\n')
    && (forall j | start <= j < start + r :: s[j] != '\r' && s[j] != '\n')
  }

  lemma NextLineIs(s: string, pos: nat, len: nat, start: nat, r: nat, next: nat)
    requires len > 0 && r <= len && Scanned(s, pos, start, r)
    requires if start + r == |s| then next == |s| else r > 0 && next == if r == len then start + r else start + r + 1
    requires start + r < |s| && r < len ==> s[start + r] == '\r' || s[start + r] == '\n'
    ensures NextLine(s, pos, len) == (s[start..start + r], next)
  {
    SkipBreaksIs(s, pos, start);
    RunEndIs(s, start, len, start + r);
  }

  // ---------- The code ----------

  class File {
    const data: string
    var pos: nat

    constructor (text: string)
      ensures data == text && pos == 0
    {
      data := text;
      pos := 0;
    }

    ghost predicate Valid()
      reads this
    {
      pos <= |data|
    }

    /** `read(fd, buff + i, 1)` on a file that has no read errors. */
    method Read(buff: array<char>, i: nat) returns (n: nat)
      requires Valid() && i < buff.Length
      modifies this, buff
      ensures Valid()
      ensures n == (if old(pos) == |data| then 0 else 1) && pos == old(pos) + n
      ensures forall k | 0 <= k < buff.Length ::
                buff[k] == if k == i && n == 1 then data[old(pos)] else old(buff[k])
    {
      n := 0;
      if pos < |data| {
        buff[i] := data[pos];
        pos := pos + 1;
        n := 1;
      }
    }

    /** The returned length tells a full buffer, which carries no NUL, from a shorter line. */
    method ReadLine(buff: array<char>, len: nat) returns (r: nat)
      requires Valid() && len <= buff.Length
      modifies this, buff
      ensures Valid()
      ensures r <= len && (buff[..r], pos) == NextLine(data, old(pos), len)
      ensures forall k | r <= k < len :: buff[k] == '\0'
      ensures forall k | len <= k < buff.Length :: buff[k] == old(buff[k])
    {
      hide NextLine;
      ghost var before: nat, start: nat := pos, pos;
      forall k | 0 <= k < len {
        buff[k] := '\0';
      }
      r := 0;
      var begin := false;
      while r < len
        invariant r <= len && begin == (r > 0)
        invariant pos == start + r && Scanned(data, before, start, r)
        invariant forall k | len <= k < buff.Length :: buff[k] == old(buff[k])
        invariant forall k | 0 <= k < r :: buff[k] == data[start + k]
        invariant forall k | r < k < len :: buff[k] == '\0'
        invariant len == 0 ==> pos == before
        decreases |data| - pos
      {
        var n := Read(buff, r);
        if n == 0 {
          buff[r] := '\0';
          break;
        } else if IsBreak(buff[r]) {
          if begin {
            buff[r] := '\0';
            break;
          }
          start := start + 1;
        } else {
          begin := true;
        }
        r := if begin then r + 1 else r;
      }
      if len > 0 {
        assert buff[..r] == data[start..start + r];
        NextLineIs(data, before, len, start, r, pos);
      } else {
        EmptyBuffer(data, before);
      }
    }
  }

  lemma EmptyBuffer(s: string, pos: nat)
    requires pos <= |s|
    ensures NextLine(s, pos, 0) == ("", pos)
  {}

  // ---------- All calls together ----------

  /** What the calls return until one returns 0. */
  function Chunks(s: string, pos: nat, len: nat): seq<string>
    requires pos <= |s| && len > 0
    decreases |s| - pos
  {
    var (line, next) := NextLine(s, pos, len);
    if line == "" then [] else [line] + Chunks(s, next, len)
  }

  /** The loop over the lines of the file, which ends at the first call that returns 0. */
  method ReadAll(file: File, buff: array<char>, len: nat) returns (lines: seq<string>)
    requires file.Valid() && file.pos == 0 && 0 < len <= buff.Length
    modifies file, buff
    ensures lines == Chunks(file.data, 0, len)
    ensures file.pos == |file.data|
  {
    hide NextLine, Chunks;
    lines := [];
    ghost var pos := file.pos;
    var n: nat := file.ReadLine(buff, len);
    while n != 0
      invariant file.Valid() && pos <= |file.data| && n <= len
      invariant (buff[..n], file.pos) == NextLine(file.data, pos, len)
      invariant lines + Chunks(file.data, pos, len) == Chunks(file.data, 0, len)
      decreases |file.data| - pos
    {
      NextLineProgress(file.data, pos, len);
      ChunksStep(file.data, pos, len);
      ghost var rest := Chunks(file.data, file.pos, len);
      assert lines + ([buff[..n]] + rest) == lines + [buff[..n]] + rest;
      pos := file.pos;
      lines := lines + [buff[..n]];
      n := file.ReadLine(buff, len);
    }
    NextLineProgress(file.data, pos, len);
    ChunksEnd(file.data, pos, len);
  }

  lemma ChunksEnd(s: string, pos: nat, len: nat)
    requires pos <= |s| && len > 0 && NextLine(s, pos, len).0 == ""
    ensures Chunks(s, pos, len) == []
  {}

  /** A call makes progress, or it is at the end of the file and returns 0. */
  lemma NextLineProgress(s: string, pos: nat, len: nat)
    requires pos <= |s| && len > 0
    ensures
      var (line, next) := NextLine(s, pos, len);
      if line == "" then next == |s| else next > pos
    ensures
      var (line, next) := NextLine(s, pos, len);
      line == "" <==> SkipBreaks(s, pos) == |s|
  {
    SkipStops(s, pos);
  }

  lemma {:induction false} SkipStops(s: string, i: nat)
    requires i <= |s|
    ensures
      var k := SkipBreaks(s, i);
      (k < |s| ==> !IsBreak(s[k])) && (forall j | i <= j < k :: IsBreak(s[j])) && SkipBreaks(s, k) == k
    decreases |s| - i
  {
    if i < |s| && IsBreak(s[i]) {
      SkipStops(s, i + 1);
    }
  }

  /** The maximal runs of characters other than CR and LF: the lines that are not empty. */
  function Runs(s: string, pos: nat): seq<string>
    requires pos <= |s|
    decreases |s| - pos
  {
    var i := SkipBreaks(s, pos);
    if i == |s| then []
    else
      var e := RunEnd(s, i, |s|);
      SkipStops(s, pos);
      [s[i..e]] + Runs(s, e)
  }

  /** A line cut into pieces of `len` characters, the last one possibly shorter. */
  function Cut(line: string, len: nat): seq<string>
    requires len > 0
  {
    if |line| <= len then [line] else [line[..len]] + Cut(line[len..], len)
  }

  function CutAll(lines: seq<string>, len: nat): seq<string>
    requires len > 0
  {
    if lines == [] then [] else Cut(lines[0], len) + CutAll(lines[1..], len)
  }

  lemma {:induction false} RunStops(s: string, i: nat, len: nat)
    requires i <= |s|
    ensures
      var k := RunEnd(s, i, len);
      (k < |s| && k < i + len ==> IsBreak(s[k])) && (forall j | i <= j < k :: !IsBreak(s[j]))
    decreases len
  {
    if len > 0 && i < |s| && !IsBreak(s[i]) {
      RunStops(s, i + 1, len - 1);
    }
  }

  lemma FirstPiece(s: string, i: nat, e: nat, len: nat)
    requires i < e <= |s| && len > 0 && (forall j | i <= j < e :: !IsBreak(s[j])) && (e < |s| ==> IsBreak(s[e]))
    ensures NextLine(s, i, len) ==
            if e - i < len && e < |s| then (s[i..e], e + 1)
            else if e - i <= len then (s[i..e], e)
            else (s[i..i + len], i + len)
  {
    RunEndIs(s, i, len, if e - i <= len then e else i + len);
  }

  /** Within a line that ends at `e`, the calls return its pieces and end behind it. */
  lemma {:induction false} ChunksOfLine(s: string, i: nat, e: nat, len: nat)
    requires i < e <= |s| && len > 0 && (forall j | i <= j < e :: !IsBreak(s[j])) && (e < |s| ==> IsBreak(s[e]))
    ensures Chunks(s, i, len) == Cut(s[i..e], len) + Chunks(s, e, len)
    decreases e - i
  {
    hide NextLine, Chunks, Cut;
    FirstPiece(s, i, e, len);
    ChunksStep(s, i, len);
    CutStep(s[i..e], len);
    if e - i <= len {
      if e < |s| {
        SameNext(s, e, len);
      }
    } else {
      var first, rest := s[i..i + len], Cut(s[i + len..e], len);
      SplitLine(s, i, e, len);
      ChunksOfLine(s, i + len, e, len);
      assert [first] + (rest + Chunks(s, e, len)) == [first] + rest + Chunks(s, e, len);
    }
  }

  lemma SplitLine(s: string, i: nat, e: nat, len: nat)
    requires i + len <= e <= |s|
    ensures s[i..e][..len] == s[i..i + len] && s[i..e][len..] == s[i + len..e]
  {}

  lemma ChunksStep(s: string, pos: nat, len: nat)
    requires pos <= |s| && len > 0 && NextLine(s, pos, len).0 != ""
    ensures Chunks(s, pos, len) == [NextLine(s, pos, len).0] + Chunks(s, NextLine(s, pos, len).1, len)
  {}

  lemma CutStep(line: string, len: nat)
    requires len > 0
    ensures Cut(line, len) == if |line| <= len then [line] else [line[..len]] + Cut(line[len..], len)
  {}

  lemma SameNext(s: string, e: nat, len: nat)
    requires e < |s| && IsBreak(s[e]) && len > 0
    ensures Chunks(s, e, len) == Chunks(s, e + 1, len)
  {}

  /** Reading the file returns its non-empty lines in order, each cut into pieces of at most
      `len` characters; nothing else is lost, added or reordered. */
  lemma {:induction false} ChunksAreLines(s: string, pos: nat, len: nat)
    requires pos <= |s| && len > 0
    ensures Chunks(s, pos, len) == CutAll(Runs(s, pos), len)
    decreases |s| - pos
  {
    var i := SkipBreaks(s, pos);
    SkipStops(s, pos);
    assert NextLine(s, pos, len) == NextLine(s, i, len);
    if i < |s| {
      var e := RunEnd(s, i, |s|);
      RunStops(s, i, |s|);
      ChunksOfLine(s, i, e, len);
      ChunksAreLines(s, e, len);
      assert Runs(s, pos)[1..] == Runs(s, e);
    }
  }

  function Concat(lines: seq<string>): string {
    if lines == [] then "" else lines[0] + Concat(lines[1..])
  }

  function Stripped(s: string): string {
    if s == "" then "" else (if s[0] == '\r' || s[0] == '\n' then "" else [s[0]]) + Stripped(s[1..])
  }

  lemma {:induction false} StrippedBreaks(s: string, i: nat)
    requires i <= |s|
    ensures Stripped(s[i..]) == Stripped(s[SkipBreaks(s, i)..])
    decreases |s| - i
  {
    if i < |s| && IsBreak(s[i]) {
      assert s[i..][1..] == s[i + 1..];
      StrippedBreaks(s, i + 1);
    }
  }

  lemma {:induction false} StrippedRun(s: string, i: nat, len: nat)
    requires i <= |s|
    ensures Stripped(s[i..]) == s[i..RunEnd(s, i, len)] + Stripped(s[RunEnd(s, i, len)..])
    decreases len
  {
    if len > 0 && i < |s| && !IsBreak(s[i]) {
      assert s[i..][1..] == s[i + 1..];
      StrippedRun(s, i + 1, len - 1);
    }
  }

  /** The pieces put together are the file without its CRs and LFs ... */
  lemma {:induction false} NothingIsLost(s: string, pos: nat, len: nat)
    requires pos <= |s| && len > 0
    ensures Concat(Chunks(s, pos, len)) == Stripped(s[pos..])
    decreases |s| - pos
  {
    var (line, next) := NextLine(s, pos, len);
    NextLineProgress(s, pos, len);
    StrippedBreaks(s, pos);
    if line != "" {
      StrippedLine(s, pos, len);
      NothingIsLost(s, next, len);
      assert Chunks(s, pos, len) == [line] + Chunks(s, next, len);
      assert Chunks(s, pos, len)[1..] == Chunks(s, next, len);
    }
  }

  lemma StrippedBreak(s: string, k: nat)
    requires k < |s| && IsBreak(s[k])
    ensures Stripped(s[k..]) == Stripped(s[k + 1..])
  {
    assert s[k..][1..] == s[k + 1..];
  }

  lemma StrippedLine(s: string, pos: nat, len: nat)
    requires pos <= |s| && len > 0 && NextLine(s, pos, len).0 != ""
    ensures Stripped(s[pos..]) == NextLine(s, pos, len).0 + Stripped(s[NextLine(s, pos, len).1..])
  {
    var i := SkipBreaks(s, pos);
    var k := RunEnd(s, i, len);
    StrippedBreaks(s, pos);
    StrippedRun(s, i, len);
    RunStops(s, i, len);
    if k < |s| && k - i < len {
      StrippedBreak(s, k);
    }
  }

  /** ... and none is empty, longer than the buffer, or carries a line break. */
  lemma {:induction false} PiecesFit(s: string, pos: nat, len: nat)
    requires pos <= |s| && len > 0
    ensures forall line | line in Chunks(s, pos, len) ::
              0 < |line| <= len && forall j | 0 <= j < |line| :: line[j] != '\r' && line[j] != '\n'
    decreases |s| - pos
  {
    var (line, next) := NextLine(s, pos, len);
    NextLineProgress(s, pos, len);
    if line != "" {
      RunStops(s, SkipBreaks(s, pos), len);
      PiecesFit(s, next, len);
    }
  }

  /** Lines that fit the buffer come back whole. */
  lemma {:induction false} ShortLinesWhole(lines: seq<string>, len: nat)
    requires len > 0
    ensures CutAll(lines, len) == lines <==> forall k | 0 <= k < |lines| :: |lines[k]| <= len
  {
    if lines != [] {
      ShortLinesWhole(lines[1..], len);
    }
  }
}
