/** Percent-decoding and path cleaning, both done in place on the buffer being read. */
module Uri {
  import opened CStrings

  // ---------- Percent-decoding ----------

  predicate IsHex(c: char) {
    '0' <= c <= '9' || 'a' <= c <= 'f' || 'A' <= c <= 'F'
  }

  /** `HEXTOI(tolower(c))` */
  function HexValue(c: char): (v: int)
    requires IsHex(c)
    ensures 0 <= v < 16
  {
    if c <= '9' then (c - '0') as int
    else if c <= 'F' then (c - 'A') as int + 10
    else (c - 'a') as int + 10
  }

  predicate Escaped(s: string) {
    |s| >= 3 && s[0] == '%' && IsHex(s[1]) && IsHex(s[2])
  }

  function Unescape(high: char, low: char): char
    requires IsHex(high) && IsHex(low)
  {
    (16 * HexValue(high) + HexValue(low)) as char
  }

  /** One pass over the input: an escape becomes the character it names, anything else,
      a stray '%' included, stays. */
  function Decode(s: string): string
    decreases |s|
  {
    if s == [] then []
    else if Escaped(s) then [Unescape(s[1], s[2])] + Decode(s[3..])
    else [s[0]] + Decode(s[1..])
  }

  /** Source and destination may be the same buffer: the write position never overtakes the
      read position. The NUL that ends the source stops an escape from reaching past it. */
  method UriDecode(src: array<char>, srcLen: nat, dst: array<char>, dstLen: nat) returns (j: nat)
    requires srcLen < src.Length && src[srcLen] == '\0'
    requires 1 <= dstLen <= dst.Length
    modifies dst
    ensures
      var decoded := Decode(old(src[..srcLen]));
      && j == (if |decoded| < dstLen then |decoded| else dstLen - 1)
      && dst[..j] == decoded[..j] && dst[j] == '\0'
    ensures forall k | j < k < dst.Length :: dst[k] == old(dst[k])
  {
    hide Decode;
    ghost var s, out := src[..srcLen], "";
    var i := 0;
    j := 0;
    while i < srcLen && j < dstLen - 1
      invariant |out| == j <= i <= srcLen && j <= dstLen - 1
      invariant forall k | j <= k < dst.Length :: dst[k] == old(dst[k])
      invariant src[srcLen] == '\0' && forall k | i <= k < srcLen :: src[k] == s[k]
      invariant forall k | 0 <= k < j :: dst[k] == out[k]
      invariant out + Decode(s[i..]) == Decode(s)
    {
      var c, next := DecodeAt(src, i, s, out);
      dst[j] := c;
      out := out + [c];
      i, j := next, j + 1;
    }
    if i == srcLen {
      NothingLeft(s);
    }
    assert out == Decode(s)[..j];
    dst[j] := '\0';
  }

  /** One round of the loop: the character to write, and where to read on. */
  method DecodeAt(src: array<char>, start: nat, ghost s: string, ghost out: string) returns (c: char, i: nat)
    requires start < |s| < src.Length && src[|s|] == '\0'
    requires forall k | start <= k < |s| :: src[k] == s[k]
    ensures start < i <= |s|
    ensures out + Decode(s[start..]) == out + [c] + Decode(s[i..])
  {
    hide Decode;
    DecodeStep(s, start, out);
    i := start;
    if src[i] == '%' && IsHex(src[i + 1]) && IsHex(src[i + 2]) {
      c := Unescape(src[i + 1], src[i + 2]);
      i := i + 2;
    } else {
      c := src[i];
    }
    i := i + 1;
  }

  lemma NothingLeft(s: string)
    ensures s[|s|..] == "" && Decode("") == ""
  {}

  lemma DecodeStep(s: string, i: nat, out: string)
    requires i < |s|
    ensures Escaped(s[i..]) <==> i + 2 < |s| && s[i] == '%' && IsHex(s[i + 1]) && IsHex(s[i + 2])
    ensures
      out + Decode(s[i..]) ==
      if Escaped(s[i..]) then out + [Unescape(s[i + 1], s[i + 2])] + Decode(s[i + 3..])
      else out + [s[i]] + Decode(s[i + 1..])
  {}

  // ---------- Encoding, sections 2.1 and 2.4 of RFC 3986 ----------

  /** Any encoding of `s`: each character as it is, unless it is '%', or as an escape in
      either case of hexadecimal digits. */
  predicate Encodes(enc: string, s: string)
    decreases |enc|
  {
    if enc == [] || s == [] then enc == s
    else if enc[0] == '%' then Escaped(enc) && Unescape(enc[1], enc[2]) == s[0] && Encodes(enc[3..], s[1..])
    else enc[0] == s[0] && Encodes(enc[1..], s[1..])
  }

  predicate WellFormed(enc: string)
    decreases |enc|
  {
    if enc == [] then true
    else if enc[0] == '%' then Escaped(enc) && WellFormed(enc[3..])
    else WellFormed(enc[1..])
  }

  /** Decoding undoes every encoding, and a well-formed string encodes nothing but what it
      decodes to. In particular a '%' that comes out of an escape is never decoded again. */
  lemma {:induction false} DecodeInvertsEncode(enc: string, s: string)
    ensures Encodes(enc, s) <==> WellFormed(enc) && Decode(enc) == s
    decreases |enc|
  {
    if enc != [] && s != [] {
      if enc[0] == '%' {
        if Escaped(enc) {
          DecodeInvertsEncode(enc[3..], s[1..]);
          assert Decode(enc)[1..] == Decode(enc[3..]);
          assert s == [s[0]] + s[1..];
        }
      } else {
        DecodeInvertsEncode(enc[1..], s[1..]);
        assert Decode(enc)[1..] == Decode(enc[1..]);
        assert s == [s[0]] + s[1..];
      }
    }
  }

  // ---------- An encoder with the digits written out ----------

  const LOWER_DIGITS := "0123456789abcdef"
  const UPPER_DIGITS := "0123456789ABCDEF"
  const HEX := "0123456789abcdefABCDEF"

  /** How a character is written: as it is, or as an escape, each digit in either case. */
  datatype Form = Raw | Escape(upperHigh: bool, upperLow: bool)

  function Digit(n: nat, upper: bool): char
    requires n < 16
  {
    if upper then UPPER_DIGITS[n] else LOWER_DIGITS[n]
  }

  function EncodeChar(c: char, form: Form): string
    requires c < 256 as char
  {
    match form
    case Raw => [c]
    case Escape(h, l) => ['%', Digit(c as int / 16, h), Digit(c as int % 16, l)]
  }

  function Encode(s: string, forms: seq<Form>): string
    requires |forms| == |s| && forall i | 0 <= i < |s| :: s[i] < 256 as char
  {
    if s == "" then "" else EncodeChar(s[0], forms[0]) + Encode(s[1..], forms[1..])
  }

  lemma DigitIsHex(n: nat, upper: bool)
    requires n < 16
    ensures IsHex(Digit(n, upper)) && HexValue(Digit(n, upper)) == n
  {}

  /** An escape stands for the character whose code its digits write, high digit first. */
  lemma EscapeDecodes(c: char, upperHigh: bool, upperLow: bool, rest: string)
    requires c < 256 as char
    ensures Decode(EncodeChar(c, Escape(upperHigh, upperLow)) + rest) == [c] + Decode(rest)
  {
    hide Digit;
    var n := c as int;
    DigitIsHex(n / 16, upperHigh);
    DigitIsHex(n % 16, upperLow);
    var s := EncodeChar(c, Escape(upperHigh, upperLow)) + rest;
    assert s[3..] == rest;
  }

  lemma HexDigits(c: char)
    ensures IsHex(c) <==> c in HEX
  {
    if '0' <= c <= '9' {
      assert HEX[c as int - '0' as int] == c;
    } else if 'a' <= c <= 'f' {
      assert HEX[c as int - 'a' as int + 10] == c;
    } else if 'A' <= c <= 'F' {
      assert HEX[c as int - 'A' as int + 16] == c;
    }
  }

  /** Everything else stands for itself: other characters, and a '%' without two digits. */
  lemma PlainDecodes(s: string)
    requires s != "" && (s[0] != '%' || |s| < 3 || s[1] !in HEX || s[2] !in HEX)
    ensures Decode(s) == [s[0]] + Decode(s[1..])
  {
    assert !Escaped(s) by {
      NotEscaped(s);
    }
  }

  lemma NotEscaped(s: string)
    requires s != "" && (s[0] != '%' || |s| < 3 || s[1] !in HEX || s[2] !in HEX)
    ensures !Escaped(s)
  {
    hide IsHex;
    if |s| >= 3 {
      HexDigits(s[1]);
      HexDigits(s[2]);
    }
  }

  /** Decoding gives back every string, however each character was written, as long as '%' was
      not written as it is. */
  lemma {:induction false} EncodeDecodes(s: string, forms: seq<Form>)
    requires |forms| == |s| && forall i | 0 <= i < |s| :: s[i] < 256 as char
    requires forall i | 0 <= i < |s| :: s[i] == '%' ==> forms[i] != Raw
    ensures Decode(Encode(s, forms)) == s
  {
    hide EncodeChar;
    if s != "" {
      var rest := Encode(s[1..], forms[1..]);
      EncodeDecodes(s[1..], forms[1..]);
      match forms[0]
      case Raw =>
        RawEncodes(s[0]);
        assert ([s[0]] + rest)[1..] == rest;
        PlainDecodes([s[0]] + rest);
      case Escape(h, l) => EscapeDecodes(s[0], h, l, rest);
    }
  }

  lemma RawEncodes(c: char)
    requires c < 256 as char
    ensures EncodeChar(c, Raw) == [c]
  {}

  // ---------- Path cleaning ----------

  predicate IsSeparator(c: char) {
    c == '/' || c == '\\'
  }

  predicate IsDotty(c: char) {
    c == '.' || IsSeparator(c)
  }

  /** Drops dots and separators for as long as they follow a separator. */
  function Clean(s: string, inRun: bool := false): string {
    if s == [] then []
    else if inRun && IsDotty(s[0]) then Clean(s[1..], true)
    else [s[0]] + Clean(s[1..], IsSeparator(s[0]))
  }

  lemma {:induction false} CleanAddsNothing(s: string, inRun: bool)
    ensures |Clean(s, inRun)| <= |s| && forall c | c in Clean(s, inRun) :: c in s
  {
    if s != [] {
      CleanAddsNothing(s[1..], if inRun && IsDotty(s[0]) then true else IsSeparator(s[0]));
    }
  }

  lemma CleanStep(s: string, i: nat, inRun: bool, out: string)
    requires i < |s|
    ensures
      out + Clean(s[i..], inRun) ==
      if inRun && IsDotty(s[i]) then out + Clean(s[i + 1..], true)
      else out + [s[i]] + Clean(s[i + 1..], IsSeparator(s[i]))
  {}

  method RemoveDoubleDots(buf: array<char>, ghost text: string)
    requires Holds(buf[..], text)
    modifies buf
    ensures Holds(buf[..], Clean(text))
  {
    ghost var n, out := |text|, "";
    assert forall k | 0 <= k < n :: buf[k] == buf[..n][k] == text[k];
    var p, s := 0, 0;
    while buf[s] != '\0'
      invariant |out| == p <= s <= n < buf.Length
      invariant forall k | s <= k < n :: buf[k] == text[k]
      invariant buf[n] == '\0'
      invariant forall k | 0 <= k < p :: buf[k] == out[k]
      invariant out + Clean(text[s..]) == Clean(text)
      decreases n - s
    {
      CleanStep(text, s, false, out);
      buf[p] := buf[s];
      out := out + [buf[p]];
      p, s := p + 1, s + 1;
      // s[-1] is not overwritten yet, or was just written with its own character
      assert buf[s - 1] == text[s - 1];
      if IsSeparator(buf[s - 1]) {
        s := SkipRun(buf, s, text, out);
      }
    }
    assert s == n;
    assert out == Clean(text);
    buf[p] := '\0';
    assert buf[..p] == out;
    CleanAddsNothing(text, false);
  }

  /** The inner loop: past the dots and separators that follow a separator. */
  method SkipRun(buf: array<char>, start: nat, ghost text: string, ghost out: string) returns (s: nat)
    requires start <= |text| < buf.Length && buf[|text|] == '\0'
    requires forall k | start <= k < |text| :: buf[k] == text[k]
    ensures start <= s <= |text|
    ensures out + Clean(text[s..]) == out + Clean(text[start..], true)
  {
    s := start;
    while IsDotty(buf[s])
      invariant start <= s <= |text|
      invariant out + Clean(text[s..], true) == out + Clean(text[start..], true)
      decreases |text| - s
    {
      CleanStep(text, s, true, out);
      s := s + 1;
    }
    if s < |text| {
      CleanStep(text, s, true, out);
      CleanStep(text, s, false, out);
    }
  }

  method UriParse(src: array<char>, len: nat)
    requires 1 <= len <= src.Length && src[len - 1] == '\0'
    modifies src
    ensures Holds(src[..], Clean(CString(Decode(old(src[..len - 1])), 0)))
  {
    ghost var decoded := Decode(src[..len - 1]);
    DecodeShrinks(src[..len - 1]);
    FindCharStops(decoded, 0, '\0');
    var j := UriDecode(src, len - 1, src, len);
    assert forall k | 0 <= k < j :: src[k] == src[..j][k] == decoded[k];
    RemoveDoubleDots(src, CString(decoded, 0));
  }

  lemma {:induction false} DecodeShrinks(s: string)
    ensures |Decode(s)| <= |s|
    decreases |s|
  {
    if s != [] {
      DecodeShrinks(s[if Escaped(s) then 3 else 1..]);
    }
  }

  // ---------- What cleaning means ----------

  /** Position `i` lies in an unbroken run of dots and separators behind a separator. */
  ghost predicate InRun(s: string, i: nat)
    requires i <= |s|
  {
    exists j :: 0 <= j < i && (s[j] == '/' || s[j] == '\\') &&
      forall k | j < k < i :: s[k] == '.' || s[k] == '/' || s[k] == '\\'
  }

  /** The characters of `s` from `i` on that are kept, each judged by its own position. */
  ghost function Kept(s: string, i: nat): string
    requires i <= |s|
    decreases |s| - i
  {
    if i == |s| then []
    else (if InRun(s, i) && (s[i] == '.' || s[i] == '/' || s[i] == '\\') then [] else [s[i]]) + Kept(s, i + 1)
  }

  lemma {:induction false} CleanKeeps(s: string, i: nat)
    requires i <= |s|
    ensures Clean(s[i..], InRun(s, i)) == Kept(s, i)
    decreases |s| - i
  {
    if i < |s| {
      CleanKeeps(s, i + 1);
      CleanStep(s, i, InRun(s, i), []);
      hide InRun, Clean;
      if InRun(s, i) && IsDotty(s[i]) {
        RunGoesOn(s, i);
      } else {
        NewRun(s, i);
      }
    }
  }

  lemma RunGoesOn(s: string, i: nat)
    requires i < |s| && InRun(s, i) && IsDotty(s[i])
    ensures InRun(s, i + 1)
  {}

  lemma NewRun(s: string, i: nat)
    requires i < |s| && !(InRun(s, i) && IsDotty(s[i]))
    ensures InRun(s, i + 1) <==> IsSeparator(s[i])
  {}

  /** Cleaning keeps, in order, exactly the characters that are not part of a run of dots and
      separators behind a separator. */
  lemma CleanIsFilter(s: string)
    ensures Clean(s) == Kept(s, 0)
  {
    CleanKeeps(s, 0);
    assert s[0..] == s;
  }

  predicate IsClean(s: string) {
    forall i | 0 <= i < |s| - 1 ::
      s[i] == '/' || s[i] == '\\' ==> s[i + 1] != '.' && s[i + 1] != '/' && s[i + 1] != '\\'
  }

  lemma {:induction false} CleanedIsClean(s: string, inRun: bool)
    ensures IsClean(Clean(s, inRun))
    ensures inRun && Clean(s, inRun) != [] ==> !IsDotty(Clean(s, inRun)[0])
  {
    if s != [] {
      var next := if inRun && IsDotty(s[0]) then true else IsSeparator(s[0]);
      CleanedIsClean(s[1..], next);
    }
  }

  lemma {:induction false} CleanStays(s: string)
    requires IsClean(s)
    ensures Clean(s) == s
    ensures s != [] && !IsDotty(s[0]) ==> Clean(s, true) == s
  {
    if s != [] {
      forall i | 0 <= i < |s[1..]| - 1 ensures IsSeparator(s[1..][i]) ==> !IsDotty(s[1..][i + 1]) {
        assert s[1..][i] == s[i + 1] && s[1..][i + 1] == s[i + 1 + 1];
      }
      CleanStays(s[1..]);
      if |s| > 1 {
        assert IsSeparator(s[0]) ==> !IsDotty(s[0 + 1]);
      }
    }
  }

  /** Cleaning leaves no separator followed by a dot or separator, changes exactly the strings
      that have one, and a second cleaning changes nothing. */
  lemma CleanFixpoint(s: string)
    ensures IsClean(Clean(s))
    ensures Clean(s) == s <==> IsClean(s)
    ensures Clean(Clean(s)) == Clean(s)
  {
    CleanedIsClean(s, false);
    CleanStays(Clean(s));
    if IsClean(s) {
      CleanStays(s);
    }
  }

  /** A ".." at `i`, between separators or between a separator and an end of the path. */
  predicate ParentSegmentAt(s: string, i: nat) {
    && i + 1 < |s| && s[i] == '.' && s[i + 1] == '.'
    && (i == 0 || s[i - 1] == '/' || s[i - 1] == '\\')
    && (i + 2 == |s| || s[i + 2] == '/' || s[i + 2] == '\\')
  }

  /** Dots that begin a path are kept. */
  lemma LeadingDots(s: string)
    ensures |Clean(s)| >= 2 && Clean(s)[0] == Clean(s)[1] == '.' <==> |s| >= 2 && s[0] == s[1] == '.'
    ensures |s| >= 2 && s[0] == s[1] == '.' ==> Clean(s) == ['.', '.'] + Clean(s[2..])
  {}

  /** A cleaned path steps up to a parent directory only at its very beginning, and only where
      the uncleaned one begins with such a step. */
  lemma CleanedNeverClimbs(s: string, i: nat)
    ensures ParentSegmentAt(Clean(s), i) <==> i == 0 && ParentSegmentAt(s, 0)
  {
    var t := Clean(s);
    CleanedIsClean(s, false);
    LeadingDots(s);
    assert 0 < i < |t| ==> t[i - 1 + 1] == t[i];
  }

  /** Whatever escapes a URI uses, a path that decodes to an absolute one has no ".." left. */
  lemma ParsedUriNeverClimbs(uri: string, i: nat)
    requires CString(Decode(uri), 0) != [] && CString(Decode(uri), 0)[0] == '/'
    ensures !ParentSegmentAt(Clean(CString(Decode(uri), 0)), i)
  {
    CleanedNeverClimbs(CString(Decode(uri), 0), i);
  }
}
