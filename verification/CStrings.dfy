/** Searches over a character buffer, and the NUL-terminated strings in it. */
module CStrings {

  /** Where the first `c` from `i` on is, or the end of the buffer. */
  function FindChar(b: seq<char>, i: nat, c: char): (k: nat)
    requires i <= |b|
    ensures i <= k <= |b|
    decreases |b| - i
  {
    if i == |b| || b[i] == c then i else FindChar(b, i + 1, c)
  }

  /** Where the first character other than `c` is, or the end of the buffer. */
  function SkipChar(b: seq<char>, i: nat, c: char): (k: nat)
    requires i <= |b|
    ensures i <= k <= |b|
    decreases |b| - i
  {
    if i == |b| || b[i] != c then i else SkipChar(b, i + 1, c)
  }

  lemma {:induction false} FindCharStops(b: seq<char>, i: nat, c: char)
    requires i <= |b|
    ensures
      var k := FindChar(b, i, c);
      (k < |b| ==> b[k] == c) && forall j | i <= j < k :: b[j] != c
    decreases |b| - i
  {
    if i < |b| && b[i] != c {
      FindCharStops(b, i + 1, c);
    }
  }

  lemma FindCharIs(b: seq<char>, i: nat, c: char, k: nat)
    requires i <= k < |b| && b[k] == c && forall j | i <= j < k :: b[j] != c
    ensures FindChar(b, i, c) == k
  {
    FindCharStops(b, i, c);
  }

  /** The C string at `i`. */
  function CString(b: seq<char>, i: nat): string
    requires i <= |b|
  {
    b[i..FindChar(b, i, '\0')]
  }

  /** The buffer holds `text` as a C string. */
  predicate Holds(b: seq<char>, text: string) {
    |text| < |b| && b[..|text|] == text && b[|text|] == '\0' && '\0' !in text
  }
}
