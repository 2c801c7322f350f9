/** The slice of JavaScript's string built-ins the scripts rely on: the whitespace set
    shared by the regular-expression class `\s` and `String.prototype.trim`, `trim`
    itself, and lower-casing restricted to ASCII letters. */
module JsStrings {

  /** ECMAScript WhiteSpace and LineTerminator code points: TAB, LF, VT, FF, CR, SPACE,
      NO-BREAK SPACE, the other space separators (Zs), LS, PS and the byte order mark. */
  predicate IsSpace(c: char) {
    || c == '\t' || c == '\n' || c == '\U{B}' || c == '\U{C}' || c == '\r' || c == ' '
    || c == '\U{A0}' || c == '\U{1680}' || ('\U{2000}' <= c <= '\U{200A}')
    || c == '\U{2028}' || c == '\U{2029}' || c == '\U{202F}' || c == '\U{205F}'
    || c == '\U{3000}' || c == '\U{FEFF}'
  }

  predicate AllSpace(t: string) {
    forall k :: 0 <= k < |t| ==> IsSpace(t[k])
  }

  /** Neither end of `t` is whitespace: what `trim` promises of its result. */
  predicate IsTrimmed(t: string) {
    |t| == 0 || (!IsSpace(t[0]) && !IsSpace(t[|t| - 1]))
  }

  /** Length of the whitespace prefix of `t`. */
  function LeadingSpace(t: string): (n: nat)
    ensures n <= |t|
    ensures forall k :: 0 <= k < n ==> IsSpace(t[k])
    ensures n == |t| || !IsSpace(t[n])
  {
    if |t| == 0 || !IsSpace(t[0]) then 0 else 1 + LeadingSpace(t[1..])
  }

  /** Length of the whitespace suffix of `t`. */
  function TrailingSpace(t: string): (n: nat)
    ensures n <= |t|
    ensures forall k :: |t| - n <= k < |t| ==> IsSpace(t[k])
    ensures n == |t| || !IsSpace(t[|t| - n - 1])
  {
    if |t| == 0 || !IsSpace(t[|t| - 1]) then 0 else 1 + TrailingSpace(t[..|t| - 1])
  }

  /** `String.prototype.trim`: the text left once the whitespace at both ends is removed.
      It sits in `t` right after the leading whitespace, and only whitespace follows it. */
  function Trim(t: string): (r: string)
    ensures IsTrimmed(r)
    ensures LeadingSpace(t) + |r| <= |t|
    ensures t[LeadingSpace(t)..LeadingSpace(t) + |r|] == r
    ensures forall k :: LeadingSpace(t) + |r| <= k < |t| ==> IsSpace(t[k])
  {
    var a := LeadingSpace(t);
    t[a..|t| - TrailingSpace(t[a..])]
  }

  /** The whitespace prefix is determined by its two defining facts. */
  lemma LeadingSpaceIs(t: string, n: nat)
    requires n <= |t| && forall k :: 0 <= k < n ==> IsSpace(t[k])
    requires n == |t| || !IsSpace(t[n])
    ensures LeadingSpace(t) == n
  {
  }

  /** The whitespace suffix is determined by its two defining facts. */
  lemma TrailingSpaceIs(t: string, n: nat)
    requires n <= |t| && forall k :: |t| - n <= k < |t| ==> IsSpace(t[k])
    requires n == |t| || !IsSpace(t[|t| - n - 1])
    ensures TrailingSpace(t) == n
  {
  }

  /** Reference characterisation of `trim`: whenever `t` is some whitespace, then a text
      with non-whitespace ends, then some whitespace, trimming returns exactly that text. */
  lemma TrimUnique(t: string, lead: string, r: string, trail: string)
    requires t == lead + r + trail
    requires AllSpace(lead) && AllSpace(trail) && IsTrimmed(r)
    ensures Trim(t) == r
  {
    if |r| == 0 {
      assert t[..|t|] == t;
      LeadingSpaceIs(t, |t|);
    } else {
      assert t[..|lead|] == lead;
      LeadingSpaceIs(t, |lead|);
      var u := t[|lead|..];
      assert u == r + trail;
      assert u[|u| - |trail|..] == trail;
      TrailingSpaceIs(u, |trail|);
      assert u[..|u| - |trail|] == r;
    }
  }

  /** Every text is its leading whitespace, its trimmed form and its trailing whitespace. */
  lemma TrimDecomposes(t: string) returns (lead: string, trail: string)
    ensures t == lead + Trim(t) + trail
    ensures AllSpace(lead) && AllSpace(trail)
  {
    var a := LeadingSpace(t);
    var r := Trim(t);
    lead := t[..a];
    trail := t[a + |r|..];
    assert t == t[..a] + t[a..a + |r|] + t[a + |r|..];
  }

  lemma AllSpaceConcat(a: string, b: string)
    requires AllSpace(a) && AllSpace(b)
    ensures AllSpace(a + b)
  {
    assert forall k :: |a| <= k < |a + b| ==> (a + b)[k] == b[k - |a|];
  }

  /** Trimming leaves a text with non-whitespace ends unchanged. */
  lemma TrimOfTrimmed(t: string)
    requires IsTrimmed(t)
    ensures Trim(t) == t
  {
    assert t == "" + t + "";
    TrimUnique(t, "", t, "");
  }

  /** Whitespace added around a text does not change what `trim` returns. */
  lemma TrimIgnoresPadding(t: string, before: string, after: string)
    requires AllSpace(before) && AllSpace(after)
    ensures Trim(before + t + after) == Trim(t)
  {
    var r := Trim(t);
    var lead, trail := TrimDecomposes(t);
    AllSpaceConcat(before, lead);
    AllSpaceConcat(trail, after);
    assert before + t + after == (before + lead) + r + (trail + after);
    TrimUnique(before + t + after, before + lead, r, trail + after);
  }

  /** Lower-cases one ASCII letter; every other character is left as it is. */
  function LowerChar(c: char): (d: char)
  {
    if 'A' <= c <= 'Z' then (c as int - 'A' as int + 'a' as int) as char else c
  }

  /** `toLowerCase` restricted to ASCII letters. */
  function ToLowerAscii(t: string): (r: string)
    ensures |r| == |t|
    ensures forall k :: 0 <= k < |t| ==> r[k] == LowerChar(t[k])
  {
    if |t| == 0 then [] else [LowerChar(t[0])] + ToLowerAscii(t[1..])
  }

  /** A lower-cased text equals a given lower-case word exactly when every character
      lower-cases onto the word's character at the same place. */
  lemma ToLowerAsciiIs(t: string, w: string)
    ensures ToLowerAscii(t) == w <==> |t| == |w| && forall k :: 0 <= k < |t| ==> LowerChar(t[k]) == w[k]
  {
    if |t| == |w| && forall k :: 0 <= k < |t| ==> LowerChar(t[k]) == w[k] {
      assert forall k :: 0 <= k < |t| ==> ToLowerAscii(t)[k] == w[k];
    }
  }
}
