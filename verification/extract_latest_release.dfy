/** The release-notes extractor run by the `publish:github` script: it cuts the newest
    version section out of the changelog with one regular expression,
      (#+\s\[[0-9]+\.[0-9]+\.[0-9]+\].*?(?=#+\s\[[0-9]+|$))   with the `s` flag,
    trims it, and falls back to a two-line note naming the package version when the
    expression finds nothing or the changelog cannot be read.

    The expression is modelled as a hand-written scanner (`HeadingEnd`, `NextAt`,
    `FirstHeading`, `SectionEnd`) and, independently, as a declarative description of
    the text each part of the pattern matches (`OpenToken`, `DigitsToken`,
    `HeadingToken`, `NextToken`, `IsRegexMatch`); lemmas prove the two agree. */
module ExtractLatestRelease {
  import opened Optional
  import opened JsStrings

  predicate IsDigit(c: char) {
    '0' <= c <= '9'
  }

  // ---------------------------------------------------------------------------
  // Scanner
  // ---------------------------------------------------------------------------

  /** End of the run of `#` characters starting at `i`. */
  function HashRunEnd(s: string, i: nat): (e: nat)
    requires i <= |s|
    ensures i <= e <= |s|
    ensures forall k :: i <= k < e ==> s[k] == '#'
    ensures e == |s| || s[e] != '#'
    decreases |s| - i
  {
    if i < |s| && s[i] == '#' then HashRunEnd(s, i + 1) else i
  }

  /** End of the run of ASCII digits starting at `i`. */
  function DigitRunEnd(s: string, i: nat): (e: nat)
    requires i <= |s|
    ensures i <= e <= |s|
    ensures forall k :: i <= k < e ==> IsDigit(s[k])
    ensures e == |s| || !IsDigit(s[e])
    decreases |s| - i
  {
    if i < |s| && IsDigit(s[i]) then DigitRunEnd(s, i + 1) else i
  }

  /** Where `#+\s\[` ends when it matches at `i`. The greedy `#+` must stop at the first
      non-`#`, since the character after it has to be whitespace. */
  function OpenEnd(s: string, i: nat): (r: Option<nat>)
    requires i <= |s|
    ensures r.Some? ==> i + 3 <= r.value <= |s|
  {
    if i < |s| && s[i] == '#' then
      var e := HashRunEnd(s, i);
      if e + 1 < |s| && IsSpace(s[e]) && s[e + 1] == '[' then Some(e + 2) else None
    else None
  }

  /** Where `[0-9]+` followed by the character `term` ends when it matches at `i`. */
  function DigitsThen(s: string, i: nat, term: char): (r: Option<nat>)
    requires i <= |s|
    ensures r.Some? ==> i + 2 <= r.value <= |s|
  {
    var e := DigitRunEnd(s, i);
    if i < e < |s| && s[e] == term then Some(e + 1) else None
  }

  /** Where the heading `#+\s\[[0-9]+\.[0-9]+\.[0-9]+\]` ends when it matches at `i`. */
  function HeadingEnd(s: string, i: nat): (r: Option<nat>)
    requires i <= |s|
    ensures r.Some? ==> i < r.value <= |s|
  {
    match OpenEnd(s, i)
    case None => None
    case Some(a) =>
      match DigitsThen(s, a, '.')
      case None => None
      case Some(b) =>
        match DigitsThen(s, b, '.')
        case None => None
        case Some(c) => DigitsThen(s, c, ']')
  }

  predicate HeadingAt(s: string, i: nat)
    requires i <= |s|
    ensures HeadingAt(s, i) ==> i < |s| && s[i] == '#'
  {
    HeadingEnd(s, i).Some?
  }

  /** The look-ahead `#+\s\[[0-9]+` succeeds at `j`; one digit after `[` is enough. */
  predicate NextAt(s: string, j: nat)
    requires j <= |s|
    ensures NextAt(s, j) ==> j < |s| && s[j] == '#'
  {
    match OpenEnd(s, j)
    case None => false
    case Some(a) => a < |s| && IsDigit(s[a])
  }

  /** Leftmost heading at or after `from`: the regular expression is tried at each
      start position in turn and the first that matches wins. */
  function FirstHeading(s: string, from: nat): (r: Option<nat>)
    requires from <= |s|
    ensures r.Some? ==> from <= r.value < |s| && HeadingAt(s, r.value)
    ensures r.Some? ==> forall k :: from <= k < r.value ==> !HeadingAt(s, k)
    ensures r.None? ==> forall k :: from <= k < |s| ==> !HeadingAt(s, k)
    decreases |s| - from
  {
    if from == |s| then None
    else if HeadingAt(s, from) then Some(from)
    else
      var r := FirstHeading(s, from + 1);
      assert forall k :: from <= k <= from ==> !HeadingAt(s, k);
      r
  }

  /** End of the lazy `.*?`: the first position at or after `from` where the
      look-ahead succeeds, or the end of the input, which is the only place `$`
      matches without the `m` flag. */
  function SectionEnd(s: string, from: nat): (j: nat)
    requires from <= |s|
    ensures from <= j <= |s|
    ensures j == |s| || NextAt(s, j)
    ensures forall k :: from <= k < j ==> !NextAt(s, k)
    decreases |s| - from
  {
    if from == |s| || NextAt(s, from) then from else SectionEnd(s, from + 1)
  }

  /** The whole match: where it starts, where its heading ends and where it ends. */
  datatype Section = Section(start: nat, headingEnd: nat, end: nat)

  /** `changelog.match(...)`: the leftmost match, or `None` when there is none. */
  function LatestSection(s: string): (r: Option<Section>)
    ensures r.None? <==> forall i :: 0 <= i < |s| ==> !HeadingAt(s, i)
    ensures r.Some? ==> r.value.start < r.value.headingEnd <= r.value.end <= |s|
    ensures r.Some? ==> HeadingEnd(s, r.value.start) == Some(r.value.headingEnd)
  {
    match FirstHeading(s, 0)
    case None => None
    case Some(i) =>
      var h := HeadingEnd(s, i).value;
      Some(Section(i, h, SectionEnd(s, h)))
  }

  // ---------------------------------------------------------------------------
  // Declarative reference: what text each part of the pattern matches
  // ---------------------------------------------------------------------------

  /** `s[a..b]` is `#+\s\[`. */
  predicate OpenToken(s: string, a: int, b: int) {
    && 0 <= a && a + 3 <= b <= |s|
    && (forall k :: a <= k < b - 2 ==> s[k] == '#')
    && IsSpace(s[b - 2]) && s[b - 1] == '['
  }

  /** `s[a..b]` is `[0-9]+` followed by `term`. */
  predicate DigitsToken(s: string, a: int, b: int, term: char) {
    && 0 <= a && a + 2 <= b <= |s|
    && (forall k :: a <= k < b - 1 ==> IsDigit(s[k]))
    && s[b - 1] == term
  }

  /** `s[i..h]` is `#+\s\[[0-9]+\.[0-9]+\.[0-9]+\]`. */
  ghost predicate HeadingToken(s: string, i: int, h: int) {
    exists a, b, c :: OpenToken(s, i, a) && DigitsToken(s, a, b, '.')
                      && DigitsToken(s, b, c, '.') && DigitsToken(s, c, h, ']')
  }

  /** Some prefix of `s[j..]` is `#+\s\[[0-9]+`. */
  ghost predicate NextToken(s: string, j: int) {
    exists a :: OpenToken(s, j, a) && a < |s| && IsDigit(s[a])
  }

  /** `s[i..j]` is the match the expression returns: a heading ending at `h` at the
      leftmost position where any heading occurs, followed by the shortest body after
      which the look-ahead or the end of input succeeds. */
  ghost predicate IsRegexMatch(s: string, i: int, h: int, j: int) {
    && HeadingToken(s, i, h)
    && (forall k, h' :: 0 <= k < i ==> !HeadingToken(s, k, h'))
    && h <= j <= |s|
    && (j == |s| || NextToken(s, j))
    && (forall k :: h <= k < j ==> !NextToken(s, k))
  }

  // ---------------------------------------------------------------------------
  // The scanner agrees with the reference
  // ---------------------------------------------------------------------------

  lemma OpenEndIff(s: string, i: nat, a: int)
    requires i <= |s|
    ensures OpenEnd(s, i) == Some(a) <==> OpenToken(s, i, a)
  {
    if OpenToken(s, i, a) {
      var e := HashRunEnd(s, i);
      assert s[i] == '#';
      assert !(s[a - 2] == '#');
      assert e == a - 2;
    }
  }

  lemma DigitsThenIff(s: string, i: nat, b: int, term: char)
    requires i <= |s| && !IsDigit(term)
    ensures DigitsThen(s, i, term) == Some(b) <==> DigitsToken(s, i, b, term)
  {
    if DigitsToken(s, i, b, term) {
      var e := DigitRunEnd(s, i);
      assert e == b - 1;
    }
  }

  /** The scanner's heading end is exactly where a heading token ends. */
  lemma HeadingEndIff(s: string, i: nat, h: int)
    requires i <= |s|
    ensures HeadingEnd(s, i) == Some(h) <==> HeadingToken(s, i, h)
  {
    if HeadingEnd(s, i) == Some(h) {
      var a := OpenEnd(s, i).value;
      var b := DigitsThen(s, a, '.').value;
      var c := DigitsThen(s, b, '.').value;
      OpenEndIff(s, i, a);
      DigitsThenIff(s, a, b, '.');
      DigitsThenIff(s, b, c, '.');
      DigitsThenIff(s, c, h, ']');
    }
    if HeadingToken(s, i, h) {
      var a, b, c :| OpenToken(s, i, a) && DigitsToken(s, a, b, '.')
                     && DigitsToken(s, b, c, '.') && DigitsToken(s, c, h, ']');
      OpenEndIff(s, i, a);
      DigitsThenIff(s, a, b, '.');
      DigitsThenIff(s, b, c, '.');
      DigitsThenIff(s, c, h, ']');
    }
  }

  /** The scanner finds a heading at `i` exactly when some heading token starts there. */
  lemma HeadingAtIff(s: string, i: nat)
    requires i <= |s|
    ensures HeadingAt(s, i) <==> exists h :: HeadingToken(s, i, h)
  {
    if HeadingAt(s, i) {
      HeadingEndIff(s, i, HeadingEnd(s, i).value);
    }
    if exists h :: HeadingToken(s, i, h) {
      var h :| HeadingToken(s, i, h);
      HeadingEndIff(s, i, h);
    }
  }

  /** The scanner's look-ahead succeeds exactly where the reference one does. */
  lemma NextAtIff(s: string, j: nat)
    requires j <= |s|
    ensures NextAt(s, j) <==> NextToken(s, j)
  {
    if NextAt(s, j) {
      OpenEndIff(s, j, OpenEnd(s, j).value);
    }
    if NextToken(s, j) {
      var a :| OpenToken(s, j, a) && a < |s| && IsDigit(s[a]);
      OpenEndIff(s, j, a);
    }
  }

  /** No heading token starts at or past the end of the input. */
  lemma NoHeadingTokenPastEnd(s: string, k: int, h: int)
    requires k < 0 || k >= |s|
    ensures !HeadingToken(s, k, h)
  {
  }

  /** `LatestSection` finds no match exactly when no heading token occurs anywhere. */
  lemma LatestSectionNoneIff(s: string)
    ensures LatestSection(s).None? <==> forall i, h :: !HeadingToken(s, i, h)
  {
    if LatestSection(s).None? {
      forall i, h ensures !HeadingToken(s, i, h) {
        if 0 <= i < |s| {
          HeadingAtIff(s, i);
        } else {
          NoHeadingTokenPastEnd(s, i, h);
        }
      }
    } else {
      var sec := LatestSection(s).value;
      HeadingEndIff(s, sec.start, sec.headingEnd);
    }
  }

  /** `LatestSection` returns exactly the match the regular expression describes. */
  lemma LatestSectionIsRegexMatch(s: string, i: nat, h: nat, j: nat)
    ensures LatestSection(s) == Some(Section(i, h, j)) <==> IsRegexMatch(s, i, h, j)
  {
    if LatestSection(s) == Some(Section(i, h, j)) {
      LatestSectionMatches(s);
    }
    if IsRegexMatch(s, i, h, j) {
      LatestSectionNoneIff(s);
      LatestSectionMatches(s);
      var sec := LatestSection(s).value;
      RegexMatchUnique(s, i, h, j, sec.start, sec.headingEnd, sec.end);
    }
  }

  lemma LatestSectionMatches(s: string)
    requires LatestSection(s).Some?
    ensures var sec := LatestSection(s).value; IsRegexMatch(s, sec.start, sec.headingEnd, sec.end)
  {
    var sec := LatestSection(s).value;
    var i, h, j := sec.start, sec.headingEnd, sec.end;
    HeadingEndIff(s, i, h);
    forall k, h' | 0 <= k < i ensures !HeadingToken(s, k, h') {
      HeadingAtIff(s, k);
    }
    NextAtIff(s, j);
    forall k | h <= k < j ensures !NextToken(s, k) {
      NextAtIff(s, k);
    }
  }

  /** Two regular-expression matches of the same input coincide. */
  lemma RegexMatchUnique(s: string, i: int, h: int, j: int, i': int, h': int, j': int)
    requires IsRegexMatch(s, i, h, j) && IsRegexMatch(s, i', h', j')
    ensures i == i' && h == h' && j == j'
  {
    assert i == i';
    assert 0 <= i <= |s| by {
      if i < 0 || i > |s| { NoHeadingTokenPastEnd(s, i, h); }
    }
    HeadingEndIff(s, i, h);
    HeadingEndIff(s, i, h');
  }

  // ---------------------------------------------------------------------------
  // The extracted notes
  // ---------------------------------------------------------------------------

  /** The note written when no section can be extracted: a heading naming the version,
      a blank line, and a sentence ending in the version. */
  function FallbackNotes(version: string): (r: string)
    ensures |r| == 2 * |version| + 21
    ensures r[..3 + |version|] == "# v" + version
    ensures r[|r| - |version|..] == version
  {
    "# v" + version + "\n\nRelease version " + version
  }

  datatype Notes = Extracted(text: string) | Fallback(text: string)

  /** The text written to the release-notes file from a readable changelog. A match is
      trimmed; since the match starts with `#`, only trailing whitespace is removed, so
      the notes are the start of the matched section. */
  function ExtractNotes(changelog: string, version: string): (r: Notes)
    ensures r.Fallback? <==> forall i :: 0 <= i < |changelog| ==> !HeadingAt(changelog, i)
    ensures r.Fallback? ==> r.text == FallbackNotes(version)
    ensures r.Extracted? ==> ExtractedFrom(changelog, LatestSection(changelog).value, r.text)
  {
    match LatestSection(changelog)
    case None => Fallback(FallbackNotes(version))
    case Some(sec) =>
      HeadingStartsWithHash(changelog, sec.start);
      TrimKeepsHeading(changelog, sec);
      Extracted(Trim(changelog[sec.start..sec.end]))
  }

  /** `t` is what trimming leaves of the section `sec` of `s`: a non-empty prefix of it
      that starts with `#`, has no whitespace at either end, and is followed in the
      section only by whitespace. */
  predicate ExtractedFrom(s: string, sec: Section, t: string) {
    && sec.start < sec.end <= |s|
    && 0 < |t| <= sec.end - sec.start
    && t[0] == '#'
    && IsTrimmed(t)
    && s[sec.start..sec.start + |t|] == t
    && AllSpace(s[sec.start + |t|..sec.end])
  }

  lemma HeadingStartsWithHash(s: string, i: nat)
    requires i <= |s| && HeadingAt(s, i)
    ensures i < |s| && s[i] == '#'
  {
  }

  /** Trimming a section that starts with `#` only removes whitespace at its end. */
  lemma TrimKeepsHeading(s: string, sec: Section)
    requires sec.start < sec.end <= |s| && s[sec.start] == '#'
    ensures ExtractedFrom(s, sec, Trim(s[sec.start..sec.end]))
  {
    var m := s[sec.start..sec.end];
    assert m[0] == '#';
    LeadingSpaceIs(m, 0);
    var t := Trim(m);
    var a := sec.start + |t|;
    assert t == m[..|t|];
    assert s[sec.start..a] == t by {
      assert forall k :: 0 <= k < |t| ==> s[sec.start..a][k] == m[k];
    }
    assert AllSpace(s[a..sec.end]) by {
      assert forall k :: 0 <= k < sec.end - a ==> s[a..sec.end][k] == m[|t| + k];
    }
  }

  /** Reference statement of the extractor: the notes are the trimmed regular-expression
      match when there is one, and the fallback note exactly when there is none. */
  lemma ExtractNotesIsTrimmedMatch(changelog: string, version: string, t: string)
    ensures ExtractNotes(changelog, version) == Extracted(t) <==>
              exists i: nat, h: nat, j: nat :: j <= |changelog| && IsRegexMatch(changelog, i, h, j) && t == Trim(changelog[i..j])
    ensures ExtractNotes(changelog, version).Fallback? <==> forall i, h :: !HeadingToken(changelog, i, h)
  {
    LatestSectionNoneIff(changelog);
    if ExtractNotes(changelog, version) == Extracted(t) {
      var sec := LatestSection(changelog).value;
      LatestSectionIsRegexMatch(changelog, sec.start, sec.headingEnd, sec.end);
    }
    if exists i: nat, h: nat, j: nat :: j <= |changelog| && IsRegexMatch(changelog, i, h, j) && t == Trim(changelog[i..j]) {
      var i: nat, h: nat, j: nat :| j <= |changelog| && IsRegexMatch(changelog, i, h, j) && t == Trim(changelog[i..j]);
      LatestSectionIsRegexMatch(changelog, i, h, j);
    }
  }

  /** The package version only feeds the fallback note: when a section is found, the
      notes are the same whatever the version. */
  lemma ExtractIgnoresVersion(changelog: string, v1: string, v2: string)
    requires ExtractNotes(changelog, v1).Extracted?
    ensures ExtractNotes(changelog, v2) == ExtractNotes(changelog, v1)
  {
  }

  /** The scanner's section end is the first look-ahead position at or after `from`. */
  lemma SectionEndIs(s: string, from: nat, j: nat)
    requires from <= j <= |s|
    requires j == |s| || NextAt(s, j)
    requires forall k :: from <= k < j ==> !NextAt(s, k)
    ensures SectionEnd(s, from) == j
  {
  }

  /** The changelog of the worked example: two version sections. */
  const ExampleChangelog := "## [1.2.0] - notes\n" + "Fixed bug.\n" + "## [1.1.0] - notes\nOld."

  /** The pieces of the example changelog: the newest heading line, its body, and the
      older section. */
  predicate ExamplePieces(s: string, first: string, body: string, rest: string) {
    && first == "## [1.2.0] - notes\n" && body == "Fixed bug.\n"
    && rest == "## [1.1.0] - notes\nOld."
    && s == first + body + rest
  }

  lemma ExampleHeading(s: string, first: string, body: string, rest: string)
    requires ExamplePieces(s, first, body, rest)
    ensures HeadingEnd(s, 0) == Some(10)
  {
    assert forall k :: 0 <= k < 10 ==> s[k] == first[k];
    assert OpenToken(s, 0, 4) && DigitsToken(s, 4, 6, '.') && DigitsToken(s, 6, 8, '.') && DigitsToken(s, 8, 10, ']');
    HeadingEndIff(s, 0, 10);
  }

  /** No character between the first heading and the second is a `#`. */
  lemma ExampleNoHash(s: string, first: string, body: string, rest: string)
    requires ExamplePieces(s, first, body, rest)
    ensures forall k :: 10 <= k < 30 ==> s[k] != '#'
  {
    assert forall k :: 10 <= k < 19 ==> s[k] == first[k];
    assert forall k :: 19 <= k < 30 ==> s[k] == body[k - 19];
  }

  lemma ExampleNext(s: string, first: string, body: string, rest: string)
    requires ExamplePieces(s, first, body, rest)
    ensures 30 <= |s| && NextAt(s, 30)
    ensures forall k :: 10 <= k < 30 ==> !NextAt(s, k)
  {
    assert forall k :: 30 <= k < 35 ==> s[k] == rest[k - 30];
    assert OpenToken(s, 30, 34) && IsDigit(s[34]);
    NextAtIff(s, 30);
    ExampleNoHash(s, first, body, rest);
  }

  /** The example's match: the newest heading at 0, ending at 10, and the body up to the
      older heading at 30. */
  lemma ExampleSection(s: string, first: string, body: string, rest: string)
    requires ExamplePieces(s, first, body, rest)
    ensures LatestSection(s) == Some(Section(0, 10, 30))
  {
    ExampleHeading(s, first, body, rest);
    assert FirstHeading(s, 0) == Some(0);
    ExampleNext(s, first, body, rest);
    SectionEndIs(s, 10, 30);
  }

  lemma ExampleTrim(s: string, first: string, body: string, rest: string)
    requires ExamplePieces(s, first, body, rest)
    ensures Trim(s[0..30]) == "## [1.2.0] - notes\nFixed bug."
  {
    assert s[0..30] == "" + "## [1.2.0] - notes\nFixed bug." + "\n";
    TrimUnique(s[0..30], "", "## [1.2.0] - notes\nFixed bug.", "\n");
  }

  lemma ExampleExtract(s: string, first: string, body: string, rest: string)
    requires ExamplePieces(s, first, body, rest)
    ensures ExtractNotes(s, "1.2.0") == Extracted("## [1.2.0] - notes\nFixed bug.")
  {
    ExampleSection(s, first, body, rest);
    ExampleTrim(s, first, body, rest);
  }

  /** The worked example: the newest section is cut just before the next version heading
      and its trailing newline is trimmed. */
  lemma ExtractExample(changelog: string)
    requires changelog == ExampleChangelog
    ensures ExtractNotes(changelog, "1.2.0") == Extracted("## [1.2.0] - notes\nFixed bug.")
  {
    var first, body, rest := "## [1.2.0] - notes\n", "Fixed bug.\n", "## [1.1.0] - notes\nOld.";
    assert ExamplePieces(changelog, first, body, rest);
    ExampleExtract(changelog, first, body, rest);
  }

  // ---------------------------------------------------------------------------
  // One run of the script
  // ---------------------------------------------------------------------------

  /** What a run leaves behind: the text of `LATEST_RELEASE.md`, or `None` when no
      write succeeded, and the exit status. */
  datatype RunResult = RunResult(written: Option<string>, exitCode: nat)

  /** A run of the script. `changelog` is `None` when the changelog cannot be read.
      `notesWrite` and `fallbackWrite` say whether the write in the main path and the
      write in the error handler succeed. Any failure in the main path sends the run to
      the error handler, which writes the fallback note and exits with status 1; when
      that write fails as well, the script crashes, also with status 1. */
  function Run(changelog: Option<string>, version: string, notesWrite: bool, fallbackWrite: bool): (r: RunResult)
    ensures r.exitCode == 0 <==> changelog.Some? && notesWrite
    ensures r.exitCode == 1 <==> !(changelog.Some? && notesWrite)
    ensures r.exitCode == 0 ==> r.written == Some(ExtractNotes(changelog.value, version).text)
    ensures r.exitCode == 1 && fallbackWrite ==> r.written == Some(FallbackNotes(version))
    ensures r.exitCode == 1 && !fallbackWrite ==> r.written == None
  {
    if changelog.Some? && notesWrite then
      RunResult(Some(ExtractNotes(changelog.value, version).text), 0)
    else
      RunResult(if fallbackWrite then Some(FallbackNotes(version)) else None, 1)
  }
}
