/** The interactive release script: it reads one answer, resolves it to a release type
    with a fixed table (defaulting to patch), and hands the type to standard-version. */
module Release {
  import opened JsStrings

  datatype ReleaseType = Patch | Minor | Major

  /** The word standard-version expects after `--release-as`. It is one of the `case`
      labels of its own type's branch. */
  function Name(t: ReleaseType): (w: string)
    ensures t == Patch ==> w in PatchKeys
    ensures t == Minor ==> w in MinorKeys
    ensures t == Major ==> w in MajorKeys
  {
    match t
    case Patch => "patch"
    case Minor => "minor"
    case Major => "major"
  }

  /** The answer as the `switch` compares it: trimmed, then lower-cased. The key has
      no whitespace at its ends, so normalising it again changes nothing
      (`NormalizeIdempotent`). */
  function Normalize(answer: string): (key: string)
    ensures IsTrimmed(key)
  {
    var t := Trim(answer);
    assert IsTrimmed(ToLowerAscii(t)) by {
      if |t| > 0 {
        LowerCharKeepsSpace(t[0]);
        LowerCharKeepsSpace(t[|t| - 1]);
      }
    }
    ToLowerAscii(t)
  }

  /** The `case` labels of each branch of the `switch`. */
  const PatchKeys: set<string> := {"0", "p", "patch"}
  const MinorKeys: set<string> := {"1", "m", "minor"}
  const MajorKeys: set<string> := {"2", "major"}

  /** The release type an answer selects. Only the minor and major labels lead away from
      patch: every other answer, the empty one included, falls to the default. */
  function Resolve(answer: string): (t: ReleaseType)
    ensures t == Minor <==> Normalize(answer) in MinorKeys
    ensures t == Major <==> Normalize(answer) in MajorKeys
    ensures t == Patch <==> Normalize(answer) !in MinorKeys + MajorKeys
  {
    var key := Normalize(answer);
    if key in PatchKeys then Patch
    else if key in MinorKeys then Minor
    else if key in MajorKeys then Major
    else Patch
  }

  /** An answer with no whitespace at its ends is only lower-cased. */
  lemma NormalizeTrimmed(answer: string)
    requires IsTrimmed(answer)
    ensures Normalize(answer) == ToLowerAscii(answer)
  {
    TrimOfTrimmed(answer);
  }

  /** A normalised answer is its own key. */
  lemma NormalizeIdempotent(answer: string)
    ensures Normalize(Normalize(answer)) == Normalize(answer)
  {
    var key := Normalize(answer);
    TrimOfTrimmed(key);
    ToLowerAsciiIdempotent(Trim(answer));
  }

  /** Each release type's own name selects it again. */
  lemma ResolveName(t: ReleaseType)
    ensures Resolve(Name(t)) == t
  {
    match t
    case Patch => TrimOfTrimmed("patch"); ResolvePatchLabels("patch");
    case Minor => TrimOfTrimmed("minor"); ResolveMinorLabels("minor");
    case Major => TrimOfTrimmed("major"); ResolveMajorLabels("major");
  }

  /** Whitespace typed around an answer does not change the release type. */
  lemma ResolveIgnoresPadding(answer: string, before: string, after: string)
    requires AllSpace(before) && AllSpace(after)
    ensures Resolve(before + answer + after) == Resolve(answer)
  {
    TrimIgnoresPadding(answer, before, after);
  }

  /** Lower-casing a character never turns it into whitespace or out of it. */
  lemma LowerCharKeepsSpace(c: char)
    ensures IsSpace(LowerChar(c)) <==> IsSpace(c)
  {
  }

  /** Lower-casing is idempotent. */
  lemma ToLowerAsciiIdempotent(t: string)
    ensures ToLowerAscii(ToLowerAscii(t)) == ToLowerAscii(t)
  {
    ToLowerAsciiIs(ToLowerAscii(t), ToLowerAscii(t));
  }

  /** Letter case does not matter: an answer selects the same release type as its
      lower-cased spelling. */
  lemma ResolveIgnoresCase(answer: string)
    requires IsTrimmed(answer)
    ensures Resolve(answer) == Resolve(ToLowerAscii(answer))
  {
    var low := ToLowerAscii(answer);
    if |answer| > 0 {
      LowerCharKeepsSpace(answer[0]);
      LowerCharKeepsSpace(answer[|answer| - 1]);
    }
    assert IsTrimmed(low);
    NormalizeTrimmed(answer);
    NormalizeTrimmed(low);
    ToLowerAsciiIdempotent(answer);
  }

  lemma LowerMajor()
    ensures ToLowerAscii("MAJOR") == "major"
  {
  }

  /** An answer resolves as its lower-cased core, whatever whitespace surrounds it. */
  lemma ResolveCore(before: string, word: string, after: string)
    requires AllSpace(before) && AllSpace(after) && IsTrimmed(word)
    ensures Resolve(before + word + after) == Resolve(ToLowerAscii(word))
  {
    ResolveIgnoresPadding(word, before, after);
    ResolveIgnoresCase(word);
  }

  /** The answer is trimmed and lower-cased before the lookup, so `  MAJOR ` selects
      major. */
  lemma ResolvePaddedMajor()
    ensures Resolve("  " + "MAJOR" + " ") == Major
  {
    ResolveCore("  ", "MAJOR", " ");
    LowerMajor();
    ResolveName(Major);
  }

  /** The `case '0': case 'p': case 'patch':` branch: an answer that trims to one of
      these labels selects patch. */
  lemma ResolvePatchLabels(answer: string)
    requires Trim(answer) in PatchKeys
    ensures Resolve(answer) == Patch
  {
    assert ToLowerAscii("0") == "0" && ToLowerAscii("p") == "p";
    assert ToLowerAscii("patch") == "patch";
  }

  /** The `case '1': case 'm': case 'minor':` branch. */
  lemma ResolveMinorLabels(answer: string)
    requires Trim(answer) in MinorKeys
    ensures Resolve(answer) == Minor
  {
    assert ToLowerAscii("1") == "1" && ToLowerAscii("m") == "m";
    assert ToLowerAscii("minor") == "minor";
  }

  /** The `case '2': case 'major':` branch. */
  lemma ResolveMajorLabels(answer: string)
    requires Trim(answer) in MajorKeys
    ensures Resolve(answer) == Major
  {
    assert ToLowerAscii("2") == "2";
    assert ToLowerAscii("major") == "major";
  }

  /** The default branch taken by an empty answer: pressing Enter, with or without
      typing spaces, selects patch. */
  lemma ResolveBlank(answer: string)
    requires AllSpace(answer)
    ensures Resolve(answer) == Patch
  {
    assert answer == answer + "" + "";
    TrimUnique(answer, answer, "", "");
  }

  /** The prefix of the command the script runs. */
  const CommandPrefix := "npx standard-version --release-as "

  /** The standard-version command run for a release type. Its argument is the type's
      name, which resolves back to the same type. */
  function ReleaseCommand(t: ReleaseType): (cmd: string)
    ensures |cmd| > |CommandPrefix| && cmd[..|CommandPrefix|] == CommandPrefix
    ensures cmd[|CommandPrefix|..] in {"patch", "minor", "major"}
    ensures Resolve(cmd[|CommandPrefix|..]) == t
  {
    ResolveName(t);
    assert (CommandPrefix + Name(t))[|CommandPrefix|..] == Name(t);
    CommandPrefix + Name(t)
  }

  // ---------------------------------------------------------------------------
  // The upper-case M of the banner
  // ---------------------------------------------------------------------------

  /** The banner and the prompt announce `M` as the short code for major, but the answer
      is lower-cased before the lookup, so `M` selects minor, exactly like `m`. */
  lemma ResolveUpperMIsMinor(answer: string)
    requires Trim(answer) == "M" || Trim(answer) == "m"
    ensures Resolve(answer) == Minor
  {
    assert ToLowerAscii("M") == "m" && ToLowerAscii("m") == "m";
  }

  /** The resolution the banner announces: `M`, on its own, selects major; every other
      answer resolves as the script resolves it. */
  function ResolveAsAnnounced(answer: string): (t: ReleaseType)
    ensures Trim(answer) == "M" ==> t == Major
    ensures Trim(answer) != "M" ==> t == Resolve(answer)
  {
    if Trim(answer) == "M" then Major else Resolve(answer)
  }

  /** The announced short codes: `0`/`p` patch, `1`/`m` minor, `2`/`M` major. */
  lemma AnnouncedShortCodes(answer: string)
    ensures Trim(answer) in {"0", "p"} ==> ResolveAsAnnounced(answer) == Patch
    ensures Trim(answer) in {"1", "m"} ==> ResolveAsAnnounced(answer) == Minor
    ensures Trim(answer) in {"2", "M"} ==> ResolveAsAnnounced(answer) == Major
  {
    var r := Trim(answer);
    if r == "0" || r == "p" {
      ResolvePatchLabels(answer);
    } else if r == "1" || r == "m" {
      ResolveMinorLabels(answer);
    } else if r == "2" {
      ResolveMajorLabels(answer);
    }
  }
}
