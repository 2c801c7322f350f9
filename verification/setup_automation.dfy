/** The one-time automation installer. It reads the target project's manifest, asks
    one yes/no question per feature, copies each enabled feature's template files, and
    adds the enabled features' npm scripts to the manifest without overwriting any
    script that is already set.

    Prompting, the file system and the external commands are left out: the answers and
    the parsed manifest are inputs, the file operations are returned as a plan, and the
    manifest's `scripts` object is returned as the map it becomes. */
module SetupAutomation {
  import opened Optional
  import opened JsStrings

  datatype Feature = Prettier | Husky | Versioning | GithubActions

  /** The order in which the features are asked about, copied and reported. */
  const FeatureOrder: seq<Feature> := [Prettier, Husky, Versioning, GithubActions]

  // ---------------------------------------------------------------------------
  // Answers
  // ---------------------------------------------------------------------------

  /** The four answers, in the order the questions are asked. */
  datatype Answers = Answers(prettier: string, husky: string, versioning: string, githubActions: string)

  function AnswerFor(a: Answers, f: Feature): string {
    match f
    case Prettier => a.prettier
    case Husky => a.husky
    case Versioning => a.versioning
    case GithubActions => a.githubActions
  }

  /** `answer.toLowerCase() !== 'n'`: an answer enables its feature unless it is a lone
      `n` in either case. No trimming is done. */
  predicate Accepts(answer: string) {
    ToLowerAscii(answer) != "n"
  }

  predicate Enabled(a: Answers, f: Feature) {
    Accepts(AnswerFor(a, f))
  }

  /** Exactly the answers `n` and `N` decline a feature. */
  lemma AcceptsIff(answer: string)
    ensures Accepts(answer) <==> answer != "n" && answer != "N"
  {
    ToLowerAsciiIs(answer, "n");
    if !Accepts(answer) {
      assert |answer| == 1 && LowerChar(answer[0]) == 'n';
      assert answer[0] == 'n' || answer[0] == 'N';
      assert answer == [answer[0]];
    }
  }

  /** The empty answer, `no`, a padded ` n` and `y` all enable a feature. */
  lemma AcceptsExamples()
    ensures Accepts("") && Accepts("y") && Accepts("no") && Accepts(" n")
    ensures !Accepts("n") && !Accepts("N")
  {
    AcceptsIff("");
    AcceptsIff("y");
    AcceptsIff("no");
    AcceptsIff(" n");
    AcceptsIff("n");
    AcceptsIff("N");
  }

  /** The enabled features, in the order of `fs`. */
  function SelectedFeatures(a: Answers, fs: seq<Feature>): (r: seq<Feature>)
    ensures forall f :: f in r <==> f in fs && Enabled(a, f)
    ensures |r| <= |fs|
  {
    if |fs| == 0 then []
    else (if Enabled(a, fs[0]) then [fs[0]] else []) + SelectedFeatures(a, fs[1..])
  }

  /** `x` occurs in `fs` before some occurrence of `y`. */
  predicate OccursBefore(x: Feature, y: Feature, fs: seq<Feature>) {
    exists p, q :: 0 <= p < q < |fs| && x == fs[p] && y == fs[q]
  }

  /** Any two elements of `r` appear in `fs` in the same relative order. */
  predicate KeepsOrder(r: seq<Feature>, fs: seq<Feature>) {
    forall i, j :: 0 <= i < j < |r| ==> OccursBefore(r[i], r[j], fs)
  }

  /** Dropping the first element of `fs` keeps whatever order held against the rest. */
  lemma KeepsOrderTail(r: seq<Feature>, fs: seq<Feature>)
    requires |fs| > 0 && KeepsOrder(r, fs[1..])
    ensures KeepsOrder(r, fs)
  {
    forall i, j | 0 <= i < j < |r|
      ensures OccursBefore(r[i], r[j], fs)
    {
      assert OccursBefore(r[i], r[j], fs[1..]);
      var p, q :| 0 <= p < q < |fs[1..]| && r[i] == fs[1..][p] && r[j] == fs[1..][q];
      assert r[i] == fs[p + 1] && r[j] == fs[q + 1];
    }
  }

  /** The first element of `fs` may go in front of an ordered selection of the rest. */
  lemma KeepsOrderCons(r: seq<Feature>, fs: seq<Feature>)
    requires |fs| > 0 && KeepsOrder(r, fs[1..])
    requires forall k :: 0 <= k < |r| ==> r[k] in fs[1..]
    ensures KeepsOrder([fs[0]] + r, fs)
  {
    var c := [fs[0]] + r;
    forall i, j | 0 <= i < j < |c|
      ensures OccursBefore(c[i], c[j], fs)
    {
      assert c[j] == r[j - 1];
      if i == 0 {
        var q :| 0 <= q < |fs[1..]| && fs[1..][q] == r[j - 1];
        assert c[0] == fs[0] && c[j] == fs[q + 1];
      } else {
        assert c[i] == r[i - 1];
        assert OccursBefore(r[i - 1], r[j - 1], fs[1..]);
        var p, q :| 0 <= p < q < |fs[1..]| && r[i - 1] == fs[1..][p] && r[j - 1] == fs[1..][q];
        assert c[i] == fs[p + 1] && c[j] == fs[q + 1];
      }
    }
  }

  /** The enabled features keep the order of `fs`. */
  lemma {:induction false} SelectedInOrder(a: Answers, fs: seq<Feature>)
    ensures KeepsOrder(SelectedFeatures(a, fs), fs)
  {
    if |fs| > 0 {
      SelectedInOrder(a, fs[1..]);
      var rest := SelectedFeatures(a, fs[1..]);
      if Enabled(a, fs[0]) {
        assert forall k :: 0 <= k < |rest| ==> rest[k] in fs[1..];
        KeepsOrderCons(rest, fs);
        assert SelectedFeatures(a, fs) == [fs[0]] + rest;
      } else {
        KeepsOrderTail(rest, fs);
        assert SelectedFeatures(a, fs) == rest;
      }
    }
  }

  // ---------------------------------------------------------------------------
  // Files
  // ---------------------------------------------------------------------------

  /** A template file and where it goes, both relative: the source to the template
      tree, the destination to the target project. */
  datatype FileEntry = FileEntry(src: string, dest: string)

  /** The feature-to-files table. Every template keeps its relative path. */
  function FeatureFiles(f: Feature): (es: seq<FileEntry>)
    ensures |es| > 0
    ensures forall e :: e in es ==> e.src == e.dest
  {
    match f
    case Prettier => [FileEntry(".prettierrc", ".prettierrc")]
    case Husky => [
      FileEntry("commitlint.config.js", "commitlint.config.js"),
      FileEntry(".husky/pre-commit", ".husky/pre-commit")]
    case Versioning => [
      FileEntry(".versionrc.json", ".versionrc.json"),
      FileEntry("scripts/extract-latest-release.js", "scripts/extract-latest-release.js"),
      FileEntry("scripts/release.js", "scripts/release.js")]
    case GithubActions => [
      FileEntry(".github/workflows/ci.yml", ".github/workflows/ci.yml"),
      FileEntry(".github/workflows/release.yml", ".github/workflows/release.yml")]
  }

  /** No template belongs to two features. */
  lemma FeatureFilesDisjoint(f: Feature, g: Feature, e: FileEntry)
    requires e in FeatureFiles(f) && e in FeatureFiles(g)
    ensures f == g
  {
  }

  /** Position of the last `/` in `p`. */
  function LastSlash(p: string): (r: Option<nat>)
    ensures r.Some? ==> r.value < |p| && p[r.value] == '/'
    ensures forall k :: (if r.Some? then r.value + 1 else 0) <= k < |p| ==> p[k] != '/'
  {
    if |p| == 0 then None
    else if p[|p| - 1] == '/' then Some(|p| - 1)
    else LastSlash(p[..|p| - 1])
  }

  /** `path.dirname` of a path without trailing or doubled separators: everything
      before the last `/`, `/` when that is the first character, `.` when there is none. */
  function Dirname(p: string): string {
    match LastSlash(p)
    case None => "."
    case Some(k) => if k == 0 then "/" else p[..k]
  }

  /** A path with a separator after its first character is its directory, a `/`, and
      a last component with no `/` in it. */
  lemma DirnameSplits(p: string)
    requires LastSlash(p).Some? && LastSlash(p).value > 0
    ensures var d := Dirname(p);
            && |d| < |p| && p == d + "/" + p[|d| + 1..]
            && forall k :: |d| + 1 <= k < |p| ==> p[k] != '/'
  {
  }

  /** What the installer does to the file system, in order. */
  datatype FileAction =
    | EnsureDir(path: string)
    | CopyFile(src: string, dest: string)
    | MakeExecutable(path: string, mode: string)

  /** The inner copy loop: make sure each destination's directory exists, then copy. */
  function CopySteps(es: seq<FileEntry>): (r: seq<FileAction>)
    ensures |r| == 2 * |es|
    ensures forall k :: 0 <= k < |es| ==>
              r[2 * k] == EnsureDir(Dirname(es[k].dest)) && r[2 * k + 1] == CopyFile(es[k].src, es[k].dest)
  {
    if |es| == 0 then []
    else [EnsureDir(Dirname(es[0].dest)), CopyFile(es[0].src, es[0].dest)] + CopySteps(es[1..])
  }

  /** The outer copy loop over the features, copying only enabled ones. */
  function CopyLoop(a: Answers, fs: seq<Feature>): seq<FileAction> {
    if |fs| == 0 then []
    else (if Enabled(a, fs[0]) then CopySteps(FeatureFiles(fs[0])) else []) + CopyLoop(a, fs[1..])
  }

  /** The files of the given features, one feature after the other. */
  function FilesOf(fs: seq<Feature>): seq<FileEntry> {
    if |fs| == 0 then [] else FeatureFiles(fs[0]) + FilesOf(fs[1..])
  }

  /** A template is among the files of some features exactly when one of them owns it. */
  lemma {:induction false} InFilesOfIff(fs: seq<Feature>, e: FileEntry)
    ensures e in FilesOf(fs) <==> exists f :: f in fs && e in FeatureFiles(f)
  {
    if |fs| > 0 {
      InFilesOfIff(fs[1..], e);
      assert forall f :: f in fs <==> f == fs[0] || f in fs[1..];
    }
  }

  lemma {:induction false} FilesOfAppend(xs: seq<Feature>, ys: seq<Feature>)
    ensures FilesOf(xs + ys) == FilesOf(xs) + FilesOf(ys)
  {
    if |xs| > 0 {
      assert (xs + ys)[1..] == xs[1..] + ys;
      FilesOfAppend(xs[1..], ys);
    } else {
      assert xs + ys == ys;
    }
  }

  lemma {:induction false} CopyStepsAppend(xs: seq<FileEntry>, ys: seq<FileEntry>)
    ensures CopySteps(xs + ys) == CopySteps(xs) + CopySteps(ys)
  {
    if |xs| == 0 {
      assert xs + ys == ys;
    } else {
      assert (xs + ys)[0] == xs[0];
      assert (xs + ys)[1..] == xs[1..] + ys;
      CopyStepsAppend(xs[1..], ys);
    }
  }

  /** The copy steps copy exactly the given entries. */
  lemma {:induction false} CopyStepsCopiesIff(es: seq<FileEntry>, src: string, dest: string)
    ensures CopyFile(src, dest) in CopySteps(es) <==> FileEntry(src, dest) in es
  {
    if |es| > 0 {
      CopyStepsCopiesIff(es[1..], src, dest);
      assert es == [es[0]] + es[1..];
    }
  }

  /** The copy loop copies, in order, the files of the enabled features, one feature
      after the other; a disabled feature contributes nothing. */
  lemma {:induction false} CopyLoopIsSelectedFiles(a: Answers, fs: seq<Feature>)
    ensures CopyLoop(a, fs) == CopySteps(FilesOf(SelectedFeatures(a, fs)))
  {
    if |fs| > 0 {
      CopyLoopIsSelectedFiles(a, fs[1..]);
      var head := if Enabled(a, fs[0]) then [fs[0]] else [];
      var tail := SelectedFeatures(a, fs[1..]);
      assert SelectedFeatures(a, fs) == head + tail;
      FilesOfAppend(head, tail);
      CopyStepsAppend(FilesOf(head), FilesOf(tail));
      var first := if Enabled(a, fs[0]) then CopySteps(FeatureFiles(fs[0])) else [];
      assert CopySteps(FilesOf(head)) == first by {
        if Enabled(a, fs[0]) {
          assert FilesOf(head) == FeatureFiles(fs[0]) + FilesOf([]);
          assert FilesOf(head) == FeatureFiles(fs[0]);
        }
      }
      calc {
        CopySteps(FilesOf(SelectedFeatures(a, fs)));
        CopySteps(FilesOf(head) + FilesOf(tail));
        CopySteps(FilesOf(head)) + CopySteps(FilesOf(tail));
        first + CopyLoop(a, fs[1..]);
        CopyLoop(a, fs);
      }
    }
  }

  /** A template is copied exactly when the feature it belongs to is enabled. */
  lemma CopiedIff(a: Answers, f: Feature, e: FileEntry)
    requires e in FeatureFiles(f)
    ensures CopyFile(e.src, e.dest) in CopyLoop(a, FeatureOrder) <==> Enabled(a, f)
  {
    var selected := SelectedFeatures(a, FeatureOrder);
    CopyLoopIsSelectedFiles(a, FeatureOrder);
    CopyStepsCopiesIff(FilesOf(selected), e.src, e.dest);
    InFilesOfIff(selected, e);
    if e in FilesOf(selected) {
      var g :| g in selected && e in FeatureFiles(g);
      FeatureFilesDisjoint(f, g, e);
    } else {
      assert f in FeatureOrder;
    }
  }

  /** Every copy is immediately preceded by making sure its destination directory
      exists. */
  lemma CopyAfterEnsureDir(a: Answers, i: nat)
    requires i < |CopyLoop(a, FeatureOrder)| && CopyLoop(a, FeatureOrder)[i].CopyFile?
    ensures var plan := CopyLoop(a, FeatureOrder);
            i > 0 && plan[i - 1] == EnsureDir(Dirname(plan[i].dest))
  {
    CopyLoopIsSelectedFiles(a, FeatureOrder);
    var k := i / 2;
    assert i == 2 * k || i == 2 * k + 1;
  }

  /** The installer's file operations: the `scripts` directory, the copy loop, and for
      versioning the executable bit on the copied release script. */
  function FileActions(a: Answers): (r: seq<FileAction>)
    ensures |r| > 0 && r[0] == EnsureDir("scripts")
    ensures |r| == 1 + |CopyLoop(a, FeatureOrder)| + (if Enabled(a, Versioning) then 1 else 0)
    ensures r[1..1 + |CopyLoop(a, FeatureOrder)|] == CopyLoop(a, FeatureOrder)
    ensures Enabled(a, Versioning) ==> r[|r| - 1] == MakeExecutable("scripts/release.js", "755")
  {
    [EnsureDir("scripts")] + CopyLoop(a, FeatureOrder)
    + (if Enabled(a, Versioning) then [MakeExecutable("scripts/release.js", "755")] else [])
  }

  /** The release script made executable is one the versioning feature copies. */
  lemma ExecutableWasCopied(a: Answers)
    requires Enabled(a, Versioning)
    ensures CopyFile("scripts/release.js", "scripts/release.js") in CopyLoop(a, FeatureOrder)
  {
    CopiedIff(a, Versioning, FileEntry("scripts/release.js", "scripts/release.js"));
  }

  // ---------------------------------------------------------------------------
  // The manifest's scripts
  // ---------------------------------------------------------------------------

  /** The manifest's `scripts` object; an absent object is the empty map. */
  type Scripts = map<string, string>

  /** A script counts as present when its value is truthy: present and not empty. */
  predicate IsSet(m: Scripts, k: string) {
    k in m && m[k] != ""
  }

  /** `if (!scripts[k]) scripts[k] = v`: a set script keeps its value, a missing or
      empty one takes `v`, and no other key is touched. */
  function AddIfUnset(m: Scripts, k: string, v: string): (r: Scripts)
    ensures k in r && r[k] == (if IsSet(m, k) then m[k] else v)
    ensures forall x :: x != k ==> (x in r <==> x in m)
    ensures forall x :: x != k && x in m ==> r[x] == m[x]
  {
    if IsSet(m, k) then m else m[k := v]
  }

  /** The `publish:github` command, kept as an opaque constant. */
  const PublishGithubScript := "node scripts/extract-latest-release.js && gh release create v$(node -p \"require(\\'./package.json\\').version\") -F LATEST_RELEASE.md"

  /** The scripts each feature block adds when they are missing, in the order the
      block checks them. */
  function FeatureScripts(f: Feature): seq<(string, string)> {
    match f
    case Prettier => [("format", "prettier --write .")]
    case Husky => [("prepare", "husky")]
    case Versioning => [
      ("release", "node scripts/release.js"),
      ("release:patch", "standard-version --release-as patch"),
      ("release:minor", "standard-version --release-as minor"),
      ("release:major", "standard-version --release-as major"),
      ("publish:github", PublishGithubScript)]
    case GithubActions => []
  }

  /** The keys of the scripts each feature block may add. */
  function ScriptKeys(f: Feature): set<string> {
    match f
    case Prettier => {"format"}
    case Husky => {"prepare"}
    case Versioning => {"release", "release:patch", "release:minor", "release:major", "publish:github"}
    case GithubActions => {}
  }

  /** One independent add-if-missing check per script, in order. */
  function AddDefaults(m: Scripts, ds: seq<(string, string)>): Scripts
    decreases |ds|
  {
    if |ds| == 0 then m else AddDefaults(AddIfUnset(m, ds[0].0, ds[0].1), ds[1..])
  }

  /** The manifest part of one feature block. */
  function ApplyFeature(m: Scripts, f: Feature): Scripts {
    AddDefaults(m, FeatureScripts(f))
  }

  /** The three manifest blocks in source order; the GitHub Actions feature has none. */
  function MergeScripts(m: Scripts, a: Answers): Scripts {
    RunBlock(RunBlock(RunBlock(m, a, Prettier), a, Husky), a, Versioning)
  }

  // Reference: the merge as one map operation ----------------------------------

  /** Every key of `d` not set in `m` takes its value from `d`; every other key keeps
      its value in `m`. */
  function FillUnset(m: Scripts, d: map<string, string>): Scripts {
    map k | k in m.Keys + d.Keys :: if k in d && !IsSet(m, k) then d[k] else m[k]
  }

  /** A list of script defaults read as a map. */
  function DefaultsMap(ds: seq<(string, string)>): (d: map<string, string>)
    ensures forall k :: k in d <==> exists i :: 0 <= i < |ds| && ds[i].0 == k
  {
    if |ds| == 0 then map[]
    else
      var d := DefaultsMap(ds[1..])[ds[0].0 := ds[0].1];
      assert forall i :: 1 <= i < |ds| ==> ds[i] == ds[1..][i - 1];
      d
  }

  function FeatureDefaults(f: Feature): map<string, string> {
    DefaultsMap(FeatureScripts(f))
  }

  /** The defaults of all enabled features together. */
  function SelectedDefaults(a: Answers): map<string, string> {
    (if Enabled(a, Prettier) then FeatureDefaults(Prettier) else map[])
    + (if Enabled(a, Husky) then FeatureDefaults(Husky) else map[])
    + (if Enabled(a, Versioning) then FeatureDefaults(Versioning) else map[])
  }

  predicate DistinctKeys(ds: seq<(string, string)>) {
    forall i, j :: 0 <= i < j < |ds| ==> ds[i].0 != ds[j].0
  }

  predicate NoEmptyValues(d: map<string, string>) {
    forall k :: k in d ==> d[k] != ""
  }

  /** Each feature's defaults: its keys, no key twice, and never an empty value. */
  lemma FeatureDefaultsShape(f: Feature)
    ensures DistinctKeys(FeatureScripts(f))
    ensures FeatureDefaults(f).Keys == ScriptKeys(f)
    ensures NoEmptyValues(FeatureDefaults(f))
  {
    var ds := FeatureScripts(f);
    var d := FeatureDefaults(f);
    forall k | k in d ensures d[k] != "" {
      match f
      case Prettier =>
      case Husky =>
      case Versioning =>
      case GithubActions =>
    }
  }

  /** The features' script keys never overlap. */
  lemma ScriptKeysDisjoint(f: Feature, g: Feature)
    requires f != g
    ensures ScriptKeys(f) !! ScriptKeys(g)
  {
  }

  /** Different features' defaults never share a key. */
  lemma FeatureDefaultsDisjoint(f: Feature, g: Feature)
    requires f != g
    ensures FeatureDefaults(f).Keys !! FeatureDefaults(g).Keys
  {
    FeatureDefaultsShape(f);
    FeatureDefaultsShape(g);
    ScriptKeysDisjoint(f, g);
  }

  /** One add-if-missing check followed by a fill of other keys is a single fill. */
  lemma FillAfterAdd(m: Scripts, k: string, v: string, d: map<string, string>)
    requires k !in d
    ensures FillUnset(AddIfUnset(m, k, v), d) == FillUnset(m, d[k := v])
  {
    var l, r := FillUnset(AddIfUnset(m, k, v), d), FillUnset(m, d[k := v]);
    assert l.Keys == r.Keys;
    forall x | x in l ensures l[x] == r[x] {
      if x == k {
      } else {
        assert IsSet(AddIfUnset(m, k, v), x) == IsSet(m, x);
      }
    }
  }

  lemma FillNothing(m: Scripts)
    ensures FillUnset(m, map[]) == m
  {
  }

  /** The sequence of checks a block performs is the fill of its defaults. */
  lemma {:induction false} AddDefaultsIsFill(m: Scripts, ds: seq<(string, string)>)
    requires DistinctKeys(ds)
    ensures AddDefaults(m, ds) == FillUnset(m, DefaultsMap(ds))
    decreases |ds|
  {
    if |ds| == 0 {
      FillNothing(m);
    } else {
      var rest := ds[1..];
      assert DistinctKeys(rest) by {
        forall i, j | 0 <= i < j < |rest| ensures rest[i].0 != rest[j].0 {
          assert rest[i] == ds[i + 1] && rest[j] == ds[j + 1];
        }
      }
      AddDefaultsIsFill(AddIfUnset(m, ds[0].0, ds[0].1), rest);
      assert ds[0].0 !in DefaultsMap(rest) by {
        assert forall i :: 0 <= i < |rest| ==> rest[i] == ds[i + 1];
      }
      FillAfterAdd(m, ds[0].0, ds[0].1, DefaultsMap(rest));
    }
  }

  /** A feature block is the fill of that feature's defaults. */
  lemma ApplyFeatureIsFill(m: Scripts, f: Feature)
    ensures ApplyFeature(m, f) == FillUnset(m, FeatureDefaults(f))
  {
    FeatureDefaultsShape(f);
    AddDefaultsIsFill(m, FeatureScripts(f));
  }

  /** Two fills with disjoint keys are one fill of both. */
  lemma FillCompose(m: Scripts, d1: map<string, string>, d2: map<string, string>)
    requires d1.Keys !! d2.Keys
    ensures FillUnset(FillUnset(m, d1), d2) == FillUnset(m, d1 + d2)
  {
    var m1 := FillUnset(m, d1);
    var l, r := FillUnset(m1, d2), FillUnset(m, d1 + d2);
    assert l.Keys == r.Keys;
    forall x | x in l ensures l[x] == r[x] {
      if x in d2 {
        assert x !in d1;
        assert IsSet(m1, x) == IsSet(m, x);
      }
    }
  }

  /** Two fills with disjoint keys can run in either order. */
  lemma FillCommute(m: Scripts, d1: map<string, string>, d2: map<string, string>)
    requires d1.Keys !! d2.Keys
    ensures FillUnset(FillUnset(m, d1), d2) == FillUnset(FillUnset(m, d2), d1)
  {
    FillCompose(m, d1, d2);
    FillCompose(m, d2, d1);
    assert d1 + d2 == d2 + d1;
  }

  /** Filling twice with the same defaults fills once. A key left empty by the first
      fill has an empty default, which the second fill writes again. */
  lemma FillIdempotent(m: Scripts, d: map<string, string>)
    ensures FillUnset(FillUnset(m, d), d) == FillUnset(m, d)
  {
  }

  /** A feature block that may or may not run is a fill of that feature's defaults or
      of nothing. */
  lemma OptionalBlockIsFill(m: Scripts, run: bool, f: Feature)
    ensures (if run then ApplyFeature(m, f) else m)
            == FillUnset(m, if run then FeatureDefaults(f) else map[])
  {
    if run { ApplyFeatureIsFill(m, f); } else { FillNothing(m); }
  }

  /** The manifest blocks, run in source order, fill the defaults of every enabled
      feature at once. */
  lemma MergeIsFill(m: Scripts, a: Answers)
    ensures MergeScripts(m, a) == FillUnset(m, SelectedDefaults(a))
  {
    var p := if Enabled(a, Prettier) then FeatureDefaults(Prettier) else map[];
    var h := if Enabled(a, Husky) then FeatureDefaults(Husky) else map[];
    var v := if Enabled(a, Versioning) then FeatureDefaults(Versioning) else map[];
    FeatureDefaultsDisjoint(Prettier, Husky);
    FeatureDefaultsDisjoint(Prettier, Versioning);
    FeatureDefaultsDisjoint(Husky, Versioning);
    var m1 := if Enabled(a, Prettier) then ApplyFeature(m, Prettier) else m;
    var m2 := if Enabled(a, Husky) then ApplyFeature(m1, Husky) else m1;
    OptionalBlockIsFill(m, Enabled(a, Prettier), Prettier);
    OptionalBlockIsFill(m1, Enabled(a, Husky), Husky);
    OptionalBlockIsFill(m2, Enabled(a, Versioning), Versioning);
    FillCompose(m, p, h);
    FillCompose(m, p + h, v);
  }

  /** The keys the enabled features may add. */
  function SelectedKeys(a: Answers): set<string> {
    (if Enabled(a, Prettier) then ScriptKeys(Prettier) else {})
    + (if Enabled(a, Husky) then ScriptKeys(Husky) else {})
    + (if Enabled(a, Versioning) then ScriptKeys(Versioning) else {})
  }

  lemma SelectedKeysIff(a: Answers, k: string)
    ensures k in SelectedKeys(a) <==> exists f :: Enabled(a, f) && k in ScriptKeys(f)
  {
    if exists f :: Enabled(a, f) && k in ScriptKeys(f) {
      var f :| Enabled(a, f) && k in ScriptKeys(f);
      assert f != GithubActions;
    }
  }

  lemma SelectedDefaultsKeys(a: Answers)
    ensures SelectedDefaults(a).Keys == SelectedKeys(a)
  {
    FeatureDefaultsShape(Prettier);
    FeatureDefaultsShape(Husky);
    FeatureDefaultsShape(Versioning);
  }

  /** An enabled feature's key takes that feature's default in the combined defaults. */
  lemma SelectedDefaultsAt(a: Answers, f: Feature, k: string)
    requires Enabled(a, f) && k in ScriptKeys(f)
    ensures k in SelectedDefaults(a) && SelectedDefaults(a)[k] == FeatureDefaults(f)[k]
  {
    var p := if Enabled(a, Prettier) then FeatureDefaults(Prettier) else map[];
    var h := if Enabled(a, Husky) then FeatureDefaults(Husky) else map[];
    var v := if Enabled(a, Versioning) then FeatureDefaults(Versioning) else map[];
    assert p.Keys <= ScriptKeys(Prettier) && h.Keys <= ScriptKeys(Husky) && v.Keys <= ScriptKeys(Versioning) by {
      FeatureDefaultsShape(Prettier);
      FeatureDefaultsShape(Husky);
      FeatureDefaultsShape(Versioning);
    }
    assert k in FeatureDefaults(f) by {
      FeatureDefaultsShape(f);
    }
    PickFromUnion(p, h, v, k, f);
  }

  lemma PickFromUnion(p: map<string, string>, h: map<string, string>, v: map<string, string>, k: string, f: Feature)
    requires p.Keys <= ScriptKeys(Prettier) && h.Keys <= ScriptKeys(Husky) && v.Keys <= ScriptKeys(Versioning)
    requires k in ScriptKeys(f)
    requires f == Prettier ==> k in p
    requires f == Husky ==> k in h
    requires f == Versioning ==> k in v
    ensures f != GithubActions
    ensures k in p + h + v
    ensures f == Prettier ==> (p + h + v)[k] == p[k]
    ensures f == Husky ==> (p + h + v)[k] == h[k]
    ensures f == Versioning ==> (p + h + v)[k] == v[k]
  {
  }

  /** The merge never changes a script that is already set. */
  lemma MergeKeepsSetScripts(m: Scripts, a: Answers, k: string)
    requires IsSet(m, k)
    ensures k in MergeScripts(m, a) && MergeScripts(m, a)[k] == m[k]
  {
    MergeIsFill(m, a);
  }

  /** Every script of an enabled feature ends up set: to its old value when it was set,
      to the feature's default when it was missing or empty. */
  lemma MergeSetsEnabledScripts(m: Scripts, a: Answers, f: Feature, k: string)
    requires Enabled(a, f) && k in ScriptKeys(f)
    ensures IsSet(MergeScripts(m, a), k)
    ensures !IsSet(m, k) ==> MergeScripts(m, a)[k] == FeatureDefaults(f)[k]
  {
    MergeIsFill(m, a);
    SelectedDefaultsAt(a, f, k);
    FeatureDefaultsShape(f);
  }

  /** Only the scripts of enabled features can change; every other key is untouched. */
  lemma MergeLeavesOtherKeys(m: Scripts, a: Answers, k: string)
    requires forall f :: Enabled(a, f) ==> k !in ScriptKeys(f)
    ensures k in MergeScripts(m, a) <==> k in m
    ensures k in m ==> MergeScripts(m, a)[k] == m[k]
  {
    MergeIsFill(m, a);
    SelectedDefaultsKeys(a);
    SelectedKeysIff(a, k);
  }

  /** After the versioning block all five release scripts are set. */
  lemma VersioningSetsReleaseScripts(m: Scripts, a: Answers)
    requires Enabled(a, Versioning)
    ensures var r := MergeScripts(m, a);
            && IsSet(r, "release") && IsSet(r, "release:patch") && IsSet(r, "release:minor")
            && IsSet(r, "release:major") && IsSet(r, "publish:github")
  {
    MergeSetsEnabledScripts(m, a, Versioning, "release");
    MergeSetsEnabledScripts(m, a, Versioning, "release:patch");
    MergeSetsEnabledScripts(m, a, Versioning, "release:minor");
    MergeSetsEnabledScripts(m, a, Versioning, "release:major");
    MergeSetsEnabledScripts(m, a, Versioning, "publish:github");
  }

  /** No default of an enabled feature is the empty string. */
  lemma SelectedDefaultsNonEmpty(a: Answers)
    ensures NoEmptyValues(SelectedDefaults(a))
  {
    FeatureDefaultsShape(Prettier);
    FeatureDefaultsShape(Husky);
    FeatureDefaultsShape(Versioning);
    var p := if Enabled(a, Prettier) then FeatureDefaults(Prettier) else map[];
    var h := if Enabled(a, Husky) then FeatureDefaults(Husky) else map[];
    var v := if Enabled(a, Versioning) then FeatureDefaults(Versioning) else map[];
    assert NoEmptyValues(p) && NoEmptyValues(h) && NoEmptyValues(v);
    NoEmptyUnion(p, h, v);
  }

  lemma NoEmptyUnion(p: map<string, string>, h: map<string, string>, v: map<string, string>)
    requires NoEmptyValues(p) && NoEmptyValues(h) && NoEmptyValues(v)
    ensures NoEmptyValues(p + h + v)
  {
  }

  /** Running the merge again with the same answers changes nothing. */
  lemma MergeIdempotent(m: Scripts, a: Answers)
    ensures MergeScripts(MergeScripts(m, a), a) == MergeScripts(m, a)
  {
    MergeIsFill(m, a);
    MergeIsFill(MergeScripts(m, a), a);
    FillIdempotent(m, SelectedDefaults(a));
  }

  /** The feature blocks touch disjoint keys, so their order does not matter. */
  lemma FeatureBlocksCommute(m: Scripts, f: Feature, g: Feature)
    ensures ApplyFeature(ApplyFeature(m, f), g) == ApplyFeature(ApplyFeature(m, g), f)
  {
    if f != g {
      FeatureDefaultsDisjoint(f, g);
      ApplyFeatureIsFill(m, f);
      ApplyFeatureIsFill(ApplyFeature(m, f), g);
      ApplyFeatureIsFill(m, g);
      ApplyFeatureIsFill(ApplyFeature(m, g), f);
      FillCommute(m, FeatureDefaults(f), FeatureDefaults(g));
    }
  }

  // ---------------------------------------------------------------------------
  // One run of the installer
  // ---------------------------------------------------------------------------

  /** The manifest as found in the working directory. */
  datatype ManifestFile = Missing | Unparseable | Parsed(scripts: Scripts)

  datatype SetupError = ManifestNotFound | ManifestUnreadable

  /** The external commands a feature block runs: the `npm install --save-dev` of the
      prettier, husky and versioning blocks, and `npx husky init`. */
  datatype Command = Install(feature: Feature) | HuskyInit

  /** Whether a command is reached at all. Each runs only inside its enabled block;
      the GitHub Actions feature installs nothing. */
  predicate Runs(a: Answers, c: Command) {
    match c
    case Install(f) => Enabled(a, f) && f != GithubActions
    case HuskyInit => Enabled(a, Husky)
  }

  /** The manifest blocks that have finished, scripts written, when a command fails:
      the prettier install fails before any block has added a script, the husky
      install after the prettier block, and `husky init` and the versioning install
      after the husky block's `prepare` script. */
  function BlocksDone(c: Command): nat {
    match c
    case Install(Prettier) => 0
    case Install(Husky) => 1
    case HuskyInit => 2
    case Install(Versioning) => 2
    case Install(GithubActions) => 3
  }

  /** One feature block's scripts, run only when the feature is enabled. */
  function RunBlock(m: Scripts, a: Answers, f: Feature): Scripts {
    if Enabled(a, f) then ApplyFeature(m, f) else m
  }

  /** The scripts as they stand when a failing command aborts the run. */
  function ScriptsAtFailure(m: Scripts, a: Answers, c: Command): Scripts {
    var done := BlocksDone(c);
    var afterPrettier := if done >= 1 then RunBlock(m, a, Prettier) else m;
    if done >= 2 then RunBlock(afterPrettier, a, Husky) else afterPrettier
  }

  /** The defaults of the enabled features whose blocks have finished. */
  function DefaultsAtFailure(a: Answers, c: Command): map<string, string> {
    (if BlocksDone(c) >= 1 && Enabled(a, Prettier) then FeatureDefaults(Prettier) else map[])
    + (if BlocksDone(c) >= 2 && Enabled(a, Husky) then FeatureDefaults(Husky) else map[])
  }

  /** The file operations done when a failing command aborts the run: the `scripts`
      directory and the whole copy loop, and the `chmod`, which comes before the
      versioning install, only when that install is the one that fails. */
  function ActionsAtFailure(a: Answers, c: Command): seq<FileAction> {
    [EnsureDir("scripts")] + CopyLoop(a, FeatureOrder)
    + (if c == Install(Versioning) then [MakeExecutable("scripts/release.js", "755")] else [])
  }

  /** A run either stops before asking anything, is aborted by a failing command, or
      completes with the features it reports as installed, its file operations and the
      manifest's new scripts. An aborted run reports nothing and exits with status 1. */
  datatype SetupResult =
    | Failed(error: SetupError)
    | Aborted(failed: Command, actions: seq<FileAction>, scripts: Scripts)
    | Completed(installed: seq<Feature>, actions: seq<FileAction>, scripts: Scripts)

  /** The blocks that finished before a failing command filled their defaults. */
  lemma ScriptsAtFailureIsFill(m: Scripts, a: Answers, c: Command)
    ensures ScriptsAtFailure(m, a, c) == FillUnset(m, DefaultsAtFailure(a, c))
  {
    var p := if BlocksDone(c) >= 1 && Enabled(a, Prettier) then FeatureDefaults(Prettier) else map[];
    var h := if BlocksDone(c) >= 2 && Enabled(a, Husky) then FeatureDefaults(Husky) else map[];
    FeatureDefaultsDisjoint(Prettier, Husky);
    var m1 := if BlocksDone(c) >= 1 then RunBlock(m, a, Prettier) else m;
    OptionalBlockIsFill(m, BlocksDone(c) >= 1 && Enabled(a, Prettier), Prettier);
    OptionalBlockIsFill(m1, BlocksDone(c) >= 2 && Enabled(a, Husky), Husky);
    FillCompose(m, p, h);
  }

  /** One run. A missing or unparseable manifest ends it with an error before any
      question, copy or change. `failing` is the first external command that fails, if
      any; whether an install runs at all also depends on `devDependencies`, which is
      folded into this input. A failure of a command that is not reached changes
      nothing. */
  function Setup(manifest: ManifestFile, a: Answers, failing: Option<Command>): (r: SetupResult)
    ensures manifest.Missing? <==> r == Failed(ManifestNotFound)
    ensures manifest.Unparseable? <==> r == Failed(ManifestUnreadable)
    ensures r.Aborted? <==> manifest.Parsed? && failing.Some? && Runs(a, failing.value)
    ensures r.Aborted? ==>
              && r.failed == failing.value
              && r.actions <= FileActions(a)
              && |r.actions| == 1 + |CopyLoop(a, FeatureOrder)| + (if r.failed == Install(Versioning) then 1 else 0)
              && r.scripts == FillUnset(manifest.scripts, DefaultsAtFailure(a, r.failed))
    ensures r.Completed? ==>
              && r.installed == SelectedFeatures(a, FeatureOrder)
              && r.actions == FileActions(a)
              && r.scripts == FillUnset(manifest.scripts, SelectedDefaults(a))
  {
    match manifest
    case Missing => Failed(ManifestNotFound)
    case Unparseable => Failed(ManifestUnreadable)
    case Parsed(scripts) =>
      if failing.Some? && Runs(a, failing.value) then
        ScriptsAtFailureIsFill(scripts, a, failing.value);
        var acts := ActionsAtFailure(a, failing.value);
        assert acts <= FileActions(a) by {
          assert failing.value == Install(Versioning) ==> Enabled(a, Versioning);
        }
        Aborted(failing.value, acts, ScriptsAtFailure(scripts, a, failing.value))
      else
        MergeIsFill(scripts, a);
        Completed(SelectedFeatures(a, FeatureOrder), FileActions(a), MergeScripts(scripts, a))
  }

  /** A failed prettier install leaves the manifest as it was: `format` is not added and
      the husky and versioning blocks never run. */
  lemma PrettierInstallFailureAddsNothing(m: Scripts, a: Answers)
    requires Enabled(a, Prettier)
    ensures Setup(Parsed(m), a, Some(Install(Prettier))).scripts == m
  {
    FillNothing(m);
  }

  /** A failing `npx husky init` comes after the husky block has written `prepare`, so
      the aborted run still leaves `prepare` set. */
  lemma HuskyInitFailureKeepsPrepare(m: Scripts, a: Answers)
    requires Enabled(a, Husky)
    ensures IsSet(Setup(Parsed(m), a, Some(HuskyInit)).scripts, "prepare")
  {
    FeatureDefaultsShape(Husky);
    assert "prepare" in FeatureDefaults(Husky);
  }

  /** Running the installer again on the manifest a completed run produced, with the
      same answers and again no failing command, performs the same file operations and
      leaves the scripts as they are. */
  lemma SetupIdempotent(m: Scripts, a: Answers)
    ensures var first := Setup(Parsed(m), a, None);
            Setup(Parsed(first.scripts), a, None) == first
  {
    MergeIdempotent(m, a);
    MergeIsFill(m, a);
    MergeIsFill(MergeScripts(m, a), a);
  }

  /** A declined feature leaves no trace, whether or not a command fails: it is not
      reported, none of its files is copied, and none of its scripts is added or
      changed. */
  lemma DeclinedFeatureUntouched(m: Scripts, a: Answers, f: Feature, failing: Option<Command>)
    requires !Enabled(a, f)
    ensures var r := Setup(Parsed(m), a, failing);
            && (r.Completed? ==> f !in r.installed)
            && (forall e :: e in FeatureFiles(f) ==> CopyFile(e.src, e.dest) !in r.actions)
            && (forall k :: k in ScriptKeys(f) ==> (k in r.scripts <==> k in m) && (k in m ==> r.scripts[k] == m[k]))
  {
    var r := Setup(Parsed(m), a, failing);
    forall e | e in FeatureFiles(f) ensures CopyFile(e.src, e.dest) !in r.actions {
      CopiedIff(a, f, e);
    }
    forall k | k in ScriptKeys(f)
      ensures (k in r.scripts <==> k in m) && (k in m ==> r.scripts[k] == m[k])
    {
      DeclinedKeyUntouched(m, a, f, failing, k);
    }
  }

  lemma DeclinedKeyUntouched(m: Scripts, a: Answers, f: Feature, failing: Option<Command>, k: string)
    requires !Enabled(a, f) && k in ScriptKeys(f)
    ensures var r := Setup(Parsed(m), a, failing);
            (k in r.scripts <==> k in m) && (k in m ==> r.scripts[k] == m[k])
  {
    if failing.Some? && Runs(a, failing.value) {
      assert k !in DefaultsAtFailure(a, failing.value) by {
        FeatureDefaultsShape(Prettier);
        FeatureDefaultsShape(Husky);
        if f != Prettier { ScriptKeysDisjoint(f, Prettier); }
        if f != Husky { ScriptKeysDisjoint(f, Husky); }
      }
    } else {
      forall g | Enabled(a, g) ensures k !in ScriptKeys(g) {
        ScriptKeysDisjoint(f, g);
      }
      MergeLeavesOtherKeys(m, a, k);
    }
  }
}
