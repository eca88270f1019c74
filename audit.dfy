/**
  scripts/i18n-audit.mjs: flatten every English file to its key paths and
  classify each required language's copy of it as missing, unparseable, or
  parsed with missing, untranslated and extra keys; count errors and warnings
  and fail the run when there is an error.
 */
module Audit {
  import opened Json
  import opened Seqs
  import opened KeyTree
  import opened Files

  /** `getAllKeys(obj, prefix)`: one dotted path per leaf, walking into non-array objects. */
  function GetAllKeys(es: Entries, prefix: string): seq<string>
    decreases es
  {
    if es == [] then [] else EntryKeys(es[0], prefix) + GetAllKeys(es[1..], prefix)
  }

  /** The loop body of `getAllKeys` for one `[key, value]` entry. */
  function EntryKeys(e: Entry, prefix: string): seq<string>
    decreases e
  {
    var fullKey := Join(prefix, e.0);
    if e.1.Obj? then GetAllKeys(e.1.entries, fullKey) else [fullKey]
  }

  /** `findUntranslated(obj, prefix)`: the paths of string leaves that contain `[TRANSLATE`. */
  function FindUntranslated(es: Entries, prefix: string): seq<string>
    decreases es
  {
    if es == [] then [] else EntryUntranslated(es[0], prefix) + FindUntranslated(es[1..], prefix)
  }

  function EntryUntranslated(e: Entry, prefix: string): seq<string>
    decreases e
  {
    var fullKey := Join(prefix, e.0);
    if IsMarked(e.1) then [fullKey]
    else if e.1.Obj? then FindUntranslated(e.1.entries, fullKey)
    else []
  }

  /**
    `getAllKeys` lists exactly the leaves, in entry order, each by its dotted
    path: nested objects contribute only their children's paths (so an empty
    object contributes nothing), and arrays, `null`, numbers, booleans and
    strings are leaves.
   */
  lemma {:induction false} GetAllKeysAreLeafPaths(es: Entries, prefix: string)
    ensures GetAllKeys(es, prefix) == Paths(prefix, Leaves(es))
    decreases es
  {
    if es != [] {
      EntryKeysAreLeafPaths(es[0], prefix);
      GetAllKeysAreLeafPaths(es[1..], prefix);
      PathsAppend(prefix, EntryLeaves(es[0]), Leaves(es[1..]));
    }
  }

  lemma {:induction false} EntryKeysAreLeafPaths(e: Entry, prefix: string)
    ensures EntryKeys(e, prefix) == Paths(prefix, EntryLeaves(e))
    decreases e
  {
    if e.1.Obj? {
      GetAllKeysAreLeafPaths(e.1.entries, Join(prefix, e.0));
      PathsUnder(prefix, e.0, Leaves(e.1.entries));
    } else {
      assert DotPath(prefix, [e.0]) == DotPath(Join(prefix, e.0), []);
    }
  }

  /** `findUntranslated` lists exactly the marked string leaves, in entry order. */
  lemma {:induction false} FindUntranslatedAreMarkedLeaves(es: Entries, prefix: string)
    ensures FindUntranslated(es, prefix) == Paths(prefix, MarkedLeaves(Leaves(es)))
    decreases es
  {
    if es != [] {
      EntryUntranslatedAreMarked(es[0], prefix);
      FindUntranslatedAreMarkedLeaves(es[1..], prefix);
      MarkedLeavesAppend(EntryLeaves(es[0]), Leaves(es[1..]));
      PathsAppend(prefix, MarkedLeaves(EntryLeaves(es[0])), MarkedLeaves(Leaves(es[1..])));
    }
  }

  lemma {:induction false} EntryUntranslatedAreMarked(e: Entry, prefix: string)
    ensures EntryUntranslated(e, prefix) == Paths(prefix, MarkedLeaves(EntryLeaves(e)))
    decreases e
  {
    if e.1.Obj? {
      FindUntranslatedAreMarkedLeaves(e.1.entries, Join(prefix, e.0));
      MarkedUnder(e.0, Leaves(e.1.entries));
      PathsUnder(prefix, e.0, MarkedLeaves(Leaves(e.1.entries)));
    } else {
      assert DotPath(prefix, [e.0]) == DotPath(Join(prefix, e.0), []);
    }
  }

  /** The untranslated paths are some of the key paths, in the same order. */
  lemma UntranslatedSubsequenceOfKeys(es: Entries, prefix: string)
    ensures IsSubsequence(FindUntranslated(es, prefix), GetAllKeys(es, prefix))
    ensures forall k :: k in FindUntranslated(es, prefix) ==> k in GetAllKeys(es, prefix)
  {
    GetAllKeysAreLeafPaths(es, prefix);
    FindUntranslatedAreMarkedLeaves(es, prefix);
    MarkedPathsSubsequence(prefix, Leaves(es));
    SubsequenceElements(FindUntranslated(es, prefix), GetAllKeys(es, prefix));
  }

  // ---------------------------------------------------------------------------
  // The per-(file, language) classification and the run's counters.

  /** What the audit finds for one language's copy of one English file. */
  datatype PairStatus =
    | FileMissing
    | ParseFailed
    | Checked(missingKeys: seq<string>, untranslated: seq<string>, extraKeys: seq<string>)

  /** The English key paths of `file`; an English file that does not parse has none (the run stops there). */
  function SourceKeys(fs: FileMap, file: string): seq<string>
  {
    match Read(fs, SourceLang, file)
    case Tree(es) => GetAllKeys(es, "")
    case _ => []
  }

  function Classify(enKeys: seq<string>, st: FileState): PairStatus
  {
    match st
    case Absent => FileMissing
    case ParseError => ParseFailed
    case Tree(es) =>
      var langKeys := GetAllKeys(es, "");
      Checked(Without(enKeys, langKeys), FindUntranslated(es, ""), Without(langKeys, enKeys))
  }

  function PairOf(fs: FileMap, file: string, lang: string): PairStatus
  {
    Classify(SourceKeys(fs, file), Read(fs, lang, file))
  }

  /** What one pair adds to `errorCount`. */
  function PairErrors(p: PairStatus): nat
  {
    match p
    case Checked(m, u, _) => (if |m| > 0 then 1 else 0) + (if |u| > 0 then 1 else 0)
    case _ => 1
  }

  /** What one pair adds to `warningCount`. */
  function PairWarnings(p: PairStatus): nat
  {
    if p.Checked? && |p.extraKeys| > 0 then 1 else 0
  }

  /** The condition for the "All keys present and translated" line. */
  predicate AllKeysPresent(p: PairStatus)
  {
    p.Checked? && |p.missingKeys| == 0 && |p.untranslated| == 0 && |p.extraKeys| == 0
  }

  /**
    A missing or unparseable file adds exactly one error and no warning; a
    parsed file adds at most two errors (missing keys, placeholders) and at
    most one warning (extra keys). A parsed file adds no error exactly when it
    has every English key and no placeholder, and no warning exactly when it
    has no key English lacks.
   */
  lemma PairContribution(enKeys: seq<string>, st: FileState)
    ensures !st.Tree? ==> PairErrors(Classify(enKeys, st)) == 1 && PairWarnings(Classify(enKeys, st)) == 0
    ensures st.Tree? ==> PairErrors(Classify(enKeys, st)) <= 2 && PairWarnings(Classify(enKeys, st)) <= 1
    ensures st.Tree? ==>
      (PairErrors(Classify(enKeys, st)) == 0 <==>
        (forall k :: k in enKeys ==> k in GetAllKeys(st.entries, "")) && FindUntranslated(st.entries, "") == [])
    ensures st.Tree? ==>
      (PairWarnings(Classify(enKeys, st)) == 0 <==> forall k :: k in GetAllKeys(st.entries, "") ==> k in enKeys)
  {
    if st.Tree? {
      WithoutEmpty(enKeys, GetAllKeys(st.entries, ""));
      WithoutEmpty(GetAllKeys(st.entries, ""), enKeys);
    }
  }

  /**
    The all-present line is printed exactly for a parsed file that holds the
    same key paths as English (as sets) and no placeholder; in particular
    missing and extra keys are both empty when the two key lists hold the same
    elements.
   */
  lemma AllKeysPresentIff(enKeys: seq<string>, st: FileState)
    ensures AllKeysPresent(Classify(enKeys, st)) <==>
      st.Tree? && FindUntranslated(st.entries, "") == [] &&
      (forall k :: k in enKeys <==> k in GetAllKeys(st.entries, ""))
  {
    if st.Tree? {
      WithoutEmpty(enKeys, GetAllKeys(st.entries, ""));
      WithoutEmpty(GetAllKeys(st.entries, ""), enKeys);
    }
  }

  lemma PairBounds(p: PairStatus)
    ensures PairErrors(p) <= 2 && PairWarnings(p) <= 1
  {
  }

  /** The statuses of `file`'s copies in the languages `langs`, in order, against the English paths `enKeys`. */
  function Statuses(enKeys: seq<string>, fs: FileMap, file: string, langs: seq<string>): (ps: seq<PairStatus>)
    ensures |ps| == |langs| && forall j :: 0 <= j < |langs| ==> ps[j] == Classify(enKeys, Read(fs, langs[j], file))
  {
    seq(|langs|, j requires 0 <= j < |langs| => Classify(enKeys, Read(fs, langs[j], file)))
  }

  function FileStatuses(fs: FileMap, file: string, langs: seq<string>): (ps: seq<PairStatus>)
    ensures |ps| == |langs| && forall j :: 0 <= j < |langs| ==> ps[j] == PairOf(fs, file, langs[j])
  {
    Statuses(SourceKeys(fs, file), fs, file, langs)
  }

  /** The errors a list of pairs adds to `errorCount`. */
  function ErrorSum(ps: seq<PairStatus>): nat
    decreases |ps|
  {
    if ps == [] then 0 else ErrorSum(ps[..|ps| - 1]) + PairErrors(ps[|ps| - 1])
  }

  /** The warnings a list of pairs adds to `warningCount`. */
  function WarningSum(ps: seq<PairStatus>): nat
    decreases |ps|
  {
    if ps == [] then 0 else WarningSum(ps[..|ps| - 1]) + PairWarnings(ps[|ps| - 1])
  }

  /** The error count is positive exactly when some pair has an error. */
  lemma {:induction false} ErrorSumPositive(ps: seq<PairStatus>)
    ensures ErrorSum(ps) > 0 <==> exists j :: 0 <= j < |ps| && PairErrors(ps[j]) > 0
    decreases |ps|
  {
    if ps != [] {
      var init := ps[..|ps| - 1];
      ErrorSumPositive(init);
      assert forall j :: 0 <= j < |init| ==> init[j] == ps[j];
    }
  }

  /** At most two errors and one warning per pair. */
  lemma {:induction false} SumBounds(ps: seq<PairStatus>)
    ensures ErrorSum(ps) <= 2 * |ps|
    ensures WarningSum(ps) <= |ps|
    decreases |ps|
  {
    if ps != [] {
      SumBounds(ps[..|ps| - 1]);
      PairBounds(ps[|ps| - 1]);
    }
  }

  /** One row of statuses per English file, over the required languages. */
  function Grid(fs: FileMap, files: seq<string>): (g: seq<seq<PairStatus>>)
    ensures |g| == |files| && forall i :: 0 <= i < |files| ==> g[i] == FileStatuses(fs, files[i], TargetLangs)
  {
    seq(|files|, i requires 0 <= i < |files| => FileStatuses(fs, files[i], TargetLangs))
  }

  /** The errors of all rows, row after row. */
  function GridErrors(g: seq<seq<PairStatus>>): nat
    decreases |g|
  {
    if g == [] then 0 else GridErrors(g[..|g| - 1]) + ErrorSum(g[|g| - 1])
  }

  function GridWarnings(g: seq<seq<PairStatus>>): nat
    decreases |g|
  {
    if g == [] then 0 else GridWarnings(g[..|g| - 1]) + WarningSum(g[|g| - 1])
  }

  /** The error count of a grid is positive exactly when some pair has an error. */
  lemma {:induction false} GridErrorsPositive(g: seq<seq<PairStatus>>)
    ensures GridErrors(g) > 0 <==> exists i, j :: 0 <= i < |g| && 0 <= j < |g[i]| && PairErrors(g[i][j]) > 0
    decreases |g|
  {
    if g != [] {
      var init := g[..|g| - 1];
      GridErrorsPositive(init);
      ErrorSumPositive(g[|g| - 1]);
      assert forall i :: 0 <= i < |init| ==> init[i] == g[i];
    }
  }

  /** Rows of `n` pairs add at most `2n` errors and `n` warnings each. */
  lemma {:induction false} GridBounds(g: seq<seq<PairStatus>>, n: nat)
    requires forall i :: 0 <= i < |g| ==> |g[i]| == n
    ensures GridErrors(g) <= 2 * n * |g|
    ensures GridWarnings(g) <= n * |g|
    decreases |g|
  {
    if g != [] {
      var init := g[..|g| - 1];
      assert forall i :: 0 <= i < |init| ==> |init[i]| == n by {
        assert forall i :: 0 <= i < |init| ==> init[i] == g[i];
      }
      GridBounds(init, n);
      SumBounds(g[|g| - 1]);
      MulSucc(n, |init|);
      MulSucc(2 * n, |init|);
    }
  }

  lemma MulSucc(n: nat, k: nat)
    ensures n * (k + 1) == n * k + n
  {
  }

  /** The final `errorCount` over the listed English files. */
  function TotalErrors(fs: FileMap, files: seq<string>): nat
    decreases |files|
  {
    if files == [] then 0
    else TotalErrors(fs, files[..|files| - 1]) + ErrorSum(FileStatuses(fs, files[|files| - 1], TargetLangs))
  }

  /** The final `warningCount` over the listed English files. */
  function TotalWarnings(fs: FileMap, files: seq<string>): nat
    decreases |files|
  {
    if files == [] then 0
    else TotalWarnings(fs, files[..|files| - 1]) + WarningSum(FileStatuses(fs, files[|files| - 1], TargetLangs))
  }

  /** The run's totals are the totals of its status grid. */
  lemma {:induction false} TotalsAreGrid(fs: FileMap, files: seq<string>)
    ensures TotalErrors(fs, files) == GridErrors(Grid(fs, files))
    ensures TotalWarnings(fs, files) == GridWarnings(Grid(fs, files))
    decreases |files|
  {
    if files != [] {
      var init := files[..|files| - 1];
      TotalsAreGrid(fs, init);
      assert Grid(fs, files)[..|files| - 1] == Grid(fs, init);
    }
  }

  datatype AuditSummary = AuditSummary(errorCount: nat, warningCount: nat)

  /** The process exit status: 1 on a crash or when `errorCount > 0`; warnings alone never fail the run. */
  function AuditExit(run: Run<AuditSummary>): int
  {
    if run.Crashed? || run.value.errorCount > 0 then 1 else 0
  }

  /**
    The run has an error exactly when some (English file, required language)
    pair has a missing or unparseable file, a missing key or a placeholder;
    there are at most two errors and one warning per pair.
   */
  lemma TotalErrorsPositive(fs: FileMap, files: seq<string>)
    ensures TotalErrors(fs, files) > 0 <==>
      exists i, j :: 0 <= i < |files| && 0 <= j < |TargetLangs| && PairErrors(PairOf(fs, files[i], TargetLangs[j])) > 0
    ensures TotalErrors(fs, files) <= 10 * |files|
    ensures TotalWarnings(fs, files) <= 5 * |files|
  {
    var g := Grid(fs, files);
    TotalsAreGrid(fs, files);
    GridErrorsPositive(g);
    GridBounds(g, |TargetLangs|);
    if TotalErrors(fs, files) > 0 {
      var i, j :| 0 <= i < |g| && 0 <= j < |g[i]| && PairErrors(g[i][j]) > 0;
      assert g[i][j] == PairOf(fs, files[i], TargetLangs[j]);
    }
  }

  /** The English file at index `i` is the first one that does not parse. */
  predicate FirstUnparsed(fs: FileMap, files: seq<string>, i: int)
  {
    0 <= i < |files| && !Read(fs, SourceLang, files[i]).Tree? &&
    forall j :: 0 <= j < i ==> Read(fs, SourceLang, files[j]).Tree?
  }

  /**
    The body of the language loop for one pair: a missing or unparseable file
    is one error; a parsed one adds an error for missing keys, an error for
    placeholders and a warning for extra keys.
   */
  method CheckPair(enKeys: seq<string>, langData: FileState) returns (errors: nat, warnings: nat)
    ensures errors == PairErrors(Classify(enKeys, langData))
    ensures warnings == PairWarnings(Classify(enKeys, langData))
  {
    errors, warnings := 0, 0;
    if langData.Absent? || langData.ParseError? {
      errors := 1;
    } else {
      var langKeys := GetAllKeys(langData.entries, "");
      var missingKeys := Without(enKeys, langKeys);
      var untranslated := FindUntranslated(langData.entries, "");
      var extraKeys := Without(langKeys, enKeys);
      if |missingKeys| > 0 {
        errors := errors + 1;
      }
      if |untranslated| > 0 {
        errors := errors + 1;
      }
      if |extraKeys| > 0 {
        warnings := warnings + 1;
      }
    }
  }

  /** The loop over `REQUIRED_LANGS` for one English file whose key paths are `enKeys`. */
  method AuditFile(fs: FileMap, file: string, enKeys: seq<string>) returns (errors: nat, warnings: nat)
    ensures errors == ErrorSum(Statuses(enKeys, fs, file, TargetLangs))
    ensures warnings == WarningSum(Statuses(enKeys, fs, file, TargetLangs))
  {
    ghost var statuses := Statuses(enKeys, fs, file, TargetLangs);
    errors, warnings := 0, 0;
    var j := 0;
    while j < |TargetLangs|
      invariant 0 <= j <= |TargetLangs|
      invariant errors == ErrorSum(statuses[..j])
      invariant warnings == WarningSum(statuses[..j])
    {
      var e, w := CheckPair(enKeys, Read(fs, TargetLangs[j], file));
      errors := errors + e;
      warnings := warnings + w;
      assert statuses[..j + 1][..j] == statuses[..j];
      j := j + 1;
    }
    assert statuses[..j] == statuses;
  }

  /**
    The script's main loop over `enFiles` (the `.json` names listed in the
    English directory) and `REQUIRED_LANGS`. It stops at the first English
    file that cannot be read and parsed; otherwise it ends with the counts
    defined above and fails exactly when some pair has a blocking finding.
   */
  method RunAudit(fs: FileMap, enFiles: seq<string>) returns (run: Run<AuditSummary>)
    ensures run.Crashed? <==> exists i :: 0 <= i < |enFiles| && !Read(fs, SourceLang, enFiles[i]).Tree?
    ensures run.Crashed? ==> run.lang == SourceLang && exists i :: FirstUnparsed(fs, enFiles, i) && enFiles[i] == run.file
    ensures run.Finished? ==> run.value == AuditSummary(TotalErrors(fs, enFiles), TotalWarnings(fs, enFiles))
    ensures run.Finished? ==>
      (AuditExit(run) == 1 <==>
        exists i, j :: 0 <= i < |enFiles| && 0 <= j < |TargetLangs| && PairErrors(PairOf(fs, enFiles[i], TargetLangs[j])) > 0)
  {
    var errorCount := 0;
    var warningCount := 0;
    var i := 0;
    while i < |enFiles|
      invariant 0 <= i <= |enFiles|
      invariant forall j :: 0 <= j < i ==> Read(fs, SourceLang, enFiles[j]).Tree?
      invariant errorCount == TotalErrors(fs, enFiles[..i])
      invariant warningCount == TotalWarnings(fs, enFiles[..i])
    {
      var file := enFiles[i];
      var enData := Read(fs, SourceLang, file);
      if !enData.Tree? {
        assert FirstUnparsed(fs, enFiles, i);
        return Crashed(SourceLang, file);
      }
      assert forall j :: 0 <= j <= i ==> Read(fs, SourceLang, enFiles[j]).Tree?;
      var enKeys := GetAllKeys(enData.entries, "");
      var fileErrors, fileWarnings := AuditFile(fs, file, enKeys);
      assert errorCount + fileErrors == TotalErrors(fs, enFiles[..i + 1]) &&
        warningCount + fileWarnings == TotalWarnings(fs, enFiles[..i + 1]) by {
        assert SourceKeys(fs, file) == enKeys;
        assert FileStatuses(fs, file, TargetLangs) == Statuses(enKeys, fs, file, TargetLangs);
        assert enFiles[..i + 1][..i] == enFiles[..i];
      }
      errorCount := errorCount + fileErrors;
      warningCount := warningCount + fileWarnings;
      i := i + 1;
      assert errorCount == TotalErrors(fs, enFiles[..i]);
      assert warningCount == TotalWarnings(fs, enFiles[..i]);
    }
    assert enFiles[..i] == enFiles;
    run := Finished(AuditSummary(errorCount, warningCount));
    TotalErrorsPositive(fs, enFiles);
  }
}
