/**
  scripts/i18n-coverage-report.mjs: for every English file (a namespace) and
  every target language, count the English key paths that are translated,
  still carry a placeholder, or are missing, per namespace and summed per
  language. The key walks are the audit's `getAllKeys` and `findUntranslated`:
  the report carries its own copies of those two functions, line for line the
  same, so the model uses one definition for both scripts.
 */
module Coverage {
  import opened Json
  import opened Seqs
  import opened Files
  import opened Audit

  /** `coverage[namespace].languages[lang]`, without the floating-point `percentage`. */
  datatype LangCoverage = LangCoverage(present: bool, translated: int, untranslated: nat, missing: nat)

  /** `coverage[namespace]`. */
  datatype NsCoverage = NsCoverage(total: nat, languages: map<string, LangCoverage>)

  /** `overallStats[lang]`; `translated` is a difference and may go below zero. */
  datatype Stats = Stats(total: nat, translated: int, untranslated: nat, missing: nat)

  datatype Report = Report(coverage: map<string, NsCoverage>, overall: map<string, Stats>, totalEnKeys: nat)

  const Zero := Stats(0, 0, 0, 0)

  /** `s.replace(pat, rep)` with a string pattern: only the first occurrence is replaced. */
  function ReplaceFirst(s: string, pat: string, rep: string): string
    decreases s
  {
    if pat <= s then rep + s[|pat|..]
    else if s == [] then []
    else [s[0]] + ReplaceFirst(s[1..], pat, rep)
  }

  /** `file.replace('.json', '')`. */
  function Namespace(file: string): string
  {
    ReplaceFirst(file, ".json", "")
  }

  /** A name without a dot gets its namespace back from its file name. */
  lemma {:induction false} NamespaceOfPlainName(name: string)
    requires forall k :: 0 <= k < |name| ==> name[k] != '.'
    ensures Namespace(name + ".json") == name
    decreases |name|
  {
    if name == [] {
      assert ".json" <= name + ".json";
    } else {
      var s := name + ".json";
      assert !(".json" <= s) by { assert s[0] == name[0] && name[0] != '.'; }
      assert s[1..] == name[1..] + ".json";
      NamespaceOfPlainName(name[1..]);
      assert ReplaceFirst(s[1..], ".json", "") == name[1..];
    }
  }

  /** The first occurrence only: the suffix survives when the name holds `.json` earlier on. */
  lemma ReplaceFirstOnly()
    ensures Namespace("a.json.json") == "a.json"
  {
    var s := "a.json.json";
    assert s[0] == 'a' && s[1..] == ".json.json";
    assert ".json" <= s[1..] && s[1..][5..] == ".json";
    assert !(".json" <= s) by { assert s[0] != ".json"[0]; }
  }

  /**
    The per-language entry for one English file whose key paths are `enKeys`:
    a missing file counts every key as missing; a parsed file counts its
    placeholders and the English paths it lacks, and the rest as translated.
   */
  function LangCoverageOf(enKeys: seq<string>, st: FileState): (c: LangCoverage)
    requires !st.ParseError?
    ensures c.translated + c.untranslated + c.missing == |enKeys|
    ensures c.present <==> st.Tree?
    ensures st.Absent? ==> c.translated == 0 && c.untranslated == 0 && c.missing == |enKeys|
    ensures st.Tree? ==> c.untranslated == |FindUntranslated(st.entries, "")|
    ensures st.Tree? ==> c.missing == |Without(enKeys, GetAllKeys(st.entries, ""))|
  {
    match st
    case Absent => LangCoverage(false, 0, 0, |enKeys|)
    case Tree(es) =>
      var u := |FindUntranslated(es, "")|;
      var m := |Without(enKeys, GetAllKeys(es, ""))|;
      LangCoverage(true, |enKeys| - u - m, u, m)
  }

  /** A copy with no duplicate path, whose placeholders sit at English paths, has between 0 and all keys translated. */
  lemma TranslatedBounds(enKeys: seq<string>, es: Entries)
    requires Distinct(enKeys) && Distinct(GetAllKeys(es, ""))
    requires forall k :: k in FindUntranslated(es, "") ==> k in enKeys
    ensures 0 <= LangCoverageOf(enKeys, Tree(es)).translated <= |enKeys|
  {
    var langKeys := GetAllKeys(es, "");
    var u := FindUntranslated(es, "");
    var m := Without(enKeys, langKeys);
    UntranslatedSubsequenceOfKeys(es, "");
    SubsequenceDistinct(u, langKeys);
    WithoutDistinct(enKeys, langKeys);
    DistinctCard(u);
    DistinctCard(m);
    DistinctCard(enKeys);
    assert Elements(u) * Elements(m) == {};
    assert Elements(u) + Elements(m) <= Elements(enKeys);
    assert |Elements(u) + Elements(m)| == |Elements(u)| + |Elements(m)|;
    SubsetCard(Elements(u) + Elements(m), Elements(enKeys));
  }

  lemma SubsetCard(a: set<string>, b: set<string>)
    requires a <= b
    ensures |a| <= |b|
  {
    assert b == a + (b - a);
  }

  /** A placeholder at a key English lacks drives `translated` below zero. */
  lemma NegativeTranslated()
    ensures LangCoverageOf(["a"], Tree([("b", Str("[TRANSLATE: b] B"))])).translated == -1
  {
    var es := [("b", Str("[TRANSLATE: b] B"))];
    assert Marker <= "[TRANSLATE: b] B";
    assert FindUntranslated(es, "") == ["b"] by {
      assert FindUntranslated(es[1..], "") == [];
    }
    assert GetAllKeys(es, "") == ["b"] by {
      assert GetAllKeys(es[1..], "") == [];
    }
    assert Without(["a"], ["b"]) == ["a"] by {
      assert Without(["a"][1..], ["b"]) == [];
    }
  }

  /** The English file and every target copy that exists can be read and parsed: the run gets past this file. */
  predicate Readable(fs: FileMap, file: string)
  {
    Read(fs, SourceLang, file).Tree? && TargetsParse(fs, file)
  }

  /** Every target copy of `file` that exists parses. */
  predicate TargetsParse(fs: FileMap, file: string)
  {
    forall l :: l in TargetLangs ==> !Read(fs, l, file).ParseError?
  }

  predicate AllReadable(fs: FileMap, files: seq<string>)
  {
    forall i :: 0 <= i < |files| ==> Readable(fs, files[i])
  }

  /** `coverage[namespace]` for one readable English file. */
  function NsCoverageOf(fs: FileMap, file: string): (n: NsCoverage)
    requires Readable(fs, file)
    ensures n.total == |SourceKeys(fs, file)|
    ensures n.languages.Keys == set l | l in TargetLangs
    ensures forall l :: l in n.languages ==> n.languages[l] == LangCoverageOf(SourceKeys(fs, file), Read(fs, l, file))
  {
    var enKeys := SourceKeys(fs, file);
    NsCoverage(|enKeys|, map l | l in TargetLangs :: LangCoverageOf(enKeys, Read(fs, l, file)))
  }

  /** A map built by assigning the pairs `ps` in order: a later pair with the same key replaces an earlier one. */
  function Assoc(ps: seq<(string, NsCoverage)>): map<string, NsCoverage>
    decreases |ps|
  {
    if ps == [] then map[] else Assoc(ps[..|ps| - 1])[ps[|ps| - 1].0 := ps[|ps| - 1].1]
  }

  /** No later pair has the key of the pair at index `k`. */
  predicate LastOfKey(ps: seq<(string, NsCoverage)>, k: int)
  {
    0 <= k < |ps| && forall p :: k < p < |ps| ==> ps[p].0 != ps[k].0
  }

  /** Every pair's key is a key of the built map. */
  lemma {:induction false} AssocHasKeys(ps: seq<(string, NsCoverage)>)
    ensures forall i :: 0 <= i < |ps| ==> ps[i].0 in Assoc(ps)
    decreases |ps|
  {
    if ps != [] {
      var init := ps[..|ps| - 1];
      AssocHasKeys(init);
      forall i | 0 <= i < |ps| ensures ps[i].0 in Assoc(ps) {
        if i < |init| { assert ps[i] == init[i]; }
      }
    }
  }

  /** The built map has no key that no pair has. */
  lemma {:induction false} AssocOnlyKeys(ps: seq<(string, NsCoverage)>, key: string)
    requires key in Assoc(ps)
    ensures exists i :: 0 <= i < |ps| && ps[i].0 == key
    decreases |ps|
  {
    var init := ps[..|ps| - 1];
    if key != ps[|ps| - 1].0 {
      AssocOnlyKeys(init, key);
      var i :| 0 <= i < |init| && init[i].0 == key;
      assert ps[i] == init[i];
    }
  }

  /** A key maps to the value of its last pair. */
  lemma {:induction false} AssocLastWins(ps: seq<(string, NsCoverage)>, k: int)
    requires LastOfKey(ps, k)
    ensures ps[k].0 in Assoc(ps) && Assoc(ps)[ps[k].0] == ps[k].1
    decreases |ps|
  {
    var init := ps[..|ps| - 1];
    if k < |init| {
      assert ps[k] == init[k];
      assert LastOfKey(init, k) by {
        forall p | k < p < |init| ensures init[p].0 != init[k].0 { assert ps[p] == init[p]; }
      }
      AssocLastWins(init, k);
    }
  }

  /** The (namespace, entry) pairs of the files `files`, in order. */
  function Rows(fs: FileMap, files: seq<string>): (r: seq<(string, NsCoverage)>)
    requires AllReadable(fs, files)
    ensures |r| == |files| && forall i :: 0 <= i < |files| ==> r[i] == (Namespace(files[i]), NsCoverageOf(fs, files[i]))
  {
    seq(|files|, i requires 0 <= i < |files| && AllReadable(fs, files) => (Namespace(files[i]), NsCoverageOf(fs, files[i])))
  }

  /** `coverage` after the files `files`. */
  function CoverageMap(fs: FileMap, files: seq<string>): map<string, NsCoverage>
    requires AllReadable(fs, files)
  {
    Assoc(Rows(fs, files))
  }

  /** No later file shares the namespace of the file at index `k`. */
  predicate LastOfNamespace(files: seq<string>, k: int)
  {
    0 <= k < |files| && forall m :: k < m < |files| ==> Namespace(files[m]) != Namespace(files[k])
  }

  /**
    The report has one entry per namespace; each is the entry of the last
    file with that namespace.
   */
  lemma CoverageMapEntries(fs: FileMap, files: seq<string>)
    requires AllReadable(fs, files)
    ensures forall i :: 0 <= i < |files| ==> Namespace(files[i]) in CoverageMap(fs, files)
    ensures forall ns :: ns in CoverageMap(fs, files) ==> exists i :: 0 <= i < |files| && Namespace(files[i]) == ns
    ensures forall k :: LastOfNamespace(files, k) ==> CoverageMap(fs, files)[Namespace(files[k])] == NsCoverageOf(fs, files[k])
  {
    var ps := Rows(fs, files);
    AssocHasKeys(ps);
    forall k | LastOfNamespace(files, k)
      ensures CoverageMap(fs, files)[Namespace(files[k])] == NsCoverageOf(fs, files[k])
    {
      assert LastOfKey(ps, k) by {
        forall p | k < p < |ps| ensures ps[p].0 != ps[k].0 {
          assert ps[p].0 == Namespace(files[p]);
        }
      }
      AssocLastWins(ps, k);
    }
    forall ns | ns in CoverageMap(fs, files) ensures exists i :: 0 <= i < |files| && Namespace(files[i]) == ns {
      AssocOnlyKeys(ps, ns);
      var i :| 0 <= i < |ps| && ps[i].0 == ns;
      assert Namespace(files[i]) == ns;
    }
  }

  /** `overallStats[lang]` after adding the entry `c` of a file with `n` English keys. */
  function Count(s: Stats, n: nat, c: LangCoverage): Stats
  {
    Stats(s.total + n, s.translated + c.translated, s.untranslated + c.untranslated, s.missing + c.missing)
  }

  /** `overallStats[lang]` after the files `files`. */
  function Overall(fs: FileMap, files: seq<string>, lang: string): Stats
    requires AllReadable(fs, files) && lang in TargetLangs
    decreases |files|
  {
    if files == [] then Zero
    else
      var init := files[..|files| - 1];
      var last := files[|files| - 1];
      assert AllReadable(fs, init) by {
        forall i | 0 <= i < |init| ensures Readable(fs, init[i]) { assert init[i] == files[i]; }
      }
      Count(Overall(fs, init, lang), |SourceKeys(fs, last)|, LangCoverageOf(SourceKeys(fs, last), Read(fs, lang, last)))
  }

  /** `totalEnKeys` after the files `files`. */
  function TotalEnKeys(fs: FileMap, files: seq<string>): nat
    decreases |files|
  {
    if files == [] then 0 else TotalEnKeys(fs, files[..|files| - 1]) + |SourceKeys(fs, files[|files| - 1])|
  }

  /**
    For every language, the summed total is the number of English keys seen
    so far, and it splits exactly into translated, untranslated and missing.
   */
  lemma {:induction false} OverallBalanced(fs: FileMap, files: seq<string>, lang: string)
    requires AllReadable(fs, files) && lang in TargetLangs
    ensures Overall(fs, files, lang).total == TotalEnKeys(fs, files)
    ensures Overall(fs, files, lang).total ==
      Overall(fs, files, lang).translated + Overall(fs, files, lang).untranslated + Overall(fs, files, lang).missing
    decreases |files|
  {
    if files != [] {
      var init := files[..|files| - 1];
      assert AllReadable(fs, init) by {
        forall i | 0 <= i < |init| ensures Readable(fs, init[i]) { assert init[i] == files[i]; }
      }
      OverallBalanced(fs, init, lang);
    }
  }

  /** The script fails to get past some file exactly when that file or one of its target copies does not parse. */
  predicate SomeUnreadable(fs: FileMap, files: seq<string>)
  {
    exists i :: 0 <= i < |files| && !Readable(fs, files[i])
  }

  /** `overallStats[lang]`, or the fresh counters the loop puts there first. */
  function StatsOf(overall: map<string, Stats>, lang: string): Stats
  {
    if lang in overall then overall[lang] else Zero
  }

  /** What the language loop leaves behind for one file: its `languages` entries and the updated `overallStats`. */
  datatype FileCoverage = FileCoverage(languages: map<string, LangCoverage>, overall: map<string, Stats>)

  /**
    The loop over `TARGET_LANGS` (passed as `langs`) for one English file with
    key paths `enKeys` (lines 60-99): it adds one entry per language and folds
    it into that language's counters, or stops at a copy whose `JSON.parse`
    throws.
   */
  method CoverFile(fs: FileMap, file: string, enKeys: seq<string>, overall0: map<string, Stats>, langs: seq<string>)
    returns (r: Run<FileCoverage>)
    requires Distinct(langs)
    ensures r.Crashed? <==> exists l :: l in langs && Read(fs, l, file).ParseError?
    ensures r.Finished? ==> forall l :: l in r.value.languages <==> l in langs
    ensures r.Finished? ==> forall l :: l in langs ==>
      !Read(fs, l, file).ParseError? && r.value.languages[l] == LangCoverageOf(enKeys, Read(fs, l, file))
    ensures r.Finished? ==> forall l :: l in r.value.overall <==> l in overall0 || l in langs
    ensures r.Finished? ==> forall l :: l in langs ==>
      r.value.overall[l] == Count(StatsOf(overall0, l), |enKeys|, LangCoverageOf(enKeys, Read(fs, l, file)))
    ensures r.Finished? ==> forall l :: l in overall0 && l !in langs ==> r.value.overall[l] == overall0[l]
  {
    var languages: map<string, LangCoverage> := map[];
    var overall := overall0;
    var j := 0;
    while j < |langs|
      invariant 0 <= j <= |langs|
      invariant forall l :: l in languages <==> l in langs[..j]
      invariant forall l :: l in langs[..j] ==>
        !Read(fs, l, file).ParseError? && languages[l] == LangCoverageOf(enKeys, Read(fs, l, file))
      invariant forall l :: l in overall <==> l in overall0 || l in langs[..j]
      invariant forall l :: l in overall && l !in langs[..j] ==> overall[l] == overall0[l]
      invariant forall l :: l in langs[..j] ==>
        overall[l] == Count(StatsOf(overall0, l), |enKeys|, LangCoverageOf(enKeys, Read(fs, l, file)))
    {
      var lang := langs[j];
      assert lang !in langs[..j];
      if lang !in overall {
        overall := overall[lang := Zero];
      }
      var langData := Read(fs, lang, file);
      if langData.ParseError? {
        return Crashed(lang, file);
      }
      var c := LangCoverageOf(enKeys, langData);
      languages := languages[lang := c];
      overall := overall[lang := Count(overall[lang], |enKeys|, c)];
      assert langs[..j + 1] == langs[..j] + [lang];
      j := j + 1;
    }
    assert langs[..j] == langs;
    r := Finished(FileCoverage(languages, overall));
  }

  /** The target languages are five different directories. */
  lemma TargetLangsDistinct()
    ensures Distinct(TargetLangs)
  {
    var heads := "aefdr";
    assert forall i :: 0 <= i < |TargetLangs| ==> TargetLangs[i] != [] && TargetLangs[i][0] == heads[i];
  }

  /** The first `i + 1` files are readable exactly when the first `i` are and the next one is. */
  lemma ReadablePrefix(fs: FileMap, files: seq<string>, i: nat)
    requires i < |files|
    ensures AllReadable(fs, files[..i + 1]) <==> AllReadable(fs, files[..i]) && Readable(fs, files[i])
  {
    assert files[..i + 1][i] == files[i];
    assert forall k :: 0 <= k < i ==> files[..i + 1][k] == files[..i][k];
  }

  /** One more readable file adds its entry to a language's counters. */
  lemma OverallStep(fs: FileMap, files: seq<string>, i: nat, lang: string)
    requires i < |files| && AllReadable(fs, files[..i + 1]) && lang in TargetLangs
    ensures AllReadable(fs, files[..i])
    ensures Overall(fs, files[..i + 1], lang) ==
      Count(Overall(fs, files[..i], lang), |SourceKeys(fs, files[i])|, LangCoverageOf(SourceKeys(fs, files[i]), Read(fs, lang, files[i])))
  {
    ReadablePrefix(fs, files, i);
    assert files[..i + 1][..i] == files[..i];
  }

  /** One more readable file adds its keys to `totalEnKeys` and its entry to `coverage`. */
  lemma CoverageStep(fs: FileMap, files: seq<string>, i: nat)
    requires i < |files| && AllReadable(fs, files[..i + 1])
    ensures AllReadable(fs, files[..i])
    ensures TotalEnKeys(fs, files[..i + 1]) == TotalEnKeys(fs, files[..i]) + |SourceKeys(fs, files[i])|
    ensures CoverageMap(fs, files[..i + 1]) == CoverageMap(fs, files[..i])[Namespace(files[i]) := NsCoverageOf(fs, files[i])]
  {
    ReadablePrefix(fs, files, i);
    assert files[..i + 1][..i] == files[..i];
    assert Rows(fs, files[..i + 1])[..i] == Rows(fs, files[..i]);
  }

  /**
    The report loop of lines 48-100. It ends with the counters the functions
    above define, or stops at the first English file or target copy whose
    `JSON.parse` throws.
   */
  method BuildReport(fs: FileMap, enFiles: seq<string>) returns (run: Run<Report>)
    ensures run.Crashed? <==> SomeUnreadable(fs, enFiles)
    ensures run.Finished? ==> run.value.totalEnKeys == TotalEnKeys(fs, enFiles)
    ensures run.Finished? ==> run.value.coverage == CoverageMap(fs, enFiles)
    ensures run.Finished? ==> forall l :: l in run.value.overall <==> enFiles != [] && l in TargetLangs
    ensures run.Finished? ==> forall l :: l in run.value.overall ==> run.value.overall[l] == Overall(fs, enFiles, l)
  {
    var coverage: map<string, NsCoverage> := map[];
    var overall: map<string, Stats> := map[];
    var totalEnKeys := 0;
    var i := 0;
    while i < |enFiles|
      invariant 0 <= i <= |enFiles|
      invariant AllReadable(fs, enFiles[..i])
      invariant totalEnKeys == TotalEnKeys(fs, enFiles[..i])
      invariant coverage == CoverageMap(fs, enFiles[..i])
      invariant forall l :: l in overall <==> i > 0 && l in TargetLangs
      invariant forall l :: l in overall ==> overall[l] == Overall(fs, enFiles[..i], l)
    {
      var file := enFiles[i];
      var enData := Read(fs, SourceLang, file);
      if !enData.Tree? {
        assert !Readable(fs, enFiles[i]);
        return Crashed(SourceLang, file);
      }
      var enKeys := GetAllKeys(enData.entries, "");
      TargetLangsDistinct();
      var step := CoverFile(fs, file, enKeys, overall, TargetLangs);
      if step.Crashed? {
        assert !Readable(fs, enFiles[i]);
        return Crashed(step.lang, step.file);
      }
      assert SourceKeys(fs, file) == enKeys;
      assert Readable(fs, file);
      ReadablePrefix(fs, enFiles, i);
      forall l | l in TargetLangs
        ensures step.value.overall[l] == Overall(fs, enFiles[..i + 1], l)
      {
        OverallStep(fs, enFiles, i, l);
        assert StatsOf(overall, l) == Overall(fs, enFiles[..i], l);
      }
      CoverageStep(fs, enFiles, i);
      assert NsCoverage(|enKeys|, step.value.languages) == NsCoverageOf(fs, file);
      totalEnKeys := totalEnKeys + |enKeys|;
      coverage := coverage[Namespace(file) := NsCoverage(|enKeys|, step.value.languages)];
      overall := step.value.overall;
      i := i + 1;
    }
    assert enFiles[..i] == enFiles;
    run := Finished(Report(coverage, overall, totalEnKeys));
  }

  /**
    Every language's summed total equals `totalEnKeys` and splits exactly into
    translated, untranslated and missing keys.
   */
  lemma ReportBalanced(fs: FileMap, enFiles: seq<string>, r: Report, lang: string)
    requires AllReadable(fs, enFiles) && lang in TargetLangs
    requires r.totalEnKeys == TotalEnKeys(fs, enFiles) && lang in r.overall && r.overall[lang] == Overall(fs, enFiles, lang)
    ensures r.overall[lang].total == r.totalEnKeys
    ensures r.overall[lang].total == r.overall[lang].translated + r.overall[lang].untranslated + r.overall[lang].missing
  {
    OverallBalanced(fs, enFiles, lang);
  }
}
