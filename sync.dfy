/**
  scripts/i18n-sync-keys.mjs: rebuild every target-language file from the
  English structure, keeping existing translations, and write the files whose
  flattened key count grew or whose top-level keys included obsolete ones.
 */
module Sync {
  import opened Json
  import opened Seqs
  import opened KeyTree
  import opened Files
  import opened Audit
  import opened Flatten

  /** The `{ synced: result, obsolete: obsoleteKeys }` record `syncKeys` returns. */
  datatype Synced = Synced(synced: Entries, obsolete: seq<string>)

  /** The value stored for a source leaf: the kept translation, or a new placeholder. */
  function SyncLeaf(t: Option<Value>, fullKey: string, v: Value): (r: Value)
    ensures IsKeptTranslation(t) ==> r == t.value
    ensures !IsKeptTranslation(t) ==> r == Str(Placeholder(fullKey, ToText(v)))
  {
    if IsKeptTranslation(t) then t.value else Str(Placeholder(fullKey, ToText(v)))
  }

  /** The record returned by a nested call, as the value the caller stores under its key. */
  function Wrap(r: Synced): Value
  {
    Obj([("synced", Obj(r.synced)), ("obsolete", Arr(StrValues(r.obsolete)))])
  }

  /** The obsolete keys as an array of JSON strings. */
  function StrValues(ks: seq<string>): (vs: seq<Value>)
    ensures |vs| == |ks| && forall i :: 0 <= i < |ks| ==> vs[i] == Str(ks[i])
  {
    seq(|ks|, i requires 0 <= i < |ks| => Str(ks[i]))
  }

  /** `result` after the loop over the source entries `ses`, against the target object `t`. */
  function SyncEntries(t: Entries, ses: Entries, prefix: string): (r: Entries)
    ensures |r| == |ses| && forall i :: 0 <= i < |ses| ==> r[i] == SyncEntry(t, ses[i], prefix)
    decreases ses
  {
    if ses == [] then [] else [SyncEntry(t, ses[0], prefix)] + SyncEntries(t, ses[1..], prefix)
  }

  /** One iteration of that loop: `result[key] = ...`. */
  function SyncEntry(t: Entries, e: Entry, prefix: string): (r: Entry)
    ensures r.0 == e.0
    decreases e
  {
    var fullKey := Join(prefix, e.0);
    if e.1.Obj? then
      var sub := Child(t, e.0);
      (e.0, Wrap(Synced(SyncEntries(sub, e.1.entries, fullKey), Without(TopKeys(sub), TopKeys(e.1.entries)))))
    else
      (e.0, SyncLeaf(Lookup(t, e.0), fullKey, e.1))
  }

  /**
    `syncKeys(target, source, source, prefix)`. The synced object has exactly
    the source's top-level keys in the source's order; the obsolete list is
    the target's top-level keys the source lacks, in target order.
   */
  function SyncKeys(target: Entries, source: Entries, prefix: string): (r: Synced)
    ensures TopKeys(r.synced) == TopKeys(source)
    ensures forall k :: k in r.obsolete <==> k in TopKeys(target) && k !in TopKeys(source)
    ensures IsSubsequence(r.obsolete, TopKeys(target))
  {
    Synced(SyncEntries(target, source, prefix), Without(TopKeys(target), TopKeys(source)))
  }

  lemma SyncedUnique(target: Entries, source: Entries, prefix: string)
    requires UniqueKeys(source)
    ensures UniqueKeys(SyncKeys(target, source, prefix).synced)
  {
    var r := SyncKeys(target, source, prefix).synced;
    assert forall i :: 0 <= i < |r| ==> r[i].0 == source[i].0;
  }

  /**
    A leaf key keeps the target's value when that is a non-empty string
    without the marker, and otherwise gets `[TRANSLATE: path] value`; an
    empty-string translation is therefore replaced.
   */
  lemma SyncLeafRule(target: Entries, source: Entries, prefix: string, i: nat)
    requires UniqueKeys(source) && i < |source| && !source[i].1.Obj?
    ensures var t := Lookup(target, source[i].0);
      Lookup(SyncKeys(target, source, prefix).synced, source[i].0) ==
        Some(if IsKeptTranslation(t) then t.value else Str(Placeholder(Join(prefix, source[i].0), ToText(source[i].1))))
  {
    SyncedUnique(target, source, prefix);
    LookupUnique(SyncKeys(target, source, prefix).synced, i);
  }

  /**
    A nested key stores the whole record of the recursive call, made against
    `target[key] || {}`, instead of the merged subtree.
   */
  lemma SyncNestedRule(target: Entries, source: Entries, prefix: string, i: nat)
    requires UniqueKeys(source) && i < |source| && source[i].1.Obj?
    ensures var k := source[i].0;
      Lookup(SyncKeys(target, source, prefix).synced, k) ==
        Some(Wrap(SyncKeys(Child(target, k), source[i].1.entries, Join(prefix, k))))
  {
    SyncedUnique(target, source, prefix);
    LookupUnique(SyncKeys(target, source, prefix).synced, i);
  }

  /** No value of the object is itself a nested object. */
  predicate Flat(es: Entries)
  {
    forall i :: 0 <= i < |es| ==> !es[i].1.Obj?
  }

  /** With a flat source the sync is a fixed point: syncing its own output changes nothing and reports nothing. */
  lemma SyncFlatIdempotent(target: Entries, source: Entries, prefix: string)
    requires Flat(source) && UniqueKeys(source)
    ensures var r := SyncKeys(target, source, prefix);
      SyncKeys(r.synced, source, prefix) == Synced(r.synced, [])
  {
    var r := SyncKeys(target, source, prefix).synced;
    SyncedUnique(target, source, prefix);
    var again := SyncEntries(r, source, prefix);
    forall i | 0 <= i < |source| ensures again[i] == r[i] {
      LookupUnique(r, i);
      var full := Join(prefix, source[i].0);
      var t := Lookup(target, source[i].0);
      if !IsKeptTranslation(t) {
        PlaceholderIsMarked(full, ToText(source[i].1));
      }
    }
    WithoutEmpty(TopKeys(source), TopKeys(source));
  }

  /** `Object.keys(flattenObject(x)).length`. */
  function FlatCount(es: Entries): nat
  {
    |FlattenObject(es, "")|
  }

  /** That count is the number of distinct leaf paths `getAllKeys` finds. */
  lemma FlatCountIsDistinctPaths(es: Entries)
    ensures FlatCount(es) == |Elements(GetAllKeys(es, ""))|
  {
    FlattenKeys(es, "");
  }

  /** What the driver computes for one target file before deciding to write it. */
  datatype PairSync = PairSync(synced: Entries, obsolete: seq<string>, added: int, removed: nat)

  function SyncPair(enData: Entries, langData: Entries): PairSync
  {
    var r := SyncKeys(langData, enData, "");
    PairSync(r.synced, r.obsolete, FlatCount(r.synced) - FlatCount(langData), |r.obsolete|)
  }

  /** `if (added > 0 || removed > 0)`: the file is rewritten. */
  predicate Writes(p: PairSync)
  {
    p.added > 0 || p.removed > 0
  }

  /** The file map and the three totals. */
  datatype SyncState = SyncState(fs: FileMap, added: nat, removed: nat, synced: nat)

  /** The effect of one target file's outcome on the state. */
  function Apply(s: SyncState, lang: string, file: string, p: PairSync): (r: SyncState)
    ensures Writes(p) ==> r.fs == s.fs[(lang, file) := Tree(p.synced)] && r.synced == s.synced + 1
    ensures !Writes(p) ==> r.fs == s.fs && r.synced == s.synced
    ensures r.added == s.added + (if p.added > 0 then p.added else 0)
    ensures r.removed == s.removed + p.removed
  {
    if Writes(p) then
      SyncState(s.fs[(lang, file) := Tree(p.synced)], s.added + (if p.added > 0 then p.added else 0), s.removed + p.removed, s.synced + 1)
    else s
  }

  /** One target language of one file: a missing file syncs as `{}`, an unparseable one stops the run. */
  function SyncLang(s: SyncState, enData: Entries, lang: string, file: string): Run<SyncState>
  {
    match Read(s.fs, lang, file)
    case ParseError => Crashed(lang, file)
    case Absent => Finished(Apply(s, lang, file, SyncPair(enData, [])))
    case Tree(es) => Finished(Apply(s, lang, file, SyncPair(enData, es)))
  }

  /** The inner loop over the target languages, from state `s`. */
  function SyncLangs(s: SyncState, enData: Entries, langs: seq<string>, file: string): Run<SyncState>
    decreases |langs|
  {
    if langs == [] then Finished(s)
    else
      match SyncLang(s, enData, langs[0], file)
      case Crashed(l, f) => Crashed(l, f)
      case Finished(s1) => SyncLangs(s1, enData, langs[1..], file)
  }

  /** One iteration of the outer loop: parse the English file, then sync its copies in the languages `langs`. */
  function SyncEnglishFile(s: SyncState, file: string, langs: seq<string>): Run<SyncState>
  {
    match Read(s.fs, SourceLang, file)
    case Tree(en) => SyncLangs(s, en, langs, file)
    case _ => Crashed(SourceLang, file)
  }

  /** The outer loop over the English files, from state `s`; the script passes `TARGET_LANGS` as `langs`. */
  function SyncFiles(s: SyncState, files: seq<string>, langs: seq<string>): Run<SyncState>
    decreases |files|
  {
    if files == [] then Finished(s)
    else
      match SyncEnglishFile(s, files[0], langs)
      case Crashed(l, f) => Crashed(l, f)
      case Finished(s1) => SyncFiles(s1, files[1..], langs)
  }

  /** One iteration of the inner loop: read, sync, count, and write when something changed. */
  method SyncTarget(s: SyncState, enData: Entries, lang: string, file: string) returns (r: Run<SyncState>)
    ensures r == SyncLang(s, enData, lang, file)
  {
    var st := Read(s.fs, lang, file);
    var langData: Entries := [];
    if st.ParseError? {
      return Crashed(lang, file);
    } else if st.Tree? {
      langData := st.entries;
    }
    var res := SyncKeys(langData, enData, "");
    var beforeKeys := FlatCount(langData);
    var afterKeys := FlatCount(res.synced);
    var added := afterKeys as int - beforeKeys as int;
    var removed := |res.obsolete|;
    ghost var p := PairSync(res.synced, res.obsolete, added, removed);
    assert p == SyncPair(enData, langData);
    var fs := s.fs;
    var totalAdded := s.added;
    var totalRemoved := s.removed;
    var totalSynced := s.synced;
    if added > 0 || removed > 0 {
      fs := fs[(lang, file) := Tree(res.synced)];
      if added > 0 {
        totalAdded := totalAdded + added;
      }
      if removed > 0 {
        totalRemoved := totalRemoved + removed;
      }
      totalSynced := totalSynced + 1;
      assert SyncState(fs, totalAdded, totalRemoved, totalSynced) == Apply(s, lang, file, p);
    } else {
      assert Apply(s, lang, file, p) == s;
    }
    r := Finished(SyncState(fs, totalAdded, totalRemoved, totalSynced));
  }

  /** The loop over the target languages for one English file. */
  method SyncFile(s0: SyncState, enData: Entries, file: string) returns (r: Run<SyncState>)
    ensures r == SyncLangs(s0, enData, TargetLangs, file)
  {
    var s := s0;
    var j := 0;
    while j < |TargetLangs|
      invariant 0 <= j <= |TargetLangs|
      invariant SyncLangs(s, enData, TargetLangs[j..], file) == SyncLangs(s0, enData, TargetLangs, file)
    {
      assert TargetLangs[j..][1..] == TargetLangs[j + 1..];
      var step := SyncTarget(s, enData, TargetLangs[j], file);
      if step.Crashed? {
        return step;
      }
      s := step.value;
      j := j + 1;
    }
    assert TargetLangs[j..] ==[];
    r := Finished(s);
  }

  /** The whole script from the file map `fs`, over the listed English files. */
  method RunSync(fs: FileMap, enFiles: seq<string>) returns (run: Run<SyncState>)
    ensures run == SyncFiles(SyncState(fs, 0, 0, 0), enFiles, TargetLangs)
  {
    var s := SyncState(fs, 0, 0, 0);
    var i := 0;
    while i < |enFiles|
      invariant 0 <= i <= |enFiles|
      invariant SyncFiles(s, enFiles[i..], TargetLangs) == SyncFiles(SyncState(fs, 0, 0, 0), enFiles, TargetLangs)
    {
      var file := enFiles[i];
      assert enFiles[i..][1..] == enFiles[i + 1..];
      var en := Read(s.fs, SourceLang, file);
      if !en.Tree? {
        return Crashed(SourceLang, file);
      }
      var r := SyncFile(s, en.entries, file);
      if r.Crashed? {
        return r;
      }
      s := r.value;
      i := i + 1;
    }
    assert enFiles[i..] == [];
    run := Finished(s);
  }

  /** How the file map after a step relates to the map before it: only target files change, and only to parsed trees. */
  ghost predicate Evolves(fs0: FileMap, fs1: FileMap)
  {
    (forall f :: Read(fs1, SourceLang, f) == Read(fs0, SourceLang, f))
    && (forall l, f :: Read(fs1, l, f).ParseError? <==> Read(fs0, l, f).ParseError?)
    && (forall l, f :: Read(fs1, l, f) != Read(fs0, l, f) ==> l in TargetLangs && Read(fs1, l, f).Tree?)
  }

  lemma EvolvesTrans(a: FileMap, b: FileMap, c: FileMap)
    requires Evolves(a, b) && Evolves(b, c)
    ensures Evolves(a, c)
  {
  }

  /** The totals never shrink and every written file is a target file. */
  ghost predicate Grows(s0: SyncState, s1: SyncState)
  {
    Evolves(s0.fs, s1.fs) && s0.added <= s1.added && s0.removed <= s1.removed && s0.synced <= s1.synced
  }

  lemma GrowsTrans(a: SyncState, b: SyncState, c: SyncState)
    requires Grows(a, b) && Grows(b, c)
    ensures Grows(a, c)
  {
    EvolvesTrans(a.fs, b.fs, c.fs);
  }

  /** Some target language's copy of `file` does not parse. */
  predicate SomeTargetUnparsable(fs: FileMap, langs: seq<string>, file: string)
  {
    exists j :: 0 <= j < |langs| && Read(fs, langs[j], file).ParseError?
  }

  /** Writing a parsed tree to a target file that parsed or was missing. */
  lemma EvolvesByWrite(fs: FileMap, lang: string, file: string, es: Entries)
    requires lang in TargetLangs && !Read(fs, lang, file).ParseError?
    ensures Evolves(fs, fs[(lang, file) := Tree(es)])
  {
    assert SourceLang !in TargetLangs;
  }

  lemma EvolvesRefl(fs: FileMap)
    ensures Evolves(fs, fs)
  {
  }

  /** One target file: the run stops exactly on an unparseable file, and otherwise at most that file is written. */
  lemma SyncLangStep(s: SyncState, enData: Entries, lang: string, file: string)
    requires lang in TargetLangs
    ensures SyncLang(s, enData, lang, file).Crashed? <==> Read(s.fs, lang, file).ParseError?
    ensures SyncLang(s, enData, lang, file).Finished? ==>
      var s1 := SyncLang(s, enData, lang, file).value;
      Grows(s, s1) && s1.synced <= s.synced + 1
  {
    var st := Read(s.fs, lang, file);
    if !st.ParseError? {
      var p := SyncPair(enData, if st.Tree? then st.entries else []);
      assert SyncLang(s, enData, lang, file) == Finished(Apply(s, lang, file, p));
      if Writes(p) {
        EvolvesByWrite(s.fs, lang, file, p.synced);
      } else {
        EvolvesRefl(s.fs);
      }
    }
  }

  /**
    The inner loop stops exactly when some target copy of `file` does not
    parse; otherwise it writes only target files, only grows the totals, and
    writes each language at most once.
   */
  lemma {:induction false} SyncLangsFacts(s: SyncState, enData: Entries, langs: seq<string>, file: string)
    requires AllTargets(langs)
    ensures SyncLangs(s, enData, langs, file).Crashed? <==> SomeTargetUnparsable(s.fs, langs, file)
    ensures SyncLangs(s, enData, langs, file).Finished? ==>
      var s1 := SyncLangs(s, enData, langs, file).value;
      Grows(s, s1) && s1.synced <= s.synced + |langs|
    decreases |langs|
  {
    if langs == [] {
      EvolvesRefl(s.fs);
    } else {
      var lang := langs[0];
      var rest := langs[1..];
      assert forall j :: 0 <= j < |rest| ==> rest[j] == langs[j + 1];
      SyncLangStep(s, enData, lang, file);
      var step := SyncLang(s, enData, lang, file);
      if step.Crashed? {
        assert SomeTargetUnparsable(s.fs, langs, file) by {
          assert Read(s.fs, langs[0], file).ParseError?;
        }
      } else {
        var s1 := step.value;
        SyncLangsFacts(s1, enData, rest, file);
        var after := SyncLangs(s1, enData, rest, file);
        assert SyncLangs(s, enData, langs, file) == after;
        if after.Finished? {
          EvolvesTrans(s.fs, s1.fs, after.value.fs);
        }
        assert SomeTargetUnparsable(s.fs, langs, file) <==> SomeTargetUnparsable(s1.fs, rest, file) by {
          assert !Read(s.fs, lang, file).ParseError?;
          assert forall j :: 0 <= j < |rest| ==> (Read(s1.fs, rest[j], file).ParseError? <==> Read(s.fs, langs[j + 1], file).ParseError?);
        }
      }
    }
  }

  /** `file`'s English copy does not parse, or one of its target copies does not. */
  predicate Blocks(fs: FileMap, file: string, langs: seq<string>)
  {
    !Read(fs, SourceLang, file).Tree? || SomeTargetUnparsable(fs, langs, file)
  }

  /** Where a stopped run names a file that could not be read or parsed. */
  predicate BlockedAt(fs: FileMap, lang: string, file: string, langs: seq<string>)
  {
    (lang == SourceLang && !Read(fs, SourceLang, file).Tree?) || (lang in langs && Read(fs, lang, file).ParseError?)
  }

  /** What blocks a run is the same before and after a step that only writes parsed target files. */
  lemma BlocksPreserved(fs0: FileMap, fs1: FileMap, f: string, langs: seq<string>)
    requires Evolves(fs0, fs1)
    ensures Blocks(fs1, f, langs) <==> Blocks(fs0, f, langs)
  {
    assert SomeTargetUnparsable(fs1, langs, f) <==> SomeTargetUnparsable(fs0, langs, f) by {
      assert forall j :: 0 <= j < |langs| ==> (Read(fs1, langs[j], f).ParseError? <==> Read(fs0, langs[j], f).ParseError?);
    }
  }

  lemma BlockedAtPreserved(fs0: FileMap, fs1: FileMap, l: string, f: string, langs: seq<string>)
    requires Evolves(fs0, fs1)
    ensures BlockedAt(fs1, l, f, langs) <==> BlockedAt(fs0, l, f, langs)
  {
  }

  lemma {:induction false} SyncLangsCrashSite(s: SyncState, enData: Entries, langs: seq<string>, file: string)
    requires AllTargets(langs)
    ensures var r := SyncLangs(s, enData, langs, file); r.Crashed? ==> r.file == file && BlockedAt(s.fs, r.lang, r.file, langs)
    decreases |langs|
  {
    if langs != [] {
      var rest := langs[1..];
      assert forall j :: 0 <= j < |rest| ==> rest[j] == langs[j + 1];
      SyncLangStep(s, enData, langs[0], file);
      var step := SyncLang(s, enData, langs[0], file);
      if step.Finished? {
        SyncLangsCrashSite(step.value, enData, rest, file);
        var r := SyncLangs(step.value, enData, rest, file);
        if r.Crashed? {
          assert r.lang in rest ==> r.lang in langs;
        }
      }
    }
  }

  /** Some listed English file blocks the run. */
  predicate AnyBlocks(fs: FileMap, files: seq<string>, langs: seq<string>)
  {
    exists i :: 0 <= i < |files| && Blocks(fs, files[i], langs)
  }

  lemma AnyBlocksStep(fs0: FileMap, fs1: FileMap, files: seq<string>, langs: seq<string>)
    requires files != [] && !Blocks(fs0, files[0], langs) && Evolves(fs0, fs1)
    ensures AnyBlocks(fs1, files[1..], langs) <==> AnyBlocks(fs0, files, langs)
  {
    if AnyBlocks(fs0, files, langs) {
      var i :| 0 <= i < |files| && Blocks(fs0, files[i], langs);
      BlocksPreserved(fs0, fs1, files[i], langs);
      assert files[1..][i - 1] == files[i];
    }
    if AnyBlocks(fs1, files[1..], langs) {
      var i :| 0 <= i < |files[1..]| && Blocks(fs1, files[1..][i], langs);
      BlocksPreserved(fs0, fs1, files[1..][i], langs);
      assert files[i + 1] == files[1..][i];
    }
  }

  lemma SyncEnglishFileFacts(s: SyncState, file: string, langs: seq<string>)
    requires AllTargets(langs)
    ensures SyncEnglishFile(s, file, langs).Crashed? <==> Blocks(s.fs, file, langs)
    ensures var r := SyncEnglishFile(s, file, langs); r.Crashed? ==> BlockedAt(s.fs, r.lang, r.file, langs)
    ensures SyncEnglishFile(s, file, langs).Finished? ==>
      var s1 := SyncEnglishFile(s, file, langs).value;
      Grows(s, s1) && s1.synced <= s.synced + |langs|
  {
    var en := Read(s.fs, SourceLang, file);
    if en.Tree? {
      SyncLangsFacts(s, en.entries, langs, file);
      SyncLangsCrashSite(s, en.entries, langs, file);
    }
  }

  /**
    The sync run stops exactly when some listed English file, or one of its
    target copies, cannot be parsed in the initial file map, and it names such
    a file. A run that finishes never touches the English files, writes only
    parsed trees into target files, and only grows the totals, with at most
    one write per (file, target language).
   */
  lemma {:induction false} SyncFilesFacts(s: SyncState, files: seq<string>, langs: seq<string>)
    requires AllTargets(langs)
    ensures SyncFiles(s, files, langs).Crashed? <==> AnyBlocks(s.fs, files, langs)
    ensures var r := SyncFiles(s, files, langs); r.Crashed? ==> BlockedAt(s.fs, r.lang, r.file, langs)
    ensures SyncFiles(s, files, langs).Finished? ==>
      var s1 := SyncFiles(s, files, langs).value;
      Grows(s, s1) && s1.synced <= s.synced + |langs| * |files|
    decreases |files|
  {
    if files == [] {
      EvolvesRefl(s.fs);
    } else {
      var rest := files[1..];
      SyncEnglishFileFacts(s, files[0], langs);
      var step := SyncEnglishFile(s, files[0], langs);
      if step.Finished? {
        var s1 := step.value;
        SyncFilesFacts(s1, rest, langs);
        var r := SyncFiles(s1, rest, langs);
        assert SyncFiles(s, files, langs) == r;
        if r.Finished? {
          GrowsTrans(s, s1, r.value);
          MulSucc(|langs|, |rest|);
        } else {
          BlockedAtPreserved(s.fs, s1.fs, r.lang, r.file, langs);
        }
        AnyBlocksStep(s.fs, s1.fs, files, langs);
      }
    }
  }

  /**
    A target file whose keys already match is left alone even when one of
    its values is replaced: an empty translation becomes a placeholder in
    `synced`, but neither count moves, so nothing is written.
   */
  lemma EmptyTranslationNotWritten(a: string, en: Value)
    requires !en.Obj?
    ensures var p := SyncPair([(a, en)], [(a, Str(""))]);
      p.synced == [(a, Str(Placeholder(a, ToText(en))))] && !Writes(p)
  {
    var target := [(a, Str(""))];
    var p := SyncPair([(a, en)], target);
    assert !IsKeptTranslation(Some(Str("")));
    assert p.synced == [(a, Str(Placeholder(a, ToText(en))))];
    FlatCountIsDistinctPaths(target);
    FlatCountIsDistinctPaths(p.synced);
    assert GetAllKeys(target, "") == [a];
    assert GetAllKeys(p.synced, "") == [a];
    assert Without([a], [a]) == [];
  }

  /**
    Syncing `{a: {b: tr}}` against the English `{a: {b: en}}` keeps the
    translation `tr` but stores the record `{synced: {b: tr}, obsolete: []}`
    under `a` instead of `{b: tr}`.
   */
  lemma NestedSyncWrapsRecord(a: string, b: string, en: Value, tr: string)
    requires !en.Obj? && IsKeptTranslation(Some(Str(tr)))
    ensures SyncKeys([(a, Obj([(b, Str(tr))]))], [(a, Obj([(b, en)]))], "").synced == [(a, Wrap(Synced([(b, Str(tr))], [])))]
  {
    var target := [(a, Obj([(b, Str(tr))]))];
    var source := [(a, Obj([(b, en)]))];
    var sub := [(b, Str(tr))];
    assert Child(target, a) == sub;
    assert Lookup(sub, b) == Some(Str(tr));
    var leaf := SyncEntries(sub, [(b, en)], Join("", a));
    assert leaf[0] == SyncEntry(sub, (b, en), Join("", a)) == (b, Str(tr));
    assert leaf == sub;
    assert TopKeys(sub) == [b] && TopKeys([(b, en)]) == [b];
    assert Without([b], [b]) == [];
    var r := SyncEntries(target, source, "");
    assert r[0] == SyncEntry(target, source[0], "") == (a, Wrap(Synced(sub, [])));
  }

  /**
    That file is written, the flattened count growing from 1 (`a.b`) to 2
    (`a.synced.b` and `a.obsolete`), so the broken shape reaches the disk.
   */
  lemma NestedSyncWritten(a: string, b: string, en: Value, tr: string)
    requires a != "" && !en.Obj? && IsKeptTranslation(Some(Str(tr)))
    ensures var p := SyncPair([(a, Obj([(b, en)]))], [(a, Obj([(b, Str(tr))]))]);
      p.added == 1 && Writes(p)
  {
    var target := [(a, Obj([(b, Str(tr))]))];
    var p := SyncPair([(a, Obj([(b, en)]))], target);
    NestedSyncWrapsRecord(a, b, en, tr);
    FlatCountIsDistinctPaths(target);
    FlatCountIsDistinctPaths(p.synced);
    assert GetAllKeys(target, "") == [a + "." + b] by {
      assert GetAllKeys(target, "") == EntryKeys(target[0], "") + GetAllKeys([], "");
      assert EntryKeys(target[0], "") == GetAllKeys([(b, Str(tr))], a) == [Join(a, b)];
    }
    var k1 := Join(Join(a, "synced"), b);
    var k2 := Join(a, "obsolete");
    var rec := Wrap(Synced([(b, Str(tr))], []));
    assert GetAllKeys(p.synced, "") == [k1, k2] by {
      assert p.synced == [(a, rec)];
      assert GetAllKeys(p.synced, "") == EntryKeys((a, rec), "") + GetAllKeys([], "");
      assert EntryKeys((a, rec), "") == GetAllKeys(rec.entries, a);
      assert EntryKeys(rec.entries[0], a) == GetAllKeys([(b, Str(tr))], Join(a, "synced")) == [k1];
      assert EntryKeys(rec.entries[1], a) == [k2];
      assert rec.entries[1..][1..] == [];
      assert GetAllKeys(rec.entries, a) == [k1] + ([k2] + GetAllKeys([], a));
    }
    assert k1 != k2 by {
      var s1 := a + "." + "synced";
      assert k1 == s1 + "." + b && k2 == a + "." + "obsolete";
      assert k1[|a| + 1] == s1[|a| + 1] == "synced"[0];
      assert k2[|a| + 1] == "obsolete"[0];
    }
    assert Elements([k1, k2]) == {k1, k2};
    assert Elements([a + "." + b]) == {a + "." + b};
  }

  /**
    Syncing that output again loses the translation: the record's own keys
    become the obsolete keys of `a`, and `b`, no longer found, falls back to
    a placeholder.
   */
  lemma NestedSyncLosesTranslation(a: string, b: string, en: Value, tr: string)
    requires !en.Obj? && IsKeptTranslation(Some(Str(tr))) && b != "synced" && b != "obsolete"
    ensures var source := [(a, Obj([(b, en)]))];
      var once := SyncKeys([(a, Obj([(b, Str(tr))]))], source, "").synced;
      SyncKeys(once, source, "").synced == [(a, Wrap(Synced([(b, Str(Placeholder(Join(a, b), ToText(en))))], ["synced", "obsolete"])))]
  {
    NestedSyncWrapsRecord(a, b, en, tr);
    var source := [(a, Obj([(b, en)]))];
    var once := [(a, Wrap(Synced([(b, Str(tr))], [])))];
    var inner := Child(once, a);
    assert inner == [("synced", Obj([(b, Str(tr))])), ("obsolete", Arr([]))];
    assert Lookup(inner, b) == None;
    var placeholder := (b, Str(Placeholder(Join(a, b), ToText(en))));
    var leaf := SyncEntries(inner, [(b, en)], Join("", a));
    assert leaf[0] == SyncEntry(inner, (b, en), Join("", a)) == placeholder;
    assert leaf == [placeholder];
    assert TopKeys(inner) == ["synced", "obsolete"] && TopKeys([(b, en)]) == [b];
    assert Without(["synced", "obsolete"], [b]) == ["synced", "obsolete"];
    var r := SyncEntries(once, source, "");
    assert r[0] == SyncEntry(once, source[0], "") == (a, Wrap(Synced([placeholder], ["synced", "obsolete"])));
  }

  /**
    The key paths of `{a: {synced: {b: v}, obsolete: [...]}}`: `a.synced.b`
    and `a.obsolete`, two distinct paths whatever the obsolete list holds.
   */
  lemma WrappedPaths(a: string, b: string, v: Value, obs: seq<string>)
    requires a != "" && !v.Obj?
    ensures GetAllKeys([(a, Wrap(Synced([(b, v)], obs)))], "") == [Join(Join(a, "synced"), b), Join(a, "obsolete")]
    ensures Join(Join(a, "synced"), b) != Join(a, "obsolete")
  {
    var k1 := Join(Join(a, "synced"), b);
    var k2 := Join(a, "obsolete");
    var rec := Wrap(Synced([(b, v)], obs));
    assert GetAllKeys([(a, rec)], "") == EntryKeys((a, rec), "") + GetAllKeys([], "");
    assert EntryKeys((a, rec), "") == GetAllKeys(rec.entries, a);
    assert EntryKeys(rec.entries[0], a) == GetAllKeys([(b, v)], Join(a, "synced")) == [k1];
    assert EntryKeys(rec.entries[1], a) == [k2];
    assert rec.entries[1..][1..] == [];
    assert GetAllKeys(rec.entries, a) == [k1] + ([k2] + GetAllKeys([], a));
    var s1 := a + "." + "synced";
    assert k1 == s1 + "." + b && k2 == a + "." + "obsolete";
    assert k1[|a| + 1] == s1[|a| + 1] == "synced"[0];
    assert k2[|a| + 1] == "obsolete"[0];
  }

  /**
    The file written by the first sync no longer has the path `a.b` of the
    translation, so the audit and the check report that English key missing.
   */
  lemma NestedSyncDropsPath(a: string, b: string, en: Value, tr: string)
    requires a != "" && !en.Obj? && IsKeptTranslation(Some(Str(tr))) && b != "obsolete"
    ensures var once := SyncKeys([(a, Obj([(b, Str(tr))]))], [(a, Obj([(b, en)]))], "").synced;
      Join(a, b) in GetAllKeys([(a, Obj([(b, en)]))], "") && Join(a, b) !in GetAllKeys(once, "")
  {
    NestedSyncWrapsRecord(a, b, en, tr);
    WrappedPaths(a, b, Str(tr), []);
    var source := [(a, Obj([(b, en)]))];
    assert GetAllKeys(source, "") == EntryKeys(source[0], "") + GetAllKeys([], "");
    assert EntryKeys(source[0], "") == GetAllKeys([(b, en)], a) == [Join(a, b)];
    var k1 := Join(Join(a, "synced"), b);
    assert |k1| > |Join(a, b)|;
    assert Join(a, b) != Join(a, "obsolete") by {
      assert (a + "." + b)[|a| + 1..] == b;
      assert (a + "." + "obsolete")[|a| + 1..] == "obsolete";
    }
  }

  /**
    The second sync of that file computes the placeholder and the obsolete
    `synced`, `obsolete` of `NestedSyncLosesTranslation` only in memory: the
    flattened count stays 2 and no top-level key is obsolete, so the file is
    not rewritten and keeps `tr` at `a.synced.b`.
   */
  lemma SecondRunNotWritten(a: string, b: string, en: Value, tr: string)
    requires a != "" && !en.Obj? && IsKeptTranslation(Some(Str(tr))) && b != "synced" && b != "obsolete"
    ensures var source := [(a, Obj([(b, en)]))];
      var once := SyncKeys([(a, Obj([(b, Str(tr))]))], source, "").synced;
      var p := SyncPair(source, once);
      p.added == 0 && p.removed == 0 && !Writes(p)
  {
    var source := [(a, Obj([(b, en)]))];
    NestedSyncWrapsRecord(a, b, en, tr);
    NestedSyncLosesTranslation(a, b, en, tr);
    var once := [(a, Wrap(Synced([(b, Str(tr))], [])))];
    var r := SyncKeys(once, source, "");
    var ph := Str(Placeholder(Join(a, b), ToText(en)));
    assert r.synced == [(a, Wrap(Synced([(b, ph)], ["synced", "obsolete"])))];
    WrappedPaths(a, b, Str(tr), []);
    WrappedPaths(a, b, ph, ["synced", "obsolete"]);
    FlatCountIsDistinctPaths(once);
    FlatCountIsDistinctPaths(r.synced);
    var k1 := Join(Join(a, "synced"), b);
    var k2 := Join(a, "obsolete");
    assert Elements([k1, k2]) == {k1, k2};
    assert TopKeys(once) == [a] && TopKeys(source) == [a];
    assert Without([a], [a]) == [];
  }
}
