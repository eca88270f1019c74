/**
  `scripts/i18n-generate-skeletons.mjs`: for every target language and every
  English file whose target file does not exist yet, write a copy of the
  English tree in which every leaf is replaced by a `[TRANSLATE: path] text`
  placeholder. Existing target files are never touched.
 */
module Skeletons {
  import opened Json
  import opened Seqs
  import opened KeyTree
  import opened Files
  import opened Audit

  /**
    `generateSkeleton(obj, prefix)`. The path written into a placeholder is
    `prefix + key`, and a nested object is visited with the prefix
    `prefix + key + "."` (plain concatenation, not the `Join` of the other scripts).
   */
  function Skeleton(es: Entries, prefix: string): (r: Entries)
    ensures |r| == |es| && forall i :: 0 <= i < |es| ==> r[i] == SkeletonEntry(es[i], prefix)
    decreases es
  {
    if es == [] then [] else [SkeletonEntry(es[0], prefix)] + Skeleton(es[1..], prefix)
  }

  /** One `[key, value]` entry of the loop: an object is walked into, anything else becomes a placeholder string. */
  function SkeletonEntry(e: Entry, prefix: string): (r: Entry)
    ensures r.0 == e.0 && (r.1.Obj? <==> e.1.Obj?) && (!e.1.Obj? ==> r.1.Str?)
    decreases e
  {
    if e.1.Obj? then (e.0, Obj(Skeleton(e.1.entries, prefix + e.0 + ".")))
    else (e.0, Str(Placeholder(prefix + e.0, ToText(e.1))))
  }

  /** The path a placeholder names for the leaf reached by `ks`, built as `generateSkeleton` builds it. */
  function SkelPath(prefix: string, ks: seq<string>): string
    decreases ks
  {
    if ks == [] then prefix
    else if |ks| == 1 then prefix + ks[0]
    else SkelPath(prefix + ks[0] + ".", ks[1..])
  }

  /** The leaf a skeleton has in place of leaf `l`. */
  function SkelLeaf(prefix: string, l: Leaf): Leaf
  {
    Leaf(l.keys, Str(Placeholder(SkelPath(prefix, l.keys), ToText(l.value))))
  }

  function SkelLeaves(prefix: string, ls: seq<Leaf>): (r: seq<Leaf>)
    ensures |r| == |ls| && forall i :: 0 <= i < |ls| ==> r[i] == SkelLeaf(prefix, ls[i])
  {
    seq(|ls|, i requires 0 <= i < |ls| => SkelLeaf(prefix, ls[i]))
  }

  lemma SkelLeavesAppend(prefix: string, a: seq<Leaf>, b: seq<Leaf>)
    ensures SkelLeaves(prefix, a + b) == SkelLeaves(prefix, a) + SkelLeaves(prefix, b)
  {
  }

  /** A child's skeleton leaves seen from the parent are the child's, under the parent's key. */
  lemma SkelLeavesUnder(prefix: string, k: string, ls: seq<Leaf>)
    requires forall i :: 0 <= i < |ls| ==> ls[i].keys != []
    ensures SkelLeaves(prefix, Under(k, ls)) == Under(k, SkelLeaves(prefix + k + ".", ls))
  {
    forall i | 0 <= i < |ls|
      ensures SkelPath(prefix, [k] + ls[i].keys) == SkelPath(prefix + k + ".", ls[i].keys)
    {
      assert ([k] + ls[i].keys)[1..] == ls[i].keys;
    }
  }

  /**
    The skeleton has the same leaves as the English tree, at the same key
    sequences and in the same order; each leaf's value is the placeholder
    naming its path and carrying the English text.
   */
  lemma {:induction false} SkeletonLeaves(es: Entries, prefix: string)
    ensures Leaves(Skeleton(es, prefix)) == SkelLeaves(prefix, Leaves(es))
    decreases es
  {
    if es != [] {
      var sk := Skeleton(es, prefix);
      assert sk[0] == SkeletonEntry(es[0], prefix);
      assert sk[1..] == Skeleton(es[1..], prefix);
      SkeletonEntryLeaves(es[0], prefix);
      SkeletonLeaves(es[1..], prefix);
      SkelLeavesAppend(prefix, EntryLeaves(es[0]), Leaves(es[1..]));
    }
  }

  lemma {:induction false} SkeletonEntryLeaves(e: Entry, prefix: string)
    ensures EntryLeaves(SkeletonEntry(e, prefix)) == SkelLeaves(prefix, EntryLeaves(e))
    decreases e
  {
    if e.1.Obj? {
      SkeletonLeaves(e.1.entries, prefix + e.0 + ".");
      SkelLeavesUnder(prefix, e.0, Leaves(e.1.entries));
    } else {
      assert SkelPath(prefix, [e.0]) == prefix + e.0;
    }
  }

  /** Below a non-empty prefix the skeleton's paths are the dotted paths of the other scripts. */
  lemma {:induction false} SkelPathBelow(q: string, ks: seq<string>)
    requires q != "" && ks != []
    ensures SkelPath(q + ".", ks) == DotPath(q, ks)
    decreases ks
  {
    assert Join(q, ks[0]) == q + "." + ks[0];
    if |ks| > 1 {
      SkelPathBelow(q + "." + ks[0], ks[1..]);
    } else {
      assert DotPath(Join(q, ks[0]), ks[1..]) == Join(q, ks[0]);
    }
  }

  /** From the root, a path whose first key is not empty is its dotted path. */
  lemma SkelPathDot(ks: seq<string>)
    requires ks != [] && ks[0] != ""
    ensures SkelPath("", ks) == DotPath("", ks)
  {
    assert Join("", ks[0]) == ks[0];
    if |ks| > 1 {
      assert "" + ks[0] + "." == ks[0] + ".";
      SkelPathBelow(ks[0], ks[1..]);
    } else {
      assert "" + ks[0] == ks[0];
      assert DotPath(Join("", ks[0]), ks[1..]) == ks[0];
    }
  }

  /**
    Leaf `i` of a generated skeleton is leaf `i` of the English tree with its
    value replaced by `[TRANSLATE: <dotted path>] <English text>`.
   */
  lemma SkeletonLeafValue(es: Entries, i: nat)
    requires i < |Leaves(es)| && Leaves(es)[i].keys[0] != ""
    ensures |Leaves(Skeleton(es, ""))| == |Leaves(es)|
    ensures Leaves(Skeleton(es, ""))[i]
      == Leaf(Leaves(es)[i].keys, Str(Placeholder(DotPath("", Leaves(es)[i].keys), ToText(Leaves(es)[i].value))))
  {
    SkeletonLeaves(es, "");
    SkelPathDot(Leaves(es)[i].keys);
  }

  /** The skeleton lists exactly the English tree's key paths, in order (whatever the prefix it was built with). */
  lemma {:induction false} SkeletonKeys(es: Entries, prefix: string, q: string)
    ensures GetAllKeys(Skeleton(es, prefix), q) == GetAllKeys(es, q)
    decreases es
  {
    if es != [] {
      var sk := Skeleton(es, prefix);
      assert sk[0] == SkeletonEntry(es[0], prefix);
      assert sk[1..] == Skeleton(es[1..], prefix);
      SkeletonEntryKeys(es[0], prefix, q);
      SkeletonKeys(es[1..], prefix, q);
    }
  }

  lemma {:induction false} SkeletonEntryKeys(e: Entry, prefix: string, q: string)
    ensures EntryKeys(SkeletonEntry(e, prefix), q) == EntryKeys(e, q)
    decreases e
  {
    if e.1.Obj? {
      SkeletonKeys(e.1.entries, prefix + e.0 + ".", Join(q, e.0));
    }
  }

  /** The audit finds every key of a fresh skeleton untranslated. */
  lemma {:induction false} SkeletonUntranslated(es: Entries, prefix: string, q: string)
    ensures FindUntranslated(Skeleton(es, prefix), q) == GetAllKeys(es, q)
    decreases es
  {
    if es != [] {
      var sk := Skeleton(es, prefix);
      assert sk[0] == SkeletonEntry(es[0], prefix);
      assert sk[1..] == Skeleton(es[1..], prefix);
      SkeletonEntryUntranslated(es[0], prefix, q);
      SkeletonUntranslated(es[1..], prefix, q);
    }
  }

  lemma {:induction false} SkeletonEntryUntranslated(e: Entry, prefix: string, q: string)
    ensures EntryUntranslated(SkeletonEntry(e, prefix), q) == EntryKeys(e, q)
    decreases e
  {
    if e.1.Obj? {
      SkeletonUntranslated(e.1.entries, prefix + e.0 + ".", Join(q, e.0));
    } else {
      PlaceholderIsMarked(prefix + e.0, ToText(e.1));
    }
  }

  /** The counters of the script and the locale directory it works on. */
  datatype GenState = GenState(fs: FileMap, created: nat, skipped: nat)

  /**
    One (language, file) step of the loop: an existing target (even one that
    does not parse) is skipped; otherwise the English file is read and parsed
    (which throws when it is missing or malformed) and its skeleton is written.
   */
  function GenerateOne(s: GenState, lang: string, file: string): Run<GenState>
  {
    if Exists(Read(s.fs, lang, file)) then Finished(s.(skipped := s.skipped + 1))
    else
      match Read(s.fs, SourceLang, file)
      case Tree(en) => Finished(GenState(s.fs[(lang, file) := Tree(Skeleton(en, ""))], s.created + 1, s.skipped))
      case _ => Crashed(SourceLang, file)
  }

  /** The inner loop over the English files for one target language. */
  function GenerateFiles(s: GenState, lang: string, files: seq<string>): Run<GenState>
    decreases files
  {
    if files == [] then Finished(s)
    else
      match GenerateOne(s, lang, files[0])
      case Crashed(l, f) => Crashed(l, f)
      case Finished(s1) => GenerateFiles(s1, lang, files[1..])
  }

  /** Go on with the remaining languages after a language's files are done. */
  function Then(r: Run<GenState>, langs: seq<string>, files: seq<string>): Run<GenState>
    decreases langs, 1
  {
    match r
    case Crashed(l, f) => Crashed(l, f)
    case Finished(s) => GenerateLangs(s, langs, files)
  }

  /** The outer loop over the target languages. */
  function GenerateLangs(s: GenState, langs: seq<string>, files: seq<string>): Run<GenState>
    decreases langs, 0
  {
    if langs == [] then Finished(s) else Then(GenerateFiles(s, langs[0], files), langs[1..], files)
  }

  /** The inner loop: the English files for one target language. */
  method GenerateForLang(s0: GenState, lang: string, enFiles: seq<string>) returns (r: Run<GenState>)
    ensures r == GenerateFiles(s0, lang, enFiles)
  {
    var s := s0;
    var j := 0;
    while j < |enFiles|
      invariant 0 <= j <= |enFiles|
      invariant GenerateFiles(s, lang, enFiles[j..]) == GenerateFiles(s0, lang, enFiles)
    {
      var file := enFiles[j];
      assert enFiles[j..][1..] == enFiles[j + 1..];
      if Exists(Read(s.fs, lang, file)) {
        s := s.(skipped := s.skipped + 1);
      } else {
        var en := Read(s.fs, SourceLang, file);
        if !en.Tree? {
          return Crashed(SourceLang, file);
        }
        var skeleton := Skeleton(en.entries, "");
        s := GenState(s.fs[(lang, file) := Tree(skeleton)], s.created + 1, s.skipped);
      }
      j := j + 1;
    }
    assert enFiles[j..] == [];
    r := Finished(s);
  }

  /** The script's two loops over the file map `fs` and the listed English files. */
  method GenerateSkeletons(fs: FileMap, enFiles: seq<string>) returns (run: Run<GenState>)
    ensures run == GenerateLangs(GenState(fs, 0, 0), TargetLangs, enFiles)
  {
    var s := GenState(fs, 0, 0);
    var i := 0;
    while i < |TargetLangs|
      invariant 0 <= i <= |TargetLangs|
      invariant GenerateLangs(s, TargetLangs[i..], enFiles) == GenerateLangs(GenState(fs, 0, 0), TargetLangs, enFiles)
    {
      assert TargetLangs[i..][1..] == TargetLangs[i + 1..];
      var r := GenerateForLang(s, TargetLangs[i], enFiles);
      if r.Crashed? {
        return r;
      }
      s := r.value;
      i := i + 1;
    }
    assert TargetLangs[i..] == [];
    run := Finished(s);
  }

  /** The target file `lang/file` is missing and the English file it would be made from cannot be parsed. */
  predicate Stuck(fs: FileMap, lang: string, file: string)
  {
    !Exists(Read(fs, lang, file)) && !Read(fs, SourceLang, file).Tree?
  }

  /**
    How the file map after a run relates to the map before it: a file that
    changed is a target file of the run that did not exist, and it now holds
    the skeleton of its English file.
   */
  ghost predicate OnlyCreates(fs0: FileMap, fs1: FileMap, langs: seq<string>, files: seq<string>)
  {
    forall l, f :: Read(fs1, l, f) != Read(fs0, l, f) ==>
      l in langs && f in files && !Exists(Read(fs0, l, f)) && Read(fs0, SourceLang, f).Tree?
      && Read(fs1, l, f) == Tree(Skeleton(Read(fs0, SourceLang, f).entries, ""))
  }

  lemma NoSource(langs: seq<string>)
    requires AllTargets(langs)
    ensures SourceLang !in langs
  {
    forall j | 0 <= j < |langs| ensures langs[j] != SourceLang {
      assert langs[j] in TargetLangs;
    }
  }

  /** Creating only target files keeps every `Stuck` pair stuck and every other pair unstuck. */
  lemma StuckKept(fs0: FileMap, fs1: FileMap, langs: seq<string>, files: seq<string>, l: string, f: string)
    requires OnlyCreates(fs0, fs1, langs, files) && AllTargets(langs)
    ensures Stuck(fs1, l, f) == Stuck(fs0, l, f)
  {
    NoSource(langs);
  }

  /** An existing file is never overwritten. */
  lemma ExistingKept(fs0: FileMap, fs1: FileMap, langs: seq<string>, files: seq<string>, l: string, f: string)
    requires OnlyCreates(fs0, fs1, langs, files) && Exists(Read(fs0, l, f))
    ensures Read(fs1, l, f) == Read(fs0, l, f)
  {
  }

  lemma OnlyCreatesRefl(fs: FileMap, langs: seq<string>, files: seq<string>)
    ensures OnlyCreates(fs, fs, langs, files)
  {
  }

  /** Two runs in a row, the first over target languages, create only what either could. */
  lemma OnlyCreatesTrans(fs0: FileMap, fs1: FileMap, fs2: FileMap, l1: seq<string>, f1: seq<string>, l2: seq<string>, f2: seq<string>)
    requires OnlyCreates(fs0, fs1, l1, f1) && OnlyCreates(fs1, fs2, l2, f2) && AllTargets(l1)
    ensures OnlyCreates(fs0, fs2, l1 + l2, f1 + f2)
  {
    forall l, f | Read(fs2, l, f) != Read(fs0, l, f)
      ensures l in l1 + l2 && f in f1 + f2 && !Exists(Read(fs0, l, f)) && Read(fs0, SourceLang, f).Tree?
        && Read(fs2, l, f) == Tree(Skeleton(Read(fs0, SourceLang, f).entries, ""))
    {
      NoSource(l1);
      assert Read(fs1, SourceLang, f) == Read(fs0, SourceLang, f);
    }
  }

  /** One step: it crashes exactly on a stuck pair, counts the pair once, and creates at most that file. */
  lemma GenerateOneFacts(s: GenState, lang: string, file: string)
    requires lang in TargetLangs
    ensures GenerateOne(s, lang, file).Crashed? <==> Stuck(s.fs, lang, file)
    ensures GenerateOne(s, lang, file).Finished? ==>
      var s1 := GenerateOne(s, lang, file).value;
      s1.created + s1.skipped == s.created + s.skipped + 1
      && OnlyCreates(s.fs, s1.fs, [lang], [file]) && Exists(Read(s1.fs, lang, file))
  {
  }

  /**
    One language: the loop crashes exactly when one of its files is stuck;
    when it finishes, every file has been counted once as created or skipped,
    and only missing files were created.
   */
  lemma {:induction false} GenerateFilesFacts(s: GenState, lang: string, files: seq<string>)
    requires lang in TargetLangs
    ensures GenerateFiles(s, lang, files).Crashed? <==> exists k :: 0 <= k < |files| && Stuck(s.fs, lang, files[k])
    ensures GenerateFiles(s, lang, files).Finished? ==>
      var s1 := GenerateFiles(s, lang, files).value;
      s1.created + s1.skipped == s.created + s.skipped + |files| && OnlyCreates(s.fs, s1.fs, [lang], files)
    decreases files
  {
    if files == [] {
      OnlyCreatesRefl(s.fs, [lang], files);
    } else {
      GenerateOneFacts(s, lang, files[0]);
      if GenerateOne(s, lang, files[0]).Finished? {
        var s1 := GenerateOne(s, lang, files[0]).value;
        GenerateFilesFacts(s1, lang, files[1..]);
        assert AllTargets([lang]);
        forall k | 1 <= k < |files| ensures Stuck(s1.fs, lang, files[k]) == Stuck(s.fs, lang, files[k]) {
          StuckKept(s.fs, s1.fs, [lang], [files[0]], lang, files[k]);
        }
        if GenerateFiles(s1, lang, files[1..]).Crashed? {
          var k :| 0 <= k < |files[1..]| && Stuck(s1.fs, lang, files[1..][k]);
          assert files[1..][k] == files[k + 1];
        } else {
          forall k | 0 <= k < |files| ensures !Stuck(s.fs, lang, files[k]) {
            if k > 0 { assert files[1..][k - 1] == files[k]; }
          }
          var s2 := GenerateFiles(s1, lang, files[1..]).value;
          OnlyCreatesTrans(s.fs, s1.fs, s2.fs, [lang], [files[0]], [lang], files[1..]);
          assert [files[0]] + files[1..] == files;
          forall l | l in [lang] + [lang] ensures l in [lang] {}
          assert OnlyCreates(s.fs, s2.fs, [lang], files);
        }
      }
    }
  }

  /**
    The whole run over target languages: it crashes exactly when some
    (language, file) pair is stuck in the original map; when it finishes,
    every pair has been counted once as created or skipped, and only missing
    target files were created, each as the skeleton of its English file.
   */
  lemma {:induction false} GenerateLangsFacts(s: GenState, langs: seq<string>, files: seq<string>)
    requires AllTargets(langs)
    ensures GenerateLangs(s, langs, files).Crashed? <==>
      exists j, k :: 0 <= j < |langs| && 0 <= k < |files| && Stuck(s.fs, langs[j], files[k])
    ensures GenerateLangs(s, langs, files).Finished? ==>
      var s1 := GenerateLangs(s, langs, files).value;
      s1.created + s1.skipped == s.created + s.skipped + |files| * |langs| && OnlyCreates(s.fs, s1.fs, langs, files)
    decreases langs
  {
    if langs == [] {
      OnlyCreatesRefl(s.fs, langs, files);
    } else {
      var lang := langs[0];
      assert lang in TargetLangs;
      GenerateFilesFacts(s, lang, files);
      assert AllTargets(langs[1..]) by {
        forall j | 0 <= j < |langs[1..]| ensures langs[1..][j] in TargetLangs { assert langs[1..][j] == langs[j + 1]; }
      }
      if GenerateFiles(s, lang, files).Crashed? {
        var k :| 0 <= k < |files| && Stuck(s.fs, lang, files[k]);
        assert Stuck(s.fs, langs[0], files[k]);
      } else {
        var s1 := GenerateFiles(s, lang, files).value;
        GenerateLangsFacts(s1, langs[1..], files);
        assert AllTargets([lang]);
        forall j, k | 0 <= j < |langs| && 0 <= k < |files| && j > 0
          ensures Stuck(s1.fs, langs[1..][j - 1], files[k]) == Stuck(s.fs, langs[j], files[k])
        {
          assert langs[1..][j - 1] == langs[j];
          StuckKept(s.fs, s1.fs, [lang], files, langs[j], files[k]);
        }
        if GenerateLangs(s1, langs[1..], files).Crashed? {
          var j, k :| 0 <= j < |langs[1..]| && 0 <= k < |files| && Stuck(s1.fs, langs[1..][j], files[k]);
          assert Stuck(s.fs, langs[j + 1], files[k]);
        } else {
          forall j, k | 0 <= j < |langs| && 0 <= k < |files| ensures !Stuck(s.fs, langs[j], files[k]) {
            if j > 0 { assert !Stuck(s1.fs, langs[1..][j - 1], files[k]); }
          }
          var s2 := GenerateLangs(s1, langs[1..], files).value;
          MulSucc(|files|, |langs| - 1);
          OnlyCreatesTrans(s.fs, s1.fs, s2.fs, [lang], files, langs[1..], files);
          assert [lang] + langs[1..] == langs;
          forall f | f in files + files ensures f in files {}
          assert OnlyCreates(s.fs, s2.fs, langs, files);
        }
      }
    }
  }

  /** Every target file of the run exists. */
  ghost predicate AllExist(fs: FileMap, langs: seq<string>, files: seq<string>)
  {
    forall j, k :: 0 <= j < |langs| && 0 <= k < |files| ==> Exists(Read(fs, langs[j], files[k]))
  }

  /** After a finished loop over one language's files, each of them exists. */
  lemma {:induction false} GenerateFilesCovers(s: GenState, lang: string, files: seq<string>)
    requires lang in TargetLangs
    ensures GenerateFiles(s, lang, files).Finished? ==> AllExist(GenerateFiles(s, lang, files).value.fs, [lang], files)
    decreases files
  {
    if files != [] {
      GenerateOneFacts(s, lang, files[0]);
      if GenerateOne(s, lang, files[0]).Finished? {
        var s1 := GenerateOne(s, lang, files[0]).value;
        GenerateFilesCovers(s1, lang, files[1..]);
        GenerateFilesFacts(s1, lang, files[1..]);
        if GenerateFiles(s1, lang, files[1..]).Finished? {
          var s2 := GenerateFiles(s1, lang, files[1..]).value;
          forall j, k | 0 <= j < 1 && 0 <= k < |files| ensures Exists(Read(s2.fs, [lang][j], files[k])) {
            if k == 0 {
              ExistingKept(s1.fs, s2.fs, [lang], files[1..], lang, files[0]);
            } else {
              assert files[1..][k - 1] == files[k];
            }
          }
        }
      }
    }
  }

  /**
    After a finished run every target file exists: the created ones hold a
    skeleton and the skipped ones are as they were.
   */
  lemma {:induction false} GenerateLangsCovers(s: GenState, langs: seq<string>, files: seq<string>)
    requires AllTargets(langs)
    ensures GenerateLangs(s, langs, files).Finished? ==> AllExist(GenerateLangs(s, langs, files).value.fs, langs, files)
    decreases langs
  {
    if langs != [] {
      assert langs[0] in TargetLangs;
      assert AllTargets(langs[1..]) by {
        forall j | 0 <= j < |langs[1..]| ensures langs[1..][j] in TargetLangs { assert langs[1..][j] == langs[j + 1]; }
      }
      GenerateFilesCovers(s, langs[0], files);
      if GenerateFiles(s, langs[0], files).Finished? {
        var s1 := GenerateFiles(s, langs[0], files).value;
        GenerateLangsCovers(s1, langs[1..], files);
        GenerateLangsFacts(s1, langs[1..], files);
        if GenerateLangs(s1, langs[1..], files).Finished? {
          var s2 := GenerateLangs(s1, langs[1..], files).value;
          forall j, k | 0 <= j < |langs| && 0 <= k < |files| ensures Exists(Read(s2.fs, langs[j], files[k])) {
            if j == 0 {
              assert Exists(Read(s1.fs, [langs[0]][0], files[k]));
              ExistingKept(s1.fs, s2.fs, langs[1..], files, langs[0], files[k]);
            } else {
              assert langs[1..][j - 1] == langs[j];
            }
          }
        }
      }
    }
  }
}
