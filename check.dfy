/**
  `scripts/i18n-check.ts`: the deployment gate. For every namespace, the
  English reference file is read and its key paths are listed by `keysOf`;
  every language (English included) must have the namespace's file, and that
  file must contain every reference path. Any miss sets `failed`, and a run
  that ends with `failed` set exits with status 1.
 */
module Check {
  import opened Json
  import opened Seqs
  import opened Files
  import opened Audit
  import opened Skeletons

  /** `LANGS`: the English reference is checked against itself as well. */
  const Langs := ["en", "ar", "es", "fr", "de", "ru"]

  /** `NAMESPACES`. */
  const Namespaces := ["nav", "actions", "kpis", "tooltips", "errors", "hero", "links", "sales", "finance", "crm", "inventory", "support", "marketing"]

  /** The file of a namespace, `${ns}.json`. */
  function FileOf(ns: string): string
  {
    ns + ".json"
  }

  /**
    `keysOf(obj, prefix)`: unlike `getAllKeys` it walks into every non-null
    object, arrays included, whose entries are their indices.
   */
  function KeysOf(es: Entries, prefix: string): seq<string>
    decreases es
  {
    if es == [] then [] else EntryKeysOf(es[0], prefix) + KeysOf(es[1..], prefix)
  }

  /** One `[k, v]` entry of the `flatMap`. */
  function EntryKeysOf(e: Entry, prefix: string): seq<string>
    decreases e
  {
    ValueKeysOf(e.1, Join(prefix, e.0))
  }

  /** `typeof v === 'object' && v !== null ? keysOf(v, key) : [key]`. */
  function ValueKeysOf(v: Value, key: string): seq<string>
    decreases v
  {
    match v
    case Obj(es) => KeysOf(es, key)
    case Arr(xs) => ItemKeysOf(xs, key, 0)
    case _ => [key]
  }

  /** The entries of an array from index `n` on, `Object.entries(xs).slice(n)`. */
  function ItemKeysOf(xs: seq<Value>, key: string, n: nat): seq<string>
    decreases xs
  {
    if xs == [] then [] else ValueKeysOf(xs[0], Join(key, NatText(n))) + ItemKeysOf(xs[1..], key, n + 1)
  }

  /** Walking an array is walking the object of its index entries, as `Object.entries` presents it. */
  lemma {:induction false} ItemKeysAreEntries(xs: seq<Value>, key: string, n: nat)
    requires n <= |xs|
    ensures ItemKeysOf(xs[n..], key, n) == KeysOf(AsTarget(Arr(xs))[n..], key)
    decreases |xs| - n
  {
    var es := AsTarget(Arr(xs));
    if n < |xs| {
      ItemKeysAreEntries(xs, key, n + 1);
      assert xs[n..][0] == xs[n] && xs[n..][1..] == xs[n + 1..];
      assert es[n..][0] == (NatText(n), xs[n]) && es[n..][1..] == es[n + 1..];
    } else {
      assert es[n..] == [];
    }
  }

  lemma ArrayKeysAreEntries(xs: seq<Value>, key: string)
    ensures ValueKeysOf(Arr(xs), key) == KeysOf(AsTarget(Arr(xs)), key)
  {
    ItemKeysAreEntries(xs, key, 0);
    assert xs[0..] == xs && AsTarget(Arr(xs))[0..] == AsTarget(Arr(xs));
  }

  /** A tree with no array at any depth. */
  predicate NoArrays(es: Entries)
    decreases es
  {
    es == [] || (EntryNoArrays(es[0]) && NoArrays(es[1..]))
  }

  predicate EntryNoArrays(e: Entry)
    decreases e
  {
    !e.1.Arr? && (e.1.Obj? ==> NoArrays(e.1.entries))
  }

  /** Without arrays, `keysOf` lists the same paths in the same order as the audit's `getAllKeys`. */
  lemma {:induction false} KeysOfNoArrays(es: Entries, prefix: string)
    requires NoArrays(es)
    ensures KeysOf(es, prefix) == GetAllKeys(es, prefix)
    decreases es
  {
    if es != [] {
      EntryKeysOfNoArrays(es[0], prefix);
      KeysOfNoArrays(es[1..], prefix);
    }
  }

  lemma {:induction false} EntryKeysOfNoArrays(e: Entry, prefix: string)
    requires EntryNoArrays(e)
    ensures EntryKeysOf(e, prefix) == EntryKeys(e, prefix)
    decreases e
  {
    if e.1.Obj? {
      KeysOfNoArrays(e.1.entries, Join(prefix, e.0));
    }
  }

  /**
    Where the two listings part: a one-element array of a plain value is the
    single path `k.0` for `keysOf` and the path `k` for `getAllKeys`.
   */
  lemma ArrayIndexPaths(k: string, v: Value)
    requires k != "" && !v.Obj? && !v.Arr?
    ensures KeysOf([(k, Arr([v]))], "") == [k + ".0"]
    ensures GetAllKeys([(k, Arr([v]))], "") == [k]
  {
    var es := [(k, Arr([v]))];
    assert es[1..] == [];
    assert Join("", k) == k;
    assert NatText(0) == "0";
    assert Join(k, NatText(0)) == k + ".0";
    assert [v][1..] == [];
    assert ItemKeysOf([v], k, 0) == [k + ".0"] + ItemKeysOf([], k, 1);
    assert EntryKeysOf(es[0], "") == [k + ".0"];
    assert KeysOf(es, "") == EntryKeysOf(es[0], "") + KeysOf([], "");
    assert GetAllKeys(es, "") == EntryKeys(es[0], "") + GetAllKeys([], "");
  }

  /** An empty array contributes nothing to `keysOf`, and is a leaf for `getAllKeys`. */
  lemma EmptyArrayPaths(k: string)
    ensures KeysOf([(k, Arr([]))], "") == []
    ensures GetAllKeys([(k, Arr([]))], "") == [Join("", k)]
  {
    var es := [(k, Arr([]))];
    assert es[1..] == [];
    assert ItemKeysOf([], Join("", k), 0) == [];
    assert EntryKeysOf(es[0], "") == [];
    assert KeysOf(es, "") == EntryKeysOf(es[0], "") + KeysOf([], "");
    assert EntryKeys(es[0], "") == [Join("", k)];
    assert GetAllKeys(es, "") == EntryKeys(es[0], "") + GetAllKeys([], "");
  }

  /** A generated skeleton holds no arrays: they became placeholder strings. */
  lemma {:induction false} SkeletonNoArrays(es: Entries, prefix: string)
    ensures NoArrays(Skeleton(es, prefix))
    decreases es
  {
    if es != [] {
      var sk := Skeleton(es, prefix);
      assert sk[0] == SkeletonEntry(es[0], prefix);
      assert sk[1..] == Skeleton(es[1..], prefix);
      SkeletonEntryNoArrays(es[0], prefix);
      SkeletonNoArrays(es[1..], prefix);
    }
  }

  lemma {:induction false} SkeletonEntryNoArrays(e: Entry, prefix: string)
    ensures EntryNoArrays(SkeletonEntry(e, prefix))
    decreases e
  {
    if e.1.Obj? {
      SkeletonNoArrays(e.1.entries, prefix + e.0 + ".");
    }
  }

  /** For a reference without arrays, a freshly generated skeleton has exactly the reference's paths. */
  lemma SkeletonPassesCheck(ref: Entries)
    requires NoArrays(ref)
    ensures KeysOf(Skeleton(ref, ""), "") == KeysOf(ref, "")
  {
    SkeletonNoArrays(ref, "");
    KeysOfNoArrays(Skeleton(ref, ""), "");
    SkeletonKeys(ref, "", "");
    KeysOfNoArrays(ref, "");
  }

  /** Some reference path is not among a file's paths (`!keys.includes(k)` for some `k`). */
  predicate MissingKey(refKeys: seq<string>, keys: seq<string>)
  {
    exists k :: k in refKeys && k !in keys
  }

  /** A language fails the namespace: its file is missing, or it parses and lacks a reference path. */
  predicate LangFails(fs: FileMap, refKeys: seq<string>, file: string, lang: string)
  {
    match Read(fs, lang, file)
    case Absent => true
    case ParseError => false
    case Tree(d) => MissingKey(refKeys, KeysOf(d, ""))
  }

  /** The inner loop over the languages for one reference, with `failed` as it stood before it. */
  function CheckLangs(fs: FileMap, refKeys: seq<string>, file: string, langs: seq<string>, failed: bool): Run<bool>
    decreases langs
  {
    if langs == [] then Finished(failed)
    else
      match Read(fs, langs[0], file)
      case Absent => CheckLangs(fs, refKeys, file, langs[1..], true)
      case ParseError => Crashed(langs[0], file)
      case Tree(d) => CheckLangs(fs, refKeys, file, langs[1..], failed || MissingKey(refKeys, KeysOf(d, "")))
  }

  /** One namespace: a missing reference fails the run and skips every language. */
  function CheckNamespace(fs: FileMap, ns: string, langs: seq<string>, failed: bool): Run<bool>
  {
    match Read(fs, SourceLang, FileOf(ns))
    case Absent => Finished(true)
    case ParseError => Crashed(SourceLang, FileOf(ns))
    case Tree(ref) => CheckLangs(fs, KeysOf(ref, ""), FileOf(ns), langs, failed)
  }

  /** The outer loop over the namespaces. */
  function CheckNamespaces(fs: FileMap, nss: seq<string>, langs: seq<string>, failed: bool): Run<bool>
    decreases nss
  {
    if nss == [] then Finished(failed)
    else
      match CheckNamespace(fs, nss[0], langs, failed)
      case Crashed(l, f) => Crashed(l, f)
      case Finished(b) => CheckNamespaces(fs, nss[1..], langs, b)
  }

  /** The exit status: 1 after a crash or when `failed` is set, 0 otherwise. */
  function CheckExit(run: Run<bool>): (status: int)
    ensures status == 1 <==> run.Crashed? || run.value
    ensures status == 0 <==> run.Finished? && !run.value
  {
    if run.Crashed? || run.value then 1 else 0
  }

  /** `for (const k of refKeys) if (!keys.includes(k)) failed = true`, reporting whether it fired. */
  method FindMissing(refKeys: seq<string>, keys: seq<string>) returns (missing: bool)
    ensures missing == MissingKey(refKeys, keys)
  {
    missing := false;
    var m := 0;
    while m < |refKeys|
      invariant 0 <= m <= |refKeys|
      invariant missing <==> exists t :: 0 <= t < m && refKeys[t] !in keys
    {
      if refKeys[m] !in keys {
        missing := true;
      }
      m := m + 1;
    }
    if MissingKey(refKeys, keys) {
      var k :| k in refKeys && k !in keys;
      var t :| 0 <= t < |refKeys| && refKeys[t] == k;
    }
  }

  /** One namespace: read the reference, then the languages loop. */
  method CheckOneNamespace(fs: FileMap, ns: string, failed0: bool) returns (r: Run<bool>)
    ensures r == CheckNamespace(fs, ns, Langs, failed0)
  {
    var file := FileOf(ns);
    var ref := Read(fs, SourceLang, file);
    if ref.Absent? {
      return Finished(true);
    } else if ref.ParseError? {
      return Crashed(SourceLang, file);
    }
    var refKeys := KeysOf(ref.entries, "");
    var failed := failed0;
    var j := 0;
    while j < |Langs|
      invariant 0 <= j <= |Langs|
      invariant CheckLangs(fs, refKeys, file, Langs[j..], failed) == CheckLangs(fs, refKeys, file, Langs, failed0)
    {
      assert Langs[j..][1..] == Langs[j + 1..];
      var data := Read(fs, Langs[j], file);
      if data.Absent? {
        failed := true;
      } else if data.ParseError? {
        return Crashed(Langs[j], file);
      } else {
        var keys := KeysOf(data.entries, "");
        var missing := FindMissing(refKeys, keys);
        if missing {
          failed := true;
        }
      }
      j := j + 1;
    }
    assert Langs[j..] == [];
    r := Finished(failed);
  }

  /** The namespaces loop over the list `nss`. */
  method CheckAll(fs: FileMap, nss: seq<string>) returns (run: Run<bool>)
    ensures run == CheckNamespaces(fs, nss, Langs, false)
    ensures run.Crashed? <==> exists i :: 0 <= i < |nss| && NamespaceCrashes(fs, nss[i], Langs)
    ensures run.Finished? ==> (CheckExit(run) == 1 <==> exists i :: 0 <= i < |nss| && NamespaceFails(fs, nss[i], Langs))
  {
    CheckNamespacesFacts(fs, nss, Langs, false);
    var failed := false;
    var i := 0;
    while i < |nss|
      invariant 0 <= i <= |nss|
      invariant CheckNamespaces(fs, nss[i..], Langs, failed) == CheckNamespaces(fs, nss, Langs, false)
    {
      assert nss[i..][1..] == nss[i + 1..];
      var r := CheckOneNamespace(fs, nss[i], failed);
      if r.Crashed? {
        return r;
      }
      failed := r.value;
      i := i + 1;
    }
    assert nss[i..] == [];
    run := Finished(failed);
  }

  /** The whole script over the file map `fs`; it returns how the run ends and its exit status. */
  method RunCheck(fs: FileMap) returns (run: Run<bool>, status: int)
    ensures run == CheckNamespaces(fs, Namespaces, Langs, false)
    ensures status == CheckExit(run)
  {
    run := CheckAll(fs, Namespaces);
    status := if run.Crashed? || run.value then 1 else 0;
  }

  /**
    The languages loop crashes exactly on a language file that fails to parse;
    when it finishes, `failed` is set exactly when it was set before or some
    language fails.
   */
  lemma {:induction false} CheckLangsFacts(fs: FileMap, refKeys: seq<string>, file: string, langs: seq<string>, failed: bool)
    ensures CheckLangs(fs, refKeys, file, langs, failed).Crashed? <==>
      exists j :: 0 <= j < |langs| && Read(fs, langs[j], file).ParseError?
    ensures CheckLangs(fs, refKeys, file, langs, failed).Finished? ==>
      (CheckLangs(fs, refKeys, file, langs, failed).value <==>
        failed || exists j :: 0 <= j < |langs| && LangFails(fs, refKeys, file, langs[j]))
    decreases langs
  {
    if langs != [] {
      var d := Read(fs, langs[0], file);
      var next := if d.Absent? then true else if d.Tree? then failed || MissingKey(refKeys, KeysOf(d.entries, "")) else failed;
      CheckLangsFacts(fs, refKeys, file, langs[1..], next);
      forall j | 0 <= j < |langs[1..]| ensures langs[1..][j] == langs[j + 1] {}
      if d.ParseError? {
        assert Read(fs, langs[0], file).ParseError?;
      } else if CheckLangs(fs, refKeys, file, langs[1..], next).Crashed? {
        var j :| 0 <= j < |langs[1..]| && Read(fs, langs[1..][j], file).ParseError?;
        assert Read(fs, langs[j + 1], file).ParseError?;
      } else {
        assert (failed || LangFails(fs, refKeys, file, langs[0])) <==> next;
        if exists j :: 0 <= j < |langs| && LangFails(fs, refKeys, file, langs[j]) {
          var j :| 0 <= j < |langs| && LangFails(fs, refKeys, file, langs[j]);
          if j > 0 { assert LangFails(fs, refKeys, file, langs[1..][j - 1]); }
        }
      }
    }
  }

  /** A namespace's reference is missing, or it parses and some language fails it. */
  predicate NamespaceFails(fs: FileMap, ns: string, langs: seq<string>)
  {
    match Read(fs, SourceLang, FileOf(ns))
    case Absent => true
    case ParseError => false
    case Tree(ref) => exists j :: 0 <= j < |langs| && LangFails(fs, KeysOf(ref, ""), FileOf(ns), langs[j])
  }

  /** A namespace's reference fails to parse, or it parses and some language file of the namespace does not. */
  predicate NamespaceCrashes(fs: FileMap, ns: string, langs: seq<string>)
  {
    match Read(fs, SourceLang, FileOf(ns))
    case Absent => false
    case ParseError => true
    case Tree(_) => exists j :: 0 <= j < |langs| && Read(fs, langs[j], FileOf(ns)).ParseError?
  }

  /**
    The run crashes exactly when some namespace crashes; when it finishes,
    `failed` is set exactly when some namespace has a missing reference, a
    missing language file, or a language file that lacks a reference path.
   */
  lemma {:induction false} CheckNamespacesFacts(fs: FileMap, nss: seq<string>, langs: seq<string>, failed: bool)
    ensures CheckNamespaces(fs, nss, langs, failed).Crashed? <==>
      exists i :: 0 <= i < |nss| && NamespaceCrashes(fs, nss[i], langs)
    ensures CheckNamespaces(fs, nss, langs, failed).Finished? ==>
      (CheckNamespaces(fs, nss, langs, failed).value <==>
        failed || exists i :: 0 <= i < |nss| && NamespaceFails(fs, nss[i], langs))
    decreases nss
  {
    if nss != [] {
      CheckNamespaceFacts(fs, nss[0], langs, failed);
      forall i | 0 <= i < |nss[1..]| ensures nss[1..][i] == nss[i + 1] {}
      var step := CheckNamespace(fs, nss[0], langs, failed);
      if step.Finished? {
        CheckNamespacesFacts(fs, nss[1..], langs, step.value);
        if CheckNamespaces(fs, nss[1..], langs, step.value).Crashed? {
          var i :| 0 <= i < |nss[1..]| && NamespaceCrashes(fs, nss[1..][i], langs);
          assert NamespaceCrashes(fs, nss[i + 1], langs);
        }
        if exists i :: 0 <= i < |nss| && NamespaceCrashes(fs, nss[i], langs) {
          var i :| 0 <= i < |nss| && NamespaceCrashes(fs, nss[i], langs);
          assert i > 0 && NamespaceCrashes(fs, nss[1..][i - 1], langs);
        }
        if exists i :: 0 <= i < |nss| && NamespaceFails(fs, nss[i], langs) {
          var i :| 0 <= i < |nss| && NamespaceFails(fs, nss[i], langs);
          if i > 0 { assert NamespaceFails(fs, nss[1..][i - 1], langs); }
        }
      } else {
        assert NamespaceCrashes(fs, nss[0], langs);
      }
    }
  }

  /** One namespace crashes exactly when `NamespaceCrashes`, and otherwise sets `failed` exactly when it fails. */
  lemma CheckNamespaceFacts(fs: FileMap, ns: string, langs: seq<string>, failed: bool)
    ensures CheckNamespace(fs, ns, langs, failed).Crashed? <==> NamespaceCrashes(fs, ns, langs)
    ensures CheckNamespace(fs, ns, langs, failed).Finished? ==>
      (CheckNamespace(fs, ns, langs, failed).value <==> failed || NamespaceFails(fs, ns, langs))
  {
    var ref := Read(fs, SourceLang, FileOf(ns));
    if ref.Tree? {
      CheckLangsFacts(fs, KeysOf(ref.entries, ""), FileOf(ns), langs, failed);
    }
  }

  /** Comparing the reference with itself never finds a missing path. */
  lemma SelfCheckPasses(fs: FileMap, file: string)
    requires Read(fs, SourceLang, file).Tree?
    ensures !LangFails(fs, KeysOf(Read(fs, SourceLang, file).entries, ""), file, SourceLang)
  {
  }

  /**
    Only missing paths fail a language: a file that has all the reference's
    paths passes, whatever extra paths it has and whatever its values are
    (placeholders included).
   */
  lemma ExtrasNeverFail(fs: FileMap, refKeys: seq<string>, file: string, lang: string)
    requires Read(fs, lang, file).Tree?
    requires forall k :: k in refKeys ==> k in KeysOf(Read(fs, lang, file).entries, "")
    ensures !LangFails(fs, refKeys, file, lang)
  {
  }
}
