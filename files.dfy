/**
  The locale directory as the scripts see it: one JSON document per
  (language, file name), which is missing, fails to parse, or parses to an
  object. Reading and writing files become operations on this map.
 */
module Files {
  import opened Json

  datatype FileState = Absent | ParseError | Tree(entries: Entries)

  /** Keyed by (language directory, file name such as "nav.json"). */
  type FileMap = map<(string, string), FileState>

  function Read(fs: FileMap, lang: string, file: string): FileState
  {
    if (lang, file) in fs then fs[(lang, file)] else Absent
  }

  /** `fs.existsSync(path)`: a file that fails to parse still exists. */
  predicate Exists(st: FileState)
  {
    !st.Absent?
  }

  const SourceLang := "en"

  /** `REQUIRED_LANGS` of the audit, `TARGET_LANGS` of the report, the sync and the skeleton generator. */
  const TargetLangs := ["ar", "es", "fr", "de", "ru"]

  /** Every language of the list is a target language (never the English source). */
  predicate AllTargets(langs: seq<string>)
  {
    forall j :: 0 <= j < |langs| ==> langs[j] in TargetLangs
  }

  /**
    How a script run ends: it finishes with its totals, or an unguarded
    `JSON.parse` / `readFileSync` throws on the file `lang/file` and Node
    stops it with exit status 1.
   */
  datatype Run<T> = Crashed(lang: string, file: string) | Finished(value: T)
}
