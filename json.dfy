/**
  JSON values as the locale scripts see them once `JSON.parse` has run, and the
  few JavaScript value operations the scripts rely on: `Object.keys`, property
  lookup `obj[key]`, the truthiness and `typeof` tests, `String.prototype.includes`
  and the text a value takes inside a template literal.
 */
module Json {

  datatype Option<T> = None | Some(value: T)

  /** A parsed JSON value. `Obj` keeps its entries in `Object.entries` order. */
  datatype Value =
    | Str(s: string)
    /** A number, held as its text in the JSON file (not JavaScript's own formatting of it). */
    | Num(text: string)
    | Bool(b: bool)
    | Null
    | Arr(items: seq<Value>)
    | Obj(entries: seq<(string, Value)>)

  type Entry = (string, Value)
  type Entries = seq<Entry>

  /** The dotted path of a child: `prefix ? `${prefix}.${key}` : key`. */
  function Join(prefix: string, key: string): string
  {
    if prefix == "" then key else prefix + "." + key
  }

  /** `Object.keys(obj)`, in entry order. */
  function TopKeys(es: Entries): (ks: seq<string>)
    ensures |ks| == |es|
    ensures forall i :: 0 <= i < |es| ==> ks[i] == es[i].0
  {
    if es == [] then [] else [es[0].0] + TopKeys(es[1..])
  }

  /** `obj[key]` on an object: the value of the entry named `key`, if any. */
  function Lookup(es: Entries, key: string): (r: Option<Value>)
    ensures r.None? <==> key !in TopKeys(es)
  {
    if es == [] then None
    else if es[0].0 == key then Some(es[0].1)
    else Lookup(es[1..], key)
  }

  /** An object as `JSON.parse` builds it: no key occurs twice. */
  predicate UniqueKeys(es: Entries)
  {
    forall i, j :: 0 <= i < j < |es| ==> es[i].0 != es[j].0
  }

  /** Unique keys at every level of nesting. */
  predicate WellFormed(es: Entries)
    decreases es
  {
    UniqueKeys(es) && (es == [] || (EntryWellFormed(es[0]) && WellFormed(es[1..])))
  }

  predicate EntryWellFormed(e: Entry)
    decreases e
  {
    e.1.Obj? ==> WellFormed(e.1.entries)
  }

  /** With unique keys, looking up the i-th key finds the i-th value. */
  lemma {:induction false} LookupUnique(es: Entries, i: nat)
    requires UniqueKeys(es) && i < |es|
    ensures Lookup(es, es[i].0) == Some(es[i].1)
  {
    if i > 0 {
      assert UniqueKeys(es[1..]) by {
        forall a, b | 0 <= a < b < |es[1..]| ensures es[1..][a].0 != es[1..][b].0 {
          assert es[1..][a] == es[a + 1] && es[1..][b] == es[b + 1];
        }
      }
      assert es[0].0 != es[i].0;
      LookupUnique(es[1..], i - 1);
    }
  }

  /** The decimal text of an array index, as `Object.keys` produces it. */
  function NatText(n: nat): string
  {
    if n < 10 then ["0123456789"[n]] else NatText(n / 10) + ["0123456789"[n % 10]]
  }

  /**
    The entries a value contributes when it is used as the target object of a
    nested merge, `target[key] || {}`: an object its own entries, a string or an
    array its index entries (what `Object.keys` and `target[i]` see), and any
    other value (falsy, a number, `true`) no entries at all.
   */
  function AsTarget(v: Value): (es: Entries)
    ensures v.Obj? ==> es == v.entries
    ensures v.Str? ==> |es| == |v.s| && forall i :: 0 <= i < |es| ==> es[i] == (NatText(i), Str([v.s[i]]))
    ensures v.Arr? ==> |es| == |v.items| && forall i :: 0 <= i < |es| ==> es[i] == (NatText(i), v.items[i])
    ensures !v.Obj? && !v.Str? && !v.Arr? ==> es == []
  {
    match v
    case Obj(es) => es
    case Str(s) => seq(|s|, i requires 0 <= i < |s| => (NatText(i), Str([s[i]])))
    case Arr(xs) => seq(|xs|, i requires 0 <= i < |xs| => (NatText(i), xs[i]))
    case _ => []
  }

  /** `target[key] || {}` where `target` is an object. */
  function Child(target: Entries, key: string): Entries
  {
    match Lookup(target, key)
    case None => []
    case Some(v) => AsTarget(v)
  }

  /** `${v}` in a template literal: the string conversion of a value. */
  function ToText(v: Value): string
    decreases v, 1
  {
    match v
    case Str(s) => s
    case Num(t) => t
    case Bool(b) => if b then "true" else "false"
    case Null => "null"
    case Arr(items) => ItemsText(items)
    case Obj(_) => "[object Object]"
  }

  /** `Array.prototype.join(",")`, which writes `null` elements as empty text. */
  function ItemsText(xs: seq<Value>): string
    decreases xs, 0
  {
    if xs == [] then ""
    else
      var first := if xs[0].Null? then "" else ToText(xs[0]);
      if |xs| == 1 then first else first + "," + ItemsText(xs[1..])
  }

  /** `s.includes(pat)`. */
  predicate Contains(s: string, pat: string)
    decreases s
  {
    pat <= s || (s != [] && Contains(s[1..], pat))
  }

  /** The marker that flags a value as not yet translated. */
  const Marker := "[TRANSLATE"

  /** `[TRANSLATE: ${path}] ${text}`: the generated placeholder. */
  function Placeholder(path: string, text: string): string
  {
    "[TRANSLATE: " + path + "] " + text
  }

  /** Every generated placeholder carries the marker. */
  lemma PlaceholderIsMarked(path: string, text: string)
    ensures Contains(Placeholder(path, text), Marker)
  {
    assert Marker <= Placeholder(path, text);
  }

  /** A leaf value that counts as untranslated: a string holding the marker. */
  predicate IsMarked(v: Value)
  {
    v.Str? && Contains(v.s, Marker)
  }

  /** `target[key] && typeof target[key] === 'string' && !target[key].includes('[TRANSLATE')`. */
  predicate IsKeptTranslation(t: Option<Value>)
  {
    t.Some? && t.value.Str? && t.value.s != "" && !Contains(t.value.s, Marker)
  }
}
