/**
  `flattenObject` of scripts/i18n-sync-keys.mjs: the dotted path of every leaf
  mapped to its value, built by assigning into a fresh object. An assignment
  to a key the object already has keeps that key's place and replaces its
  value, so when two leaves produce the same path (a key `"a.b"` beside a
  nested `a: { b }`) the later one wins at the earlier one's position.
 */
module Flatten {
  import opened Json
  import opened Seqs
  import opened KeyTree
  import opened Audit

  /** `result[key] = value`. */
  function Assign(m: Entries, e: Entry): (r: Entries)
    ensures TopKeys(r) == if e.0 in TopKeys(m) then TopKeys(m) else TopKeys(m) + [e.0]
    ensures forall k :: Lookup(r, k) == if k == e.0 then Some(e.1) else Lookup(m, k)
  {
    if m == [] then [e]
    else if m[0].0 == e.0 then [e] + m[1..]
    else [m[0]] + Assign(m[1..], e)
  }

  /** `Object.assign(m, ps)`: the entries of `ps` assigned one after the other. */
  function AssignAll(m: Entries, ps: Entries): Entries
    decreases |ps|
  {
    if ps == [] then m else Assign(AssignAll(m, ps[..|ps| - 1]), ps[|ps| - 1])
  }

  /** The value of the last entry named `k`. */
  function Last(ps: Entries, k: string): (r: Option<Value>)
    ensures r.None? <==> k !in TopKeys(ps)
    decreases |ps|
  {
    if ps == [] then None
    else if ps[|ps| - 1].0 == k then Some(ps[|ps| - 1].1)
    else
      assert TopKeys(ps) == TopKeys(ps[..|ps| - 1]) + [ps[|ps| - 1].0];
      Last(ps[..|ps| - 1], k)
  }

  /** The first of two lookups that finds something. */
  function Or(a: Option<Value>, b: Option<Value>): Option<Value>
  {
    if a.Some? then a else b
  }

  /** The body of `flattenObject`'s loop over the entries `es`, into the object built so far. */
  function FlattenFrom(es: Entries, prefix: string, acc: Entries): Entries
    decreases es
  {
    if es == [] then acc else FlattenFrom(es[1..], prefix, FlattenEntry(acc, es[0], prefix))
  }

  /** One `[key, value]` entry: a nested object is flattened and assigned in; any other value is assigned at its path. */
  function FlattenEntry(acc: Entries, e: Entry, prefix: string): Entries
    decreases e
  {
    var fullKey := Join(prefix, e.0);
    if e.1.Obj? then AssignAll(acc, FlattenFrom(e.1.entries, fullKey, [])) else Assign(acc, (fullKey, e.1))
  }

  /** `flattenObject(obj, prefix)`. */
  function FlattenObject(es: Entries, prefix: string): Entries
  {
    FlattenFrom(es, prefix, [])
  }

  lemma UniqueKeysDistinct(es: Entries)
    ensures UniqueKeys(es) <==> Distinct(TopKeys(es))
  {
  }

  /** The keys after a run of assignments: the old keys, then new ones in order of first assignment. */
  lemma {:induction false} AssignAllKeys(m: Entries, ps: Entries)
    requires Distinct(TopKeys(m))
    ensures TopKeys(AssignAll(m, ps)) == Dedup(TopKeys(m) + TopKeys(ps))
    decreases |ps|
  {
    if ps == [] {
      assert TopKeys(m) + TopKeys(ps) == TopKeys(m);
      DedupDistinct(TopKeys(m));
    } else {
      var init := ps[..|ps| - 1];
      var x := ps[|ps| - 1].0;
      AssignAllKeys(m, init);
      TopKeysSnoc(ps);
      assert TopKeys(m) + TopKeys(ps) == (TopKeys(m) + TopKeys(init)) + [x];
      DedupSnoc(TopKeys(m) + TopKeys(init), x);
    }
  }

  lemma TopKeysSnoc(ps: Entries)
    requires ps != []
    ensures TopKeys(ps) == TopKeys(ps[..|ps| - 1]) + [ps[|ps| - 1].0]
  {
  }

  /** After a run of assignments a key holds its last assigned value, or its old one. */
  lemma {:induction false} AssignAllLookup(m: Entries, ps: Entries, k: string)
    ensures Lookup(AssignAll(m, ps), k) == Or(Last(ps, k), Lookup(m, k))
    decreases |ps|
  {
    if ps != [] {
      AssignAllLookup(m, ps[..|ps| - 1], k);
    }
  }

  /** Looking back for the last match across a concatenation. */
  lemma {:induction false} LastAppend(a: Entries, b: Entries, k: string)
    ensures Last(a + b, k) == Or(Last(b, k), Last(a, k))
    decreases |b|
  {
    if b == [] {
      assert a + b == a;
    } else {
      assert (a + b)[..|a + b| - 1] == a + b[..|b| - 1];
      assert (a + b)[|a + b| - 1] == b[|b| - 1];
      LastAppend(a, b[..|b| - 1], k);
    }
  }

  /** Without repeated keys the last match is the only one. */
  lemma {:induction false} LastUnique(ps: Entries, k: string)
    requires UniqueKeys(ps)
    ensures Last(ps, k) == Lookup(ps, k)
    decreases |ps|
  {
    if ps != [] {
      var init := ps[..|ps| - 1];
      assert UniqueKeys(init);
      LastUnique(init, k);
      if ps[|ps| - 1].0 == k {
        LookupUnique(ps, |ps| - 1);
      } else {
        LookupPrefix(ps, k);
      }
    }
  }

  /** A key other than the last entry's is found, or not, in the entries before it. */
  lemma {:induction false} LookupPrefix(ps: Entries, k: string)
    requires ps != [] && ps[|ps| - 1].0 != k
    ensures Lookup(ps, k) == Lookup(ps[..|ps| - 1], k)
    decreases |ps|
  {
    if |ps| > 1 && ps[0].0 != k {
      assert ps[1..][..|ps[1..]| - 1] == ps[..|ps| - 1][1..];
      LookupPrefix(ps[1..], k);
    }
  }

  /** The flattened keys are the leaf paths with repeats dropped, in order of first occurrence. */
  lemma {:induction false} FlattenFromKeys(es: Entries, prefix: string, acc: Entries)
    requires Distinct(TopKeys(acc))
    ensures TopKeys(FlattenFrom(es, prefix, acc)) == Dedup(TopKeys(acc) + GetAllKeys(es, prefix))
    decreases es
  {
    if es == [] {
      assert TopKeys(acc) + GetAllKeys(es, prefix) == TopKeys(acc);
      DedupDistinct(TopKeys(acc));
    } else {
      var next := FlattenEntry(acc, es[0], prefix);
      var front := TopKeys(acc) + EntryKeys(es[0], prefix);
      var rest := GetAllKeys(es[1..], prefix);
      assert TopKeys(next) == Dedup(front) && Distinct(TopKeys(next)) by {
        FlattenEntryKeys(acc, es[0], prefix);
      }
      FlattenFromKeys(es[1..], prefix, next);
      assert FlattenFrom(es, prefix, acc) == FlattenFrom(es[1..], prefix, next);
      assert Dedup(Dedup(front) + rest) == Dedup(front + rest) by {
        DedupAppend(front, rest);
      }
      assert front + rest == TopKeys(acc) + GetAllKeys(es, prefix) by {
        AppendAssoc(TopKeys(acc), EntryKeys(es[0], prefix), rest);
      }
    }
  }

  lemma {:induction false} FlattenEntryKeys(acc: Entries, e: Entry, prefix: string)
    requires Distinct(TopKeys(acc))
    ensures TopKeys(FlattenEntry(acc, e, prefix)) == Dedup(TopKeys(acc) + EntryKeys(e, prefix))
    decreases e
  {
    var fullKey := Join(prefix, e.0);
    var a := TopKeys(acc);
    if e.1.Obj? {
      var g := GetAllKeys(e.1.entries, fullKey);
      var inner := FlattenFrom(e.1.entries, fullKey, []);
      assert TopKeys(inner) == Dedup(g) by {
        FlattenFromKeys(e.1.entries, fullKey, []);
        assert TopKeys([]) + g == g;
      }
      assert TopKeys(AssignAll(acc, inner)) == Dedup(a + Dedup(g)) by {
        AssignAllKeys(acc, inner);
      }
      DedupAppendRight(a, g);
      assert FlattenEntry(acc, e, prefix) == AssignAll(acc, inner);
      assert EntryKeys(e, prefix) == g;
    } else {
      assert FlattenEntry(acc, e, prefix) == Assign(acc, (fullKey, e.1));
      assert EntryKeys(e, prefix) == [fullKey];
      DedupSnoc(a, fullKey);
      DedupDistinct(a);
    }
  }

  /** Each flattened path holds the value of the last leaf with that path, or what the accumulator held. */
  lemma {:induction false} FlattenFromLookup(es: Entries, prefix: string, acc: Entries, k: string)
    ensures Lookup(FlattenFrom(es, prefix, acc), k) == Or(Last(PathPairs(prefix, Leaves(es)), k), Lookup(acc, k))
    decreases es
  {
    if es != [] {
      var next := FlattenEntry(acc, es[0], prefix);
      FlattenEntryLookup(acc, es[0], prefix, k);
      FlattenFromLookup(es[1..], prefix, next, k);
      PathPairsAppend(prefix, EntryLeaves(es[0]), Leaves(es[1..]));
      LastAppend(PathPairs(prefix, EntryLeaves(es[0])), PathPairs(prefix, Leaves(es[1..])), k);
    }
  }

  lemma {:induction false} FlattenEntryLookup(acc: Entries, e: Entry, prefix: string, k: string)
    ensures Lookup(FlattenEntry(acc, e, prefix), k) == Or(Last(PathPairs(prefix, EntryLeaves(e)), k), Lookup(acc, k))
    decreases e
  {
    var fullKey := Join(prefix, e.0);
    if e.1.Obj? {
      var inner := FlattenFrom(e.1.entries, fullKey, []);
      AssignAllLookup(acc, inner, k);
      FlattenFromKeys(e.1.entries, fullKey, []);
      LastUnique(inner, k);
      FlattenFromLookup(e.1.entries, fullKey, [], k);
      PathPairsUnder(prefix, e.0, Leaves(e.1.entries));
    } else {
      assert DotPath(prefix, [e.0]) == DotPath(fullKey, []);
      var single := PathPairs(prefix, EntryLeaves(e));
      assert single == [(fullKey, e.1)];
      assert single[..0] == [];
    }
  }

  /**
    The keys of `flattenObject` are `getAllKeys`' paths with repeats dropped,
    in order of first occurrence; the number of keys the sync counts is the
    number of distinct leaf paths.
   */
  lemma FlattenKeys(es: Entries, prefix: string)
    ensures TopKeys(FlattenObject(es, prefix)) == Dedup(GetAllKeys(es, prefix))
    ensures |FlattenObject(es, prefix)| == |Elements(GetAllKeys(es, prefix))|
  {
    FlattenFromKeys(es, prefix, []);
    assert TopKeys([]) + GetAllKeys(es, prefix) == GetAllKeys(es, prefix);
    DedupCard(GetAllKeys(es, prefix));
  }

  /** Each path of `flattenObject` holds the value of the last leaf reached by it. */
  lemma FlattenValues(es: Entries, prefix: string, k: string)
    ensures Lookup(FlattenObject(es, prefix), k) == Last(PathPairs(prefix, Leaves(es)), k)
  {
    FlattenFromLookup(es, prefix, [], k);
  }

  /** A later leaf at the same path overwrites an earlier one: `{"a.b": 1, a: {b: 2}}` flattens to `{"a.b": 2}`. */
  lemma FlattenCollision()
    ensures FlattenObject([("a.b", Num("1")), ("a", Obj([("b", Num("2"))]))], "") == [("a.b", Num("2"))]
  {
    var two := ("a.b", Num("2"));
    assert Join("a", "b") == "a.b";
    assert Join("", "a") == "a";
    assert Join("", "a.b") == "a.b";
    var sub := [("b", Num("2"))];
    assert FlattenEntry([], sub[0], "a") == [two];
    assert sub[1..] == [];
    var inner := FlattenFrom(sub, "a", []);
    assert inner == [two];
    var first := [("a.b", Num("1"))];
    assert Assign(first, two) == [two];
    assert inner[..0] == [];
    assert AssignAll(first, inner) == [two];
    var es := [("a.b", Num("1")), ("a", Obj(sub))];
    assert FlattenEntry([], es[0], "") == first;
    assert FlattenEntry(first, es[1], "") == [two];
    assert es[1..][1..] == [];
  }
}
