/**
  The deep merge that `syncKeys` in `scripts/i18n-sync-keys.mjs` is documented
  to be ("Deep merge target with source structure, preserving existing
  translations"): the same loop, but a nested object stores the merged
  subtree rather than the `{ synced, obsolete }` record of the recursive call.
  Also the points where the merge, the sync as written and the skeleton
  generator agree.
 */
module Merge {
  import opened Json
  import opened Seqs
  import opened KeyTree
  import opened Audit
  import opened Sync
  import opened Skeletons

  /** The corrected `syncKeys(target, source, source, prefix).synced`. */
  function DeepMerge(t: Entries, ses: Entries, prefix: string): (r: Entries)
    ensures |r| == |ses| && forall i :: 0 <= i < |ses| ==> r[i] == MergeEntry(t, ses[i], prefix)
    decreases ses
  {
    if ses == [] then [] else [MergeEntry(t, ses[0], prefix)] + DeepMerge(t, ses[1..], prefix)
  }

  /** One iteration: `result[key] = syncKeys(target[key] || {}, value, ...).synced`, or the leaf rule. */
  function MergeEntry(t: Entries, e: Entry, prefix: string): (r: Entry)
    ensures r.0 == e.0 && (r.1.Obj? <==> e.1.Obj?)
    decreases e
  {
    var fullKey := Join(prefix, e.0);
    if e.1.Obj? then (e.0, Obj(DeepMerge(Child(t, e.0), e.1.entries, fullKey)))
    else (e.0, SyncLeaf(Lookup(t, e.0), fullKey, e.1))
  }

  /** The merged tree has exactly the reference's key paths, in the reference's order, at every depth. */
  lemma {:induction false} MergeKeys(t: Entries, ses: Entries, prefix: string, q: string)
    ensures GetAllKeys(DeepMerge(t, ses, prefix), q) == GetAllKeys(ses, q)
    decreases ses
  {
    if ses != [] {
      var r := DeepMerge(t, ses, prefix);
      assert r[0] == MergeEntry(t, ses[0], prefix) && r[1..] == DeepMerge(t, ses[1..], prefix);
      MergeEntryKeys(t, ses[0], prefix, q);
      MergeKeys(t, ses[1..], prefix, q);
    }
  }

  lemma {:induction false} MergeEntryKeys(t: Entries, e: Entry, prefix: string, q: string)
    ensures EntryKeys(MergeEntry(t, e, prefix), q) == EntryKeys(e, q)
    decreases e
  {
    if e.1.Obj? {
      MergeKeys(Child(t, e.0), e.1.entries, Join(prefix, e.0), Join(q, e.0));
    }
  }

  /** The old value at key path `ks` as the merge sees it: each step goes through `target[key] || {}`. */
  function TargetAt(t: Entries, ks: seq<string>): Option<Value>
    decreases ks
  {
    if ks == [] then None
    else if |ks| == 1 then Lookup(t, ks[0])
    else TargetAt(Child(t, ks[0]), ks[1..])
  }

  /** The merged leaf for reference leaf `l`: the kept translation at its path, or a placeholder naming that path. */
  function MergedLeaf(t: Entries, prefix: string, l: Leaf): Leaf
  {
    Leaf(l.keys, SyncLeaf(TargetAt(t, l.keys), DotPath(prefix, l.keys), l.value))
  }

  function MergedLeaves(t: Entries, prefix: string, ls: seq<Leaf>): (r: seq<Leaf>)
    ensures |r| == |ls| && forall i :: 0 <= i < |ls| ==> r[i] == MergedLeaf(t, prefix, ls[i])
  {
    seq(|ls|, i requires 0 <= i < |ls| => MergedLeaf(t, prefix, ls[i]))
  }

  lemma MergedLeavesAppend(t: Entries, prefix: string, a: seq<Leaf>, b: seq<Leaf>)
    ensures MergedLeaves(t, prefix, a + b) == MergedLeaves(t, prefix, a) + MergedLeaves(t, prefix, b)
  {
  }

  /** A child's merged leaves seen from the parent are the child's, under the parent's key. */
  lemma MergedLeavesUnder(t: Entries, prefix: string, k: string, ls: seq<Leaf>)
    requires forall i :: 0 <= i < |ls| ==> ls[i].keys != []
    ensures MergedLeaves(t, prefix, Under(k, ls)) == Under(k, MergedLeaves(Child(t, k), Join(prefix, k), ls))
  {
    forall i | 0 <= i < |ls|
      ensures TargetAt(t, [k] + ls[i].keys) == TargetAt(Child(t, k), ls[i].keys)
      ensures DotPath(prefix, [k] + ls[i].keys) == DotPath(Join(prefix, k), ls[i].keys)
    {
      assert ([k] + ls[i].keys)[1..] == ls[i].keys;
    }
  }

  /**
    Every leaf of the reference appears in the merged tree at the same key
    path and in the same order, holding the translation found at that path of
    the old tree when there is one to keep, and a placeholder otherwise.
   */
  lemma {:induction false} MergeLeaves(t: Entries, ses: Entries, prefix: string)
    ensures Leaves(DeepMerge(t, ses, prefix)) == MergedLeaves(t, prefix, Leaves(ses))
    decreases ses
  {
    if ses != [] {
      var r := DeepMerge(t, ses, prefix);
      assert r[0] == MergeEntry(t, ses[0], prefix) && r[1..] == DeepMerge(t, ses[1..], prefix);
      MergeEntryLeaves(t, ses[0], prefix);
      MergeLeaves(t, ses[1..], prefix);
      MergedLeavesAppend(t, prefix, EntryLeaves(ses[0]), Leaves(ses[1..]));
    }
  }

  lemma {:induction false} MergeEntryLeaves(t: Entries, e: Entry, prefix: string)
    ensures EntryLeaves(MergeEntry(t, e, prefix)) == MergedLeaves(t, prefix, EntryLeaves(e))
    decreases e
  {
    if e.1.Obj? {
      MergeLeaves(Child(t, e.0), e.1.entries, Join(prefix, e.0));
      MergedLeavesUnder(t, prefix, e.0, Leaves(e.1.entries));
    } else {
      assert DotPath(prefix, [e.0]) == DotPath(Join(prefix, e.0), []);
      assert TargetAt(t, [e.0]) == Lookup(t, e.0);
    }
  }

  /** The point of the merge: a translation at any depth survives it. */
  lemma MergeKeepsTranslations(t: Entries, ses: Entries, prefix: string, i: nat)
    requires i < |Leaves(ses)| && IsKeptTranslation(TargetAt(t, Leaves(ses)[i].keys))
    ensures |Leaves(DeepMerge(t, ses, prefix))| == |Leaves(ses)|
    ensures Leaves(DeepMerge(t, ses, prefix))[i] == Leaf(Leaves(ses)[i].keys, TargetAt(t, Leaves(ses)[i].keys).value)
  {
    MergeLeaves(t, ses, prefix);
  }

  /**
    Merging is idempotent: merging the merged tree against the same reference
    again changes nothing, since kept translations are kept and placeholders
    are regenerated identically.
   */
  lemma {:induction false} MergeIdempotent(t: Entries, ses: Entries, prefix: string)
    requires WellFormed(ses)
    ensures DeepMerge(DeepMerge(t, ses, prefix), ses, prefix) == DeepMerge(t, ses, prefix)
    decreases ses
  {
    var r := DeepMerge(t, ses, prefix);
    var again := DeepMerge(r, ses, prefix);
    assert UniqueKeys(r) by {
      assert forall i :: 0 <= i < |r| ==> r[i].0 == ses[i].0;
    }
    forall i | 0 <= i < |ses| ensures again[i] == r[i] {
      LookupUnique(r, i);
      WellFormedAt(ses, i);
      MergeEntryIdempotent(t, r, ses[i], prefix);
    }
  }

  lemma {:induction false} MergeEntryIdempotent(t: Entries, r: Entries, e: Entry, prefix: string)
    requires EntryWellFormed(e) && Lookup(r, e.0) == Some(MergeEntry(t, e, prefix).1)
    ensures MergeEntry(r, e, prefix) == MergeEntry(t, e, prefix)
    decreases e
  {
    var fullKey := Join(prefix, e.0);
    if e.1.Obj? {
      MergeIdempotent(Child(t, e.0), e.1.entries, fullKey);
    } else if !IsKeptTranslation(Lookup(t, e.0)) {
      PlaceholderIsMarked(fullKey, ToText(e.1));
    }
  }

  /** Each entry of a well-formed object is well formed. */
  lemma {:induction false} WellFormedAt(es: Entries, i: nat)
    requires WellFormed(es) && i < |es|
    ensures EntryWellFormed(es[i])
    decreases es
  {
    if i > 0 {
      WellFormedAt(es[1..], i - 1);
    }
  }

  /** The prefix `generateSkeleton` uses where the merge uses `q`. */
  predicate SkeletonPrefix(q: string, p: string)
  {
    if q == "" then p == "" else p == q + "."
  }

  /**
    Merging a reference with top-level keys that are not empty into an empty
    target gives the tree `generateSkeleton` writes.
   */
  lemma {:induction false} MergeFresh(ses: Entries, q: string, p: string)
    requires SkeletonPrefix(q, p) && (q == "" ==> forall i :: 0 <= i < |ses| ==> ses[i].0 != "")
    ensures DeepMerge([], ses, q) == Skeleton(ses, p)
    decreases ses
  {
    if ses != [] {
      MergeEntryFresh(ses[0], q, p);
      MergeFresh(ses[1..], q, p);
      assert DeepMerge([], ses, q)[1..] == DeepMerge([], ses[1..], q);
      assert Skeleton(ses, p)[1..] == Skeleton(ses[1..], p);
    }
  }

  lemma {:induction false} MergeEntryFresh(e: Entry, q: string, p: string)
    requires SkeletonPrefix(q, p) && (q == "" ==> e.0 != "")
    ensures MergeEntry([], e, q) == SkeletonEntry(e, p)
    decreases e
  {
    var fullKey := Join(q, e.0);
    assert p + e.0 == fullKey;
    if e.1.Obj? {
      assert p + e.0 + "." == fullKey + ".";
      MergeFresh(e.1.entries, fullKey, p + e.0 + ".");
    }
  }

  /** On a flat reference the script as written and the corrected merge agree. */
  lemma SyncFlatIsMerge(t: Entries, ses: Entries, prefix: string)
    requires Flat(ses)
    ensures SyncKeys(t, ses, prefix).synced == DeepMerge(t, ses, prefix)
  {
  }

  /**
    For a flat reference (with top-level keys that are not empty when it is
    the root), syncing an empty target gives the tree `generateSkeleton` writes.
   */
  lemma SkeletonIsFreshSync(ses: Entries, q: string, p: string)
    requires Flat(ses) && SkeletonPrefix(q, p) && (q == "" ==> forall i :: 0 <= i < |ses| ==> ses[i].0 != "")
    ensures Skeleton(ses, p) == SyncKeys([], ses, q).synced
  {
    var sk := Skeleton(ses, p);
    var sy := SyncKeys([], ses, q).synced;
    forall i | 0 <= i < |ses| ensures sk[i] == sy[i] {
      assert p + ses[i].0 == Join(q, ses[i].0);
    }
  }
}
