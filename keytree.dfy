/**
  The reference view of a locale tree that every script's traversal is measured
  against: the list of its leaves, each with the key sequence that reaches it,
  and path lookup `obj[k1][k2]...[kn]`. A non-null, non-array object is walked
  into; every other value (string, number, boolean, null, array) is a leaf.
 */
module KeyTree {
  import opened Json
  import opened Seqs

  /** A leaf position: the keys followed from the root, and the value found there. */
  datatype Leaf = Leaf(keys: seq<string>, value: Value)

  /** The leaves of an object, in entry order. */
  function Leaves(es: Entries): (ls: seq<Leaf>)
    ensures forall i :: 0 <= i < |ls| ==> ls[i].keys != [] && ls[i].keys[0] in TopKeys(es) && !ls[i].value.Obj?
    decreases es
  {
    if es == [] then [] else EntryLeaves(es[0]) + Leaves(es[1..])
  }

  function EntryLeaves(e: Entry): (ls: seq<Leaf>)
    ensures forall i :: 0 <= i < |ls| ==> ls[i].keys != [] && ls[i].keys[0] == e.0 && !ls[i].value.Obj?
    decreases e
  {
    if e.1.Obj? then Under(e.0, Leaves(e.1.entries)) else [Leaf([e.0], e.1)]
  }

  /** The leaves of a child object seen from its parent, under key `k`. */
  function Under(k: string, ls: seq<Leaf>): (r: seq<Leaf>)
    ensures |r| == |ls|
    ensures forall i :: 0 <= i < |ls| ==> r[i] == Leaf([k] + ls[i].keys, ls[i].value)
  {
    if ls == [] then [] else [Leaf([k] + ls[0].keys, ls[0].value)] + Under(k, ls[1..])
  }

  /** The key sequences of a list of leaves. */
  function LeafKeys(ls: seq<Leaf>): (r: seq<seq<string>>)
    ensures |r| == |ls| && forall i :: 0 <= i < |ls| ==> r[i] == ls[i].keys
  {
    if ls == [] then [] else [ls[0].keys] + LeafKeys(ls[1..])
  }

  /** `obj[k1][k2]...[kn]`, walking through objects only. */
  function At(es: Entries, ks: seq<string>): Option<Value>
    decreases ks
  {
    if ks == [] then None
    else
      match Lookup(es, ks[0])
      case None => None
      case Some(v) => if |ks| == 1 then Some(v) else if v.Obj? then At(v.entries, ks[1..]) else None
  }

  /** The dot-joined path of a key sequence below `prefix`, built the way the scripts build `fullKey`. */
  function DotPath(prefix: string, ks: seq<string>): string
    decreases ks
  {
    if ks == [] then prefix else DotPath(Join(prefix, ks[0]), ks[1..])
  }

  /** The dot-joined paths of a list of leaves. */
  function Paths(prefix: string, ls: seq<Leaf>): (r: seq<string>)
    ensures |r| == |ls| && forall i :: 0 <= i < |ls| ==> r[i] == DotPath(prefix, ls[i].keys)
  {
    if ls == [] then [] else [DotPath(prefix, ls[0].keys)] + Paths(prefix, ls[1..])
  }

  /** The (path, value) pairs of a list of leaves. */
  function PathPairs(prefix: string, ls: seq<Leaf>): (r: Entries)
    ensures |r| == |ls| && forall i :: 0 <= i < |ls| ==> r[i] == (DotPath(prefix, ls[i].keys), ls[i].value)
  {
    if ls == [] then [] else [(DotPath(prefix, ls[0].keys), ls[0].value)] + PathPairs(prefix, ls[1..])
  }

  /** The leaves whose value is a string holding the placeholder marker. */
  function MarkedLeaves(ls: seq<Leaf>): (r: seq<Leaf>)
    ensures forall l :: l in r <==> l in ls && IsMarked(l.value)
  {
    if ls == [] then []
    else (if IsMarked(ls[0].value) then [ls[0]] else []) + MarkedLeaves(ls[1..])
  }

  lemma PathsAppend(prefix: string, a: seq<Leaf>, b: seq<Leaf>)
    ensures Paths(prefix, a + b) == Paths(prefix, a) + Paths(prefix, b)
  {
  }

  lemma PathPairsAppend(prefix: string, a: seq<Leaf>, b: seq<Leaf>)
    ensures PathPairs(prefix, a + b) == PathPairs(prefix, a) + PathPairs(prefix, b)
  {
  }

  lemma {:induction false} MarkedLeavesAppend(a: seq<Leaf>, b: seq<Leaf>)
    ensures MarkedLeaves(a + b) == MarkedLeaves(a) + MarkedLeaves(b)
    decreases |a|
  {
    if a != [] {
      assert (a + b)[0] == a[0] && (a + b)[1..] == a[1..] + b;
      MarkedLeavesAppend(a[1..], b);
      var x := if IsMarked(a[0].value) then [a[0]] else [];
      assert MarkedLeaves(a + b) == x + MarkedLeaves(a[1..] + b);
      assert MarkedLeaves(a) == x + MarkedLeaves(a[1..]);
    } else {
      assert a + b == b;
    }
  }

  lemma {:induction false} LeafKeysAppend(a: seq<Leaf>, b: seq<Leaf>)
    ensures LeafKeys(a + b) == LeafKeys(a) + LeafKeys(b)
  {
  }

  /** A child's paths below the parent's prefix are the child's paths below the child's own path. */
  lemma PathsUnder(prefix: string, k: string, ls: seq<Leaf>)
    ensures Paths(prefix, Under(k, ls)) == Paths(Join(prefix, k), ls)
  {
    forall i | 0 <= i < |ls| ensures DotPath(prefix, ([k] + ls[i].keys)) == DotPath(Join(prefix, k), ls[i].keys) {
      assert ([k] + ls[i].keys)[1..] == ls[i].keys;
    }
  }

  lemma PathPairsUnder(prefix: string, k: string, ls: seq<Leaf>)
    ensures PathPairs(prefix, Under(k, ls)) == PathPairs(Join(prefix, k), ls)
  {
    forall i | 0 <= i < |ls| ensures DotPath(prefix, ([k] + ls[i].keys)) == DotPath(Join(prefix, k), ls[i].keys) {
      assert ([k] + ls[i].keys)[1..] == ls[i].keys;
    }
  }

  lemma {:induction false} MarkedUnder(k: string, ls: seq<Leaf>)
    ensures MarkedLeaves(Under(k, ls)) == Under(k, MarkedLeaves(ls))
    decreases |ls|
  {
    if ls != [] {
      assert Under(k, ls)[1..] == Under(k, ls[1..]);
      MarkedUnder(k, ls[1..]);
    }
  }

  /** A filtered list's paths keep their order among the paths of the whole list. */
  lemma {:induction false} MarkedPathsSubsequence(prefix: string, ls: seq<Leaf>)
    ensures IsSubsequence(Paths(prefix, MarkedLeaves(ls)), Paths(prefix, ls))
    decreases |ls|
  {
    if ls != [] {
      MarkedPathsSubsequence(prefix, ls[1..]);
      var whole := Paths(prefix, ls);
      assert whole[1..] == Paths(prefix, ls[1..]);
      var part := Paths(prefix, MarkedLeaves(ls));
      if IsMarked(ls[0].value) {
        assert part[0] == whole[0] && part[1..] == Paths(prefix, MarkedLeaves(ls[1..]));
      } else {
        assert part == Paths(prefix, MarkedLeaves(ls[1..]));
      }
    }
  }

  /** Looking past the first entry when the first key differs. */
  lemma AtSkip(es: Entries, ks: seq<string>)
    requires es != [] && ks != [] && ks[0] != es[0].0
    ensures At(es, ks) == At(es[1..], ks)
  {
  }

  /**
    Soundness of the leaf list: in an object with unique keys at every level,
    following each leaf's keys from the root finds that leaf's value.
   */
  lemma {:induction false} LeavesSound(es: Entries)
    requires WellFormed(es)
    ensures forall l :: l in Leaves(es) ==> At(es, l.keys) == Some(l.value)
    decreases es
  {
    if es != [] {
      EntryLeavesSound(es[0]);
      LeavesSound(es[1..]);
      forall l | l in Leaves(es) ensures At(es, l.keys) == Some(l.value) {
        if l in EntryLeaves(es[0]) {
          if |l.keys| > 1 {
            assert At(es, l.keys) == At(es[0].1.entries, l.keys[1..]);
          }
        } else {
          assert l in Leaves(es[1..]);
          var tail := TopKeys(es[1..]);
          assert l.keys[0] in tail;
          var j :| 0 <= j < |tail| && tail[j] == l.keys[0];
          assert es[j + 1].0 == l.keys[0];
          AtSkip(es, l.keys);
        }
      }
    }
  }

  lemma {:induction false} EntryLeavesSound(e: Entry)
    requires EntryWellFormed(e)
    ensures forall l :: l in EntryLeaves(e) ==>
      (l == Leaf([e.0], e.1)) || (e.1.Obj? && |l.keys| > 1 && At(e.1.entries, l.keys[1..]) == Some(l.value))
    decreases e
  {
    if e.1.Obj? {
      LeavesSound(e.1.entries);
      var inner := Leaves(e.1.entries);
      forall l | l in EntryLeaves(e)
        ensures |l.keys| > 1 && At(e.1.entries, l.keys[1..]) == Some(l.value)
      {
        var i :| 0 <= i < |inner| && Under(e.0, inner)[i] == l;
        assert l.keys[1..] == inner[i].keys;
        assert inner[i] in inner;
      }
    }
  }

  /**
    Completeness of the leaf list: every key sequence that reaches a
    non-object value is listed, with that value.
   */
  lemma {:induction false} LeavesComplete(es: Entries, ks: seq<string>, v: Value)
    requires At(es, ks) == Some(v) && !v.Obj?
    ensures Leaf(ks, v) in Leaves(es)
    decreases es
  {
    assert es != [];
    if es[0].0 == ks[0] {
      EntryLeavesComplete(es[0], ks, v);
    } else {
      AtSkip(es, ks);
      LeavesComplete(es[1..], ks, v);
    }
  }

  lemma {:induction false} EntryLeavesComplete(e: Entry, ks: seq<string>, v: Value)
    requires ks != [] && ks[0] == e.0 && !v.Obj?
    requires (|ks| == 1 && v == e.1) || (|ks| > 1 && e.1.Obj? && At(e.1.entries, ks[1..]) == Some(v))
    ensures Leaf(ks, v) in EntryLeaves(e)
    decreases e
  {
    if |ks| > 1 {
      LeavesComplete(e.1.entries, ks[1..], v);
      var inner := Leaves(e.1.entries);
      var i :| 0 <= i < |inner| && inner[i] == Leaf(ks[1..], v);
      assert [e.0] + ks[1..] == ks;
      assert Under(e.0, inner)[i] == Leaf(ks, v);
    } else {
      assert ks == [e.0];
    }
  }
}
