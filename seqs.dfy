/** Sequence facts the key lists need: filtering, subsequences, duplicates. */
module Seqs {

  /** `xs.filter(k => !ys.includes(k))`. */
  function Without(xs: seq<string>, ys: seq<string>): (r: seq<string>)
    ensures forall k :: k in r <==> k in xs && k !in ys
    ensures IsSubsequence(r, xs)
    decreases xs
  {
    if xs == [] then []
    else if xs[0] in ys then Without(xs[1..], ys)
    else [xs[0]] + Without(xs[1..], ys)
  }

  /** `r` is `xs` with some elements left out, the rest in their order. */
  ghost predicate IsSubsequence(r: seq<string>, xs: seq<string>)
    decreases xs
  {
    r == [] || (xs != [] && ((r[0] == xs[0] && IsSubsequence(r[1..], xs[1..])) || IsSubsequence(r, xs[1..])))
  }

  /** A subsequence holds no element its sequence lacks. */
  lemma {:induction false} SubsequenceElements(r: seq<string>, xs: seq<string>)
    requires IsSubsequence(r, xs)
    ensures forall k :: k in r ==> k in xs
    decreases xs
  {
    if r != [] {
      if r[0] == xs[0] && IsSubsequence(r[1..], xs[1..]) {
        SubsequenceElements(r[1..], xs[1..]);
        assert forall k :: k in r ==> k == r[0] || k in r[1..];
      } else {
        SubsequenceElements(r, xs[1..]);
      }
    }
  }

  /** Keeping nothing of `xs` leaves nothing: the filter is empty exactly when every element is in `ys`. */
  lemma WithoutEmpty(xs: seq<string>, ys: seq<string>)
    ensures Without(xs, ys) == [] <==> forall k :: k in xs ==> k in ys
  {
    var r := Without(xs, ys);
    if r != [] { assert r[0] in r; }
  }

  predicate Distinct(xs: seq<string>)
  {
    forall i, j :: 0 <= i < j < |xs| ==> xs[i] != xs[j]
  }

  /** Filtering a sequence without duplicates keeps it without duplicates. */
  lemma {:induction false} WithoutDistinct(xs: seq<string>, ys: seq<string>)
    requires Distinct(xs)
    ensures Distinct(Without(xs, ys))
    decreases xs
  {
    if xs != [] {
      assert Distinct(xs[1..]) by {
        forall a, b | 0 <= a < b < |xs[1..]| ensures xs[1..][a] != xs[1..][b] {
          assert xs[1..][a] == xs[a + 1] && xs[1..][b] == xs[b + 1];
        }
      }
      WithoutDistinct(xs[1..], ys);
      var rest := Without(xs[1..], ys);
      if xs[0] !in ys {
        assert xs[0] !in rest;
        var r := [xs[0]] + rest;
        forall a, b | 0 <= a < b < |r| ensures r[a] != r[b] {
          if a == 0 { assert r[b] == rest[b - 1] && rest[b - 1] in rest; }
          else { assert r[a] == rest[a - 1] && r[b] == rest[b - 1]; }
        }
      }
    }
  }

  /** Dropping elements keeps a sequence without duplicates. */
  lemma {:induction false} SubsequenceDistinct(r: seq<string>, xs: seq<string>)
    requires IsSubsequence(r, xs) && Distinct(xs)
    ensures Distinct(r)
    decreases xs
  {
    if r != [] {
      assert Distinct(xs[1..]) by {
        forall a, b | 0 <= a < b < |xs[1..]| ensures xs[1..][a] != xs[1..][b] {
          assert xs[1..][a] == xs[a + 1] && xs[1..][b] == xs[b + 1];
        }
      }
      if r[0] == xs[0] && IsSubsequence(r[1..], xs[1..]) {
        SubsequenceDistinct(r[1..], xs[1..]);
        SubsequenceElements(r[1..], xs[1..]);
        assert xs[0] !in xs[1..] by {
          forall b | 0 <= b < |xs[1..]| ensures xs[1..][b] != xs[0] { assert xs[1..][b] == xs[b + 1]; }
        }
        forall a, b | 0 <= a < b < |r| ensures r[a] != r[b] {
          assert r[b] == r[1..][b - 1] && r[1..][b - 1] in r[1..];
          if a > 0 { assert r[a] == r[1..][a - 1]; }
        }
      } else {
        SubsequenceDistinct(r, xs[1..]);
      }
    }
  }

  /** The elements of `xs` in order of first occurrence, as the keys of an object built by assignment. */
  function Dedup(xs: seq<string>): (r: seq<string>)
    ensures Distinct(r)
    ensures forall k :: k in r <==> k in xs
    decreases |xs|
  {
    if xs == [] then []
    else
      var d := Dedup(xs[..|xs| - 1]);
      var x := xs[|xs| - 1];
      assert forall k :: k in xs <==> k in xs[..|xs| - 1] || k == x;
      if x in d then d else d + [x]
  }

  lemma AppendAssoc(a: seq<string>, b: seq<string>, c: seq<string>)
    ensures (a + b) + c == a + (b + c)
  {
  }

  /** One more element is kept when it is new. */
  lemma DedupSnoc(xs: seq<string>, x: string)
    ensures Dedup(xs + [x]) == if x in Dedup(xs) then Dedup(xs) else Dedup(xs) + [x]
  {
    assert (xs + [x])[..|xs + [x]| - 1] == xs;
  }

  /** A sequence without duplicates keeps all of itself. */
  lemma {:induction false} DedupDistinct(xs: seq<string>)
    requires Distinct(xs)
    ensures Dedup(xs) == xs
    decreases |xs|
  {
    if xs != [] {
      var init := xs[..|xs| - 1];
      assert Distinct(init);
      DedupDistinct(init);
      assert xs[|xs| - 1] !in init;
      assert init + [xs[|xs| - 1]] == xs;
    }
  }

  /** Deduplicating a prefix first changes nothing: first occurrences stay first. */
  lemma {:induction false} DedupAppend(xs: seq<string>, ys: seq<string>)
    ensures Dedup(Dedup(xs) + ys) == Dedup(xs + ys)
    decreases |ys|
  {
    if ys == [] {
      assert Dedup(xs) + ys == Dedup(xs) && xs + ys == xs;
      DedupDistinct(Dedup(xs));
    } else {
      var init := ys[..|ys| - 1];
      DedupAppend(xs, init);
      assert (Dedup(xs) + ys)[..|Dedup(xs) + ys| - 1] == Dedup(xs) + init;
      assert (xs + ys)[..|xs + ys| - 1] == xs + init;
      assert (Dedup(xs) + ys)[|Dedup(xs) + ys| - 1] == ys[|ys| - 1] == (xs + ys)[|xs + ys| - 1];
    }
  }

  /** Deduplicating a suffix first changes nothing either. */
  lemma {:induction false} DedupAppendRight(xs: seq<string>, ys: seq<string>)
    ensures Dedup(xs + Dedup(ys)) == Dedup(xs + ys)
    decreases |ys|
  {
    if ys == [] {
      assert xs + Dedup(ys) == xs + ys;
    } else {
      var init := ys[..|ys| - 1];
      var y := ys[|ys| - 1];
      DedupAppendRight(xs, init);
      assert (xs + ys)[..|xs + ys| - 1] == xs + init && (xs + ys)[|xs + ys| - 1] == y;
      if y in Dedup(init) {
        assert Dedup(ys) == Dedup(init);
      } else {
        assert Dedup(ys) == Dedup(init) + [y];
        var s := xs + Dedup(init) + [y];
        assert s[..|s| - 1] == xs + Dedup(init) && s[|s| - 1] == y;
        assert xs + Dedup(ys) == s;
      }
    }
  }

  /** The set of a sequence's elements. */
  function Elements(xs: seq<string>): set<string>
  {
    set k | k in xs
  }

  /** Without duplicates, a sequence is as long as its set of elements. */
  lemma {:induction false} DistinctCard(xs: seq<string>)
    requires Distinct(xs)
    ensures |Elements(xs)| == |xs|
    decreases |xs|
  {
    if xs != [] {
      var init := xs[..|xs| - 1];
      var x := xs[|xs| - 1];
      assert Distinct(init);
      DistinctCard(init);
      assert x !in init;
      assert Elements(xs) == Elements(init) + {x};
    }
  }

  /** Deduplication leaves one element per distinct value. */
  lemma DedupCard(xs: seq<string>)
    ensures |Dedup(xs)| == |Elements(xs)|
  {
    DistinctCard(Dedup(xs));
    assert Elements(Dedup(xs)) == Elements(xs);
  }
}
