/** `merge_clusters_if_needed`: passes that merge adjacent pairs of small
    clusters, repeated until a pass merges nothing. */
module Merging {
  import opened Wrappers
  import opened Seqs
  import opened Shots

  /** A cluster the merge passes may merge: fewer than 4 shots. */
  predicate Small(c: seq<Shot>)
  {
    |c| < 4
  }

  /** No two neighbouring clusters are both small. */
  predicate NoAdjacentSmall(cs: seq<seq<Shot>>)
  {
    forall i :: 0 <= i < |cs| - 1 ==> !(Small(cs[i]) && Small(cs[i + 1]))
  }

  /** One pass of the `for` loop: scanning from the front, a small cluster
      followed by a small cluster is replaced by their concatenation and the
      scan resumes after the pair; any other cluster is kept as it is. */
  function MergePass(cs: seq<seq<Shot>>): (r: seq<seq<Shot>>)
    ensures |cs| <= 2 * |r| <= 2 * |cs|
  {
    if |cs| <= 1 then cs
    else if Small(cs[0]) && Small(cs[1]) then [cs[0] + cs[1]] + MergePass(cs[2..])
    else [cs[0]] + MergePass(cs[1..])
  }

  lemma FlattenCons(x: seq<Shot>, rest: seq<seq<Shot>>)
    ensures Flatten([x] + rest) == x + Flatten(rest)
  {
    assert ([x] + rest)[1..] == rest;
  }

  lemma FlattenTwo(cs: seq<seq<Shot>>)
    requires |cs| >= 2
    ensures Flatten(cs) == cs[0] + cs[1] + Flatten(cs[2..])
  {
    assert cs[1..][1..] == cs[2..];
  }

  /** A pass only regroups: the shots, in order, stay the same. */
  lemma {:induction false} MergePassFlatten(cs: seq<seq<Shot>>)
    ensures Flatten(MergePass(cs)) == Flatten(cs)
  {
    if |cs| >= 2 {
      FlattenTwo(cs);
      if Small(cs[0]) && Small(cs[1]) {
        MergePassFlatten(cs[2..]);
        FlattenCons(cs[0] + cs[1], MergePass(cs[2..]));
      } else {
        MergePassFlatten(cs[1..]);
        FlattenCons(cs[0], MergePass(cs[1..]));
      }
    }
  }

  /** A pass never adds clusters; it keeps the count (and then the whole list)
      exactly when no two neighbours are small. */
  lemma {:induction false} MergePassShrinks(cs: seq<seq<Shot>>)
    ensures |MergePass(cs)| <= |cs|
    ensures |MergePass(cs)| == |cs| <==> NoAdjacentSmall(cs)
    ensures |MergePass(cs)| == |cs| ==> MergePass(cs) == cs
  {
    if |cs| >= 2 {
      if Small(cs[0]) && Small(cs[1]) {
        MergePassShrinks(cs[2..]);
      } else {
        var t := cs[1..];
        MergePassShrinks(t);
        assert forall i :: 0 <= i < |t| ==> t[i] == cs[i + 1];
        assert cs == [cs[0]] + t;
      }
    }
  }

  /** A cluster made by joining the neighbours `cs[i]` and `cs[i + 1]`, both small. */
  predicate JoinsSmallPair(cs: seq<seq<Shot>>, x: seq<Shot>)
  {
    exists i :: 0 <= i < |cs| - 1 && Small(cs[i]) && Small(cs[i + 1]) && x == cs[i] + cs[i + 1]
  }

  /** Every cluster a pass produces was there before or joins two small
      neighbours, so it holds at most 6 shots. */
  lemma {:induction false} MergePassPieces(cs: seq<seq<Shot>>)
    ensures forall x :: x in MergePass(cs) ==> x in cs || JoinsSmallPair(cs, x)
    ensures forall x :: x in MergePass(cs) ==> x in cs || |x| <= 6
  {
    if |cs| >= 2 {
      var d := if Small(cs[0]) && Small(cs[1]) then 2 else 1;
      var t := cs[d..];
      MergePassPieces(t);
      forall x | x in MergePass(t)
        ensures x in cs || JoinsSmallPair(cs, x)
      {
        if x in t {
          var k :| 0 <= k < |t| && t[k] == x;
          assert cs[k + d] == x;
        } else {
          var i :| 0 <= i < |t| - 1 && Small(t[i]) && Small(t[i + 1]) && x == t[i] + t[i + 1];
          assert t[i] == cs[i + d] && t[i + 1] == cs[i + d + 1];
        }
      }
      if d == 2 {
        assert JoinsSmallPair(cs, cs[0] + cs[1]);
      }
    }
  }

  /** Passes never produce an empty cluster out of non-empty ones. */
  lemma {:induction false} MergePassNonEmpty(cs: seq<seq<Shot>>)
    requires forall i :: 0 <= i < |cs| ==> |cs[i]| > 0
    ensures forall i :: 0 <= i < |MergePass(cs)| ==> |MergePass(cs)[i]| > 0
  {
    if |cs| >= 2 {
      if Small(cs[0]) && Small(cs[1]) {
        assert forall i :: 0 <= i < |cs[2..]| ==> cs[2..][i] == cs[i + 2];
        MergePassNonEmpty(cs[2..]);
      } else {
        assert forall i :: 0 <= i < |cs[1..]| ==> cs[1..][i] == cs[i + 1];
        MergePassNonEmpty(cs[1..]);
      }
    }
  }

  /** The result of `merge_clusters_if_needed`: passes until one changes nothing. */
  function MergeFixpoint(cs: seq<seq<Shot>>): (r: seq<seq<Shot>>)
    ensures Flatten(r) == Flatten(cs)
    ensures |r| <= |cs|
    ensures NoAdjacentSmall(r)
    ensures forall x :: x in r ==> x in cs || |x| <= 6
    decreases |cs|
  {
    MergePassFlatten(cs);
    MergePassShrinks(cs);
    MergePassPieces(cs);
    var p := MergePass(cs);
    if |p| == |cs| then p else MergeFixpoint(p)
  }

  lemma {:induction false} MergeFixpointNonEmpty(cs: seq<seq<Shot>>)
    requires forall i :: 0 <= i < |cs| ==> |cs[i]| > 0
    ensures forall i :: 0 <= i < |MergeFixpoint(cs)| ==> |MergeFixpoint(cs)[i]| > 0
    decreases |cs|
  {
    MergePassNonEmpty(cs);
    MergePassShrinks(cs);
    if |MergePass(cs)| < |cs| {
      MergeFixpointNonEmpty(MergePass(cs));
    }
  }

  /** The body of the `while changed` loop: walks the indices with a
      `skip_next` flag and appends the last cluster unless the final pair was
      merged; `changed` records whether any pair was merged. */
  method Pass(clusters: seq<seq<Shot>>) returns (next: seq<seq<Shot>>, changed: bool)
    ensures next == MergePass(clusters)
    ensures changed <==> |next| < |clusters|
  {
    changed := false;
    next := [];
    var skipNext := false;
    var i := 0;
    ghost var done := 0;
    while i < |clusters| - 1
      invariant 0 <= i <= done <= |clusters|
      invariant |clusters| == 0 || i <= |clusters| - 1
      invariant done == (if skipNext then i + 1 else i)
      invariant next + MergePass(clusters[done..]) == MergePass(clusters)
      invariant |next| <= done
      invariant changed <==> |next| < done
    {
      if skipNext {
        skipNext := false;
        i := i + 1;
        continue;
      }
      var current := clusters[i];
      var following := clusters[i + 1];
      if |current| < 4 && |following| < 4 {
        PassMergeStep(clusters, i, next);
        next := next + [current + following];
        skipNext := true;
        changed := true;
        done := i + 2;
      } else {
        PassKeepStep(clusters, i, next);
        next := next + [current];
        done := i + 1;
      }
      i := i + 1;
    }
    if !skipNext && |clusters| > 0 {
      assert clusters[done..] == [clusters[|clusters| - 1]];
      next := next + [clusters[|clusters| - 1]];
    }
  }

  /** Merging the pair at `i` extends the output built so far. */
  lemma PassMergeStep(cs: seq<seq<Shot>>, i: nat, out: seq<seq<Shot>>)
    requires i + 1 < |cs| && Small(cs[i]) && Small(cs[i + 1])
    requires out + MergePass(cs[i..]) == MergePass(cs)
    ensures (out + [cs[i] + cs[i + 1]]) + MergePass(cs[i + 2..]) == MergePass(cs)
  {
    assert cs[i..][2..] == cs[i + 2..];
    assert MergePass(cs[i..]) == [cs[i] + cs[i + 1]] + MergePass(cs[i + 2..]);
  }

  /** Keeping the cluster at `i` extends the output built so far. */
  lemma PassKeepStep(cs: seq<seq<Shot>>, i: nat, out: seq<seq<Shot>>)
    requires i + 1 < |cs| && !(Small(cs[i]) && Small(cs[i + 1]))
    requires out + MergePass(cs[i..]) == MergePass(cs)
    ensures (out + [cs[i]]) + MergePass(cs[i + 1..]) == MergePass(cs)
  {
    assert cs[i..][1..] == cs[i + 1..];
    assert MergePass(cs[i..]) == [cs[i]] + MergePass(cs[i + 1..]);
  }

  /** `merge_clusters_if_needed(clusters)` on a list: passes until one merges
      nothing. */
  method MergeClustersIfNeeded(input: seq<seq<Shot>>) returns (clusters: seq<seq<Shot>>)
    ensures clusters == MergeFixpoint(input)
    ensures Flatten(clusters) == Flatten(input)
    ensures |clusters| <= |input|
    ensures NoAdjacentSmall(clusters)
  {
    clusters := input;
    var changed := true;
    while changed
      invariant changed || |MergePass(clusters)| == |clusters|
      invariant MergeFixpoint(clusters) == MergeFixpoint(input)
      decreases |clusters| + (if changed then 1 else 0)
    {
      var next;
      next, changed := Pass(clusters);
      MergePassShrinks(clusters);
      clusters := next;
    }
    MergePassShrinks(clusters);
  }

  /** The docstring's example `[[s1, s2], [s10], [s15, s16]]`: its first pass
      merges the first pair, and the second pass merges the resulting pair of
      three and two shots, so everything ends in one cluster (the docstring
      shows the state after the first pass only). */
  lemma MergeDocExample(a: Shot, b: Shot, c: Shot, d: Shot, e: Shot)
    ensures MergeFixpoint([[a, b], [c], [d, e]]) == [[a, b, c, d, e]]
  {
    var cs := [[a, b], [c], [d, e]];
    assert cs[2..] == [[d, e]];
    assert [a, b] + [c] == [a, b, c];
    assert MergePass([[d, e]]) == [[d, e]];
    var p := MergePass(cs);
    assert p == [[a, b, c]] + [[d, e]];
    assert p[2..] == [];
    assert [a, b, c] + [d, e] == [a, b, c, d, e];
    var q := MergePass(p);
    assert q == [[a, b, c, d, e]] + MergePass([]);
    assert MergePass(q) == q;
    assert MergeFixpoint(q) == q;
    assert MergeFixpoint(p) == MergeFixpoint(q);
    assert MergeFixpoint(cs) == MergeFixpoint(p);
  }

  // ----- the call on a dict in process_clusters -----

  /** Whether a pass ends by merging the final pair, so that `skip_next` is
      still set after the loop and `clusters[-1]` is not read. */
  predicate LastPairMerged(cs: seq<seq<Shot>>)
  {
    if |cs| < 2 then false
    else if Small(cs[0]) && Small(cs[1]) then |cs| == 2 || LastPairMerged(cs[2..])
    else LastPairMerged(cs[1..])
  }

  /** The values of the dict `{i: cluster for i, cluster in enumerate(...)}`. */
  function IndexedValues(d: map<int, seq<Shot>>): (cs: seq<seq<Shot>>)
    requires forall k :: k in d <==> 0 <= k < |d|
    ensures |cs| == |d|
    ensures forall i :: 0 <= i < |d| ==> cs[i] == d[i]
  {
    seq(|d|, i requires 0 <= i < |d| => d[i])
  }

  /** `merge_clusters_if_needed` as `process_clusters` calls it, on the dict
      `{i: cluster}` with keys `0..len-1`. The first pass reads `clusters[i]`
      for existing keys only, but its closing `clusters[-1]` looks up the key
      -1, which the dict does not hold: KeyError, unless the pass ended by
      merging the final pair. Later passes run on the list the first built. */
  function MergeOnIndexDict(d: map<int, seq<Shot>>): (r: Result<seq<seq<Shot>>>)
    requires forall k :: k in d <==> 0 <= k < |d|
    ensures r.Failure? ==> |d| > 0 && r.error == MissingKey
    ensures r.Success? ==> Flatten(r.value) == Flatten(IndexedValues(d)) && NoAdjacentSmall(r.value)
  {
    var cs := IndexedValues(d);
    MergePassFlatten(cs);
    if |cs| == 0 then Success([])
    else if !LastPairMerged(cs) then Failure(MissingKey)
    else Success(MergeFixpoint(MergePass(cs)))
  }

  /** A pass that ends by merging the final pair has merged something. */
  lemma {:induction false} LastPairMergedShrinks(cs: seq<seq<Shot>>)
    requires LastPairMerged(cs)
    ensures |MergePass(cs)| < |cs|
  {
    MergePassShrinks(cs);
    if !(Small(cs[0]) && Small(cs[1])) {
      LastPairMergedShrinks(cs[1..]);
    }
  }

  /** Where the call on the dict does not raise, it agrees with the list
      version; it raises on every non-empty input whose neighbours are already
      not both small, that is on every input the merge would leave alone. */
  lemma IndexDictDiscrepancy(d: map<int, seq<Shot>>)
    requires forall k :: k in d <==> 0 <= k < |d|
    ensures MergeOnIndexDict(d).Success? ==> MergeOnIndexDict(d).value == MergeFixpoint(IndexedValues(d))
    ensures |d| > 0 && NoAdjacentSmall(IndexedValues(d)) ==> MergeOnIndexDict(d) == Failure(MissingKey)
  {
    var cs := IndexedValues(d);
    MergePassShrinks(cs);
    if |cs| > 0 && LastPairMerged(cs) {
      LastPairMergedShrinks(cs);
    }
  }

  /** A single cluster: the list version returns it, the call on the dict raises. */
  lemma IndexDictSingleCluster(x: seq<Shot>)
    ensures MergeFixpoint([x]) == [x]
    ensures MergeOnIndexDict(map[0 := x]) == Failure(MissingKey)
  {
    var d := map[0 := x];
    assert forall k :: k in d <==> 0 <= k < |d|;
    assert IndexedValues(d) == [x];
  }
}
