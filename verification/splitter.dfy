/** `split_cluster`: order a cluster's shots by ordinal and cut it wherever two
    neighbours are more than `threshold` apart. */
module Splitter {
  import opened Wrappers
  import opened Seqs
  import opened Sorting
  import opened Shots
  import opened Text

  /** Every two consecutive shots of `g` are at most `threshold` apart. */
  predicate Tight(g: seq<Shot>, threshold: int)
  {
    forall j :: 0 <= j < |g| - 1 ==> Gap(g[j], g[j + 1]) <= threshold
  }

  /** `groups` cuts `ys` into non-empty pieces whose inner gaps stay within
      `threshold` while every cut lies on a gap above it: the maximal runs. */
  predicate IsRunPartition(groups: seq<seq<Shot>>, ys: seq<Shot>, threshold: int)
  {
    && Flatten(groups) == ys
    && (forall i :: 0 <= i < |groups| ==> |groups[i]| > 0 && Tight(groups[i], threshold))
    && (forall i :: 0 <= i < |groups| - 1 ==> Gap(Last(groups[i]), groups[i + 1][0]) > threshold)
  }

  /** The runs of `ys`, scanning from the front. */
  function Runs(ys: seq<Shot>, threshold: int): (r: seq<seq<Shot>>)
    ensures IsRunPartition(r, ys, threshold)
    ensures |ys| > 0 ==> |r| > 0
  {
    if |ys| == 0 then []
    else
      var rest := Runs(ys[1..], threshold);
      if |rest| > 0 && Gap(ys[0], rest[0][0]) <= threshold then
        JoinFirstRun(ys, rest, threshold);
        [[ys[0]] + rest[0]] + rest[1..]
      else
        StartNewRun(ys, rest, threshold);
        [[ys[0]]] + rest
  }

  lemma JoinFirstRun(ys: seq<Shot>, rest: seq<seq<Shot>>, threshold: int)
    requires |ys| > 0 && IsRunPartition(rest, ys[1..], threshold)
    requires |rest| > 0 && Gap(ys[0], rest[0][0]) <= threshold
    ensures IsRunPartition([[ys[0]] + rest[0]] + rest[1..], ys, threshold)
  {
    var r := [[ys[0]] + rest[0]] + rest[1..];
    assert [r[0][1..]] + r[1..] == rest;
    FlattenDropHead(r);
    assert ys == [ys[0]] + ys[1..];
    TightCons(ys[0], rest[0], threshold);
    JoinPieces(ys[0], rest, threshold);
    JoinCuts(ys[0], rest, threshold);
  }

  lemma TightCons(x: Shot, g: seq<Shot>, threshold: int)
    requires |g| > 0 && Tight(g, threshold) && Gap(x, g[0]) <= threshold
    ensures Tight([x] + g, threshold)
  {
    var h := [x] + g;
    forall j | 0 <= j < |h| - 1
      ensures Gap(h[j], h[j + 1]) <= threshold
    {
      if j > 0 {
        assert h[j] == g[j - 1] && h[j + 1] == g[j];
      }
    }
  }

  lemma JoinPieces(x: Shot, rest: seq<seq<Shot>>, threshold: int)
    requires |rest| > 0 && Tight([x] + rest[0], threshold)
    requires forall i :: 0 <= i < |rest| ==> |rest[i]| > 0 && Tight(rest[i], threshold)
    ensures var r := [[x] + rest[0]] + rest[1..];
      forall i :: 0 <= i < |r| ==> |r[i]| > 0 && Tight(r[i], threshold)
  {
    var r := [[x] + rest[0]] + rest[1..];
    forall i | 0 <= i < |r|
      ensures |r[i]| > 0 && Tight(r[i], threshold)
    {
      if i > 0 {
        assert r[i] == rest[i];
      }
    }
  }

  lemma JoinCuts(x: Shot, rest: seq<seq<Shot>>, threshold: int)
    requires |rest| > 0
    requires forall i :: 0 <= i < |rest| ==> |rest[i]| > 0
    requires forall i :: 0 <= i < |rest| - 1 ==> Gap(Last(rest[i]), rest[i + 1][0]) > threshold
    ensures var r := [[x] + rest[0]] + rest[1..];
      forall i :: 0 <= i < |r| - 1 ==> Gap(Last(r[i]), r[i + 1][0]) > threshold
  {
    var r := [[x] + rest[0]] + rest[1..];
    forall i | 0 <= i < |r| - 1
      ensures Gap(Last(r[i]), r[i + 1][0]) > threshold
    {
      assert r[i + 1] == rest[i + 1];
      if i == 0 {
        assert Last(r[0]) == Last(rest[0]);
      } else {
        assert r[i] == rest[i];
      }
    }
  }

  lemma StartNewRun(ys: seq<Shot>, rest: seq<seq<Shot>>, threshold: int)
    requires |ys| > 0 && IsRunPartition(rest, ys[1..], threshold)
    requires |rest| > 0 ==> Gap(ys[0], rest[0][0]) > threshold
    ensures IsRunPartition([[ys[0]]] + rest, ys, threshold)
  {
    var r := [[ys[0]]] + rest;
    assert r[1..] == rest;
    assert ys == [ys[0]] + ys[1..];
    forall i | 0 <= i < |r|
      ensures |r[i]| > 0 && Tight(r[i], threshold)
    {
      if i > 0 {
        assert r[i] == rest[i - 1];
      }
    }
    forall i | 0 <= i < |r| - 1
      ensures Gap(Last(r[i]), r[i + 1][0]) > threshold
    {
      assert r[i + 1] == rest[i];
      if i > 0 {
        assert r[i] == rest[i - 1];
      }
    }
  }

  /** The runs are the only partition with those properties. */
  lemma {:induction false} RunPartitionUnique(groups: seq<seq<Shot>>, ys: seq<Shot>, threshold: int)
    requires IsRunPartition(groups, ys, threshold)
    ensures groups == Runs(ys, threshold)
    decreases |ys|
  {
    if |ys| == 0 {
      assert |groups| == 0 by {
        FlattenNonEmpty(groups);
      }
    } else {
      var g0 := groups[0];
      assert Flatten(groups) == g0 + Flatten(groups[1..]);
      if |g0| == 1 {
        DropSingletonRun(groups, ys, threshold);
        RunPartitionUnique(groups[1..], ys[1..], threshold);
        assert groups == [[ys[0]]] + groups[1..];
      } else {
        var tail := [g0[1..]] + groups[1..];
        DropFirstShot(groups, ys, threshold);
        RunPartitionUnique(tail, ys[1..], threshold);
        assert tail[0][0] == g0[1];
        assert g0 == [ys[0]] + tail[0];
        assert groups == [[ys[0]] + tail[0]] + tail[1..];
      }
    }
  }

  lemma FlattenNonEmpty(groups: seq<seq<Shot>>)
    requires forall i :: 0 <= i < |groups| ==> |groups[i]| > 0
    ensures |groups| > 0 <==> |Flatten(groups)| > 0
  {
    if |groups| > 0 {
      assert Flatten(groups) == groups[0] + Flatten(groups[1..]);
    }
  }

  lemma DropSingletonRun(groups: seq<seq<Shot>>, ys: seq<Shot>, threshold: int)
    requires IsRunPartition(groups, ys, threshold)
    requires |groups| > 0 && |groups[0]| == 1
    ensures |ys| > 0 && groups[0] == [ys[0]]
    ensures IsRunPartition(groups[1..], ys[1..], threshold)
    ensures |groups| > 1 ==> Gap(ys[0], groups[1][0]) > threshold
  {
    assert Flatten(groups) == groups[0] + Flatten(groups[1..]);
    forall i | 0 <= i < |groups[1..]| - 1
      ensures Gap(Last(groups[1..][i]), groups[1..][i + 1][0]) > threshold
    {
      assert groups[1..][i] == groups[i + 1] && groups[1..][i + 1] == groups[i + 2];
    }
  }

  lemma DropFirstShot(groups: seq<seq<Shot>>, ys: seq<Shot>, threshold: int)
    requires IsRunPartition(groups, ys, threshold)
    requires |groups| > 0 && |groups[0]| >= 2
    ensures |ys| > 0 && groups[0][0] == ys[0]
    ensures IsRunPartition([groups[0][1..]] + groups[1..], ys[1..], threshold)
    ensures Gap(ys[0], groups[0][1]) <= threshold
  {
    var g0 := groups[0];
    var tail := [g0[1..]] + groups[1..];
    FlattenDropHead(groups);
    TightTail(g0, threshold);
    TailPieces(groups, threshold);
    TailCuts(groups, threshold);
  }

  lemma TightTail(g: seq<Shot>, threshold: int)
    requires |g| >= 2 && Tight(g, threshold)
    ensures Tight(g[1..], threshold) && Gap(g[0], g[1]) <= threshold
  {
    forall j | 0 <= j < |g[1..]| - 1
      ensures Gap(g[1..][j], g[1..][j + 1]) <= threshold
    {
      assert g[1..][j] == g[j + 1];
    }
  }

  lemma TailPieces(groups: seq<seq<Shot>>, threshold: int)
    requires |groups| > 0 && |groups[0]| >= 2
    requires forall i :: 0 <= i < |groups| ==> |groups[i]| > 0 && Tight(groups[i], threshold)
    ensures var tail := [groups[0][1..]] + groups[1..];
      forall i :: 0 <= i < |tail| ==> |tail[i]| > 0 && Tight(tail[i], threshold)
  {
    var tail := [groups[0][1..]] + groups[1..];
    TightTail(groups[0], threshold);
    forall i | 0 <= i < |tail|
      ensures |tail[i]| > 0 && Tight(tail[i], threshold)
    {
      if i > 0 {
        assert tail[i] == groups[i];
      }
    }
  }

  lemma TailCuts(groups: seq<seq<Shot>>, threshold: int)
    requires |groups| > 0 && |groups[0]| >= 2
    requires forall i :: 0 <= i < |groups| ==> |groups[i]| > 0
    requires forall i :: 0 <= i < |groups| - 1 ==> Gap(Last(groups[i]), groups[i + 1][0]) > threshold
    ensures var tail := [groups[0][1..]] + groups[1..];
      forall i :: 0 <= i < |tail| - 1 ==> Gap(Last(tail[i]), tail[i + 1][0]) > threshold
  {
    var tail := [groups[0][1..]] + groups[1..];
    forall i | 0 <= i < |tail| - 1
      ensures Gap(Last(tail[i]), tail[i + 1][0]) > threshold
    {
      assert tail[i + 1] == groups[i + 1];
      if i == 0 {
        assert Last(tail[0]) == Last(groups[0]);
      } else {
        assert tail[i] == groups[i];
      }
    }
  }

  /** `split_cluster(cluster_shots, threshold)`. A list of at most one shot comes
      back unchanged as the only group (without reading any ordinal); otherwise
      every ordinal is read (FormatError if one is missing), the shots are sorted
      by ordinal, and the sorted list is cut into its runs. */
  function Split(xs: seq<Shot>, threshold: int): (r: Result<seq<seq<Shot>>>)
    ensures |xs| <= 1 ==> r == Success([xs])
    ensures |xs| >= 2 ==> (r.Failure? <==> !AllNumbered(xs))
    ensures r.Failure? ==> r.error == FormatError
    ensures r.Success? ==> multiset(Flatten(r.value)) == multiset(xs)
    ensures r.Success? && |xs| >= 2 ==>
              && IsRunPartition(r.value, SortBy(xs, OrdinalLe), threshold)
              && SortedBy(Flatten(r.value), OrdinalLe)
    ensures r.Success? ==> |r.value| >= 1
    ensures r.Success? ==> forall i :: 0 <= i < |r.value| ==>
              Tight(r.value[i], threshold) && (|xs| > 0 ==> |r.value[i]| > 0)
  {
    if |xs| <= 1 then
      assert Flatten([xs]) == xs + Flatten([xs][1..]);
      Success([xs])
    else if !AllNumbered(xs) then Failure(FormatError)
    else
      OrdinalLeIsTotalPreorder();
      SortBySorted(xs, OrdinalLe);
      Success(Runs(SortBy(xs, OrdinalLe), threshold))
  }

  /** Three shots in ordinal order whose first gap is within the threshold and
      whose second is above it split after the second shot. */
  lemma SplitThree(a: Shot, b: Shot, c: Shot, threshold: int)
    requires Numbered(a) && Numbered(b) && Numbered(c)
    requires Key(a) <= Key(b) <= Key(c)
    requires Key(b) - Key(a) <= threshold < Key(c) - Key(b)
    ensures Split([a, b, c], threshold) == Success([[a, b], [c]])
  {
    var xs := [a, b, c];
    assert AllNumbered(xs) by {
      forall i | 0 <= i < 3
        ensures Numbered(xs[i])
      {
      }
    }
    forall i | 0 <= i < |xs| - 1
      ensures OrdinalLe(xs[i], xs[i + 1])
    {
    }
    SplitOfSorted(xs, threshold);
    RunsThree(a, b, c, threshold);
  }

  /** Shots already in ordinal order are cut without being reordered. */
  lemma SplitOfSorted(xs: seq<Shot>, threshold: int)
    requires |xs| >= 2 && AllNumbered(xs)
    requires forall i :: 0 <= i < |xs| - 1 ==> OrdinalLe(xs[i], xs[i + 1])
    ensures Split(xs, threshold) == Success(Runs(xs, threshold))
  {
    SortByOfSorted(xs, OrdinalLe);
  }

  /** Two shots within the threshold form one run. */
  lemma RunsPair(a: Shot, b: Shot, threshold: int)
    requires Gap(a, b) <= threshold
    ensures Runs([a, b], threshold) == [[a, b]]
  {
    assert [a, b][1..] == [b] && [b][1..] == [];
    var r1 := Runs([b], threshold);
    assert r1 == [[b]] + Runs([], threshold);
    assert Runs([a, b], threshold) == [[a] + r1[0]] + r1[1..];
    assert [a] + [b] == [a, b];
  }

  lemma RunsThree(a: Shot, b: Shot, c: Shot, threshold: int)
    requires Key(a) <= Key(b) <= Key(c)
    requires Key(b) - Key(a) <= threshold < Key(c) - Key(b)
    ensures Runs([a, b, c], threshold) == [[a, b], [c]]
  {
    assert [a, b, c][1..] == [b, c] && [b, c][1..] == [c] && [c][1..] == [];
    assert Gap(a, b) <= threshold && Gap(b, c) > threshold;
    assert Runs([], threshold) == [];
    var r1 := Runs([c], threshold);
    assert r1 == [[c]] + [];
    var r2 := Runs([b, c], threshold);
    assert r2 == [[b]] + r1;
    var r3 := Runs([a, b, c], threshold);
    assert r3 == [[a] + r2[0]] + r2[1..];
    assert [a] + [b] == [a, b];
  }

  /** The docstring's example: `['shot_1', 'shot_2', 'shot_15']` at threshold 10
      splits into `[['shot_1', 'shot_2'], ['shot_15']]`. */
  lemma SplitDocExample()
    ensures Split(["shot_1", "shot_2", "shot_15"], 10) == Success([["shot_1", "shot_2"], ["shot_15"]])
  {
    DocShotOrdinals();
    SplitThree("shot_1", "shot_2", "shot_15", 10);
  }
}
