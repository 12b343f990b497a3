/** The deterministic tail of `process_clusters`: the clusters the agglomerative
    clustering labels are regrouped by label, split again, put in shot order,
    merged and cleaned into the final scene map. The labels themselves come
    from TF-IDF and agglomerative clustering and are an input here. */
module Scenes {
  import opened Wrappers
  import opened Seqs
  import opened Sorting
  import opened Shots
  import opened Registry
  import opened Merging
  import opened Absorbing

  // ----- steps 6 to 8: regrouping by label -----

  /** The labels in order of first appearance: the key order of
      `shot_clusters_dict`. */
  function Distinct(labels: seq<int>): (d: seq<int>)
    ensures forall m :: m in d <==> m in labels
    ensures forall i, j :: 0 <= i < j < |d| ==> d[i] != d[j]
    ensures forall i, j :: 0 <= i < j < |d| ==> FirstIndex(labels, d[i]) < FirstIndex(labels, d[j])
  {
    if |labels| == 0 then []
    else
      var n := |labels|;
      var d := Distinct(labels[..n - 1]);
      assert labels == labels[..n - 1] + [labels[n - 1]];
      DistinctFirstIndexes(labels, d);
      if labels[n - 1] in d then d
      else
        FirstIndexNew(labels, n - 1);
        d + [labels[n - 1]]
  }

  /** The labels of the prefix keep their first positions in the whole list,
      all before its last position. */
  lemma DistinctFirstIndexes(labels: seq<int>, d: seq<int>)
    requires |labels| > 0
    requires forall i :: 0 <= i < |d| ==> d[i] in labels[..|labels| - 1]
    ensures forall i :: 0 <= i < |d| ==>
      d[i] in labels && FirstIndex(labels, d[i]) == FirstIndex(labels[..|labels| - 1], d[i]) < |labels| - 1
  {
    forall i | 0 <= i < |d|
      ensures d[i] in labels && FirstIndex(labels, d[i]) == FirstIndex(labels[..|labels| - 1], d[i])
    {
      FirstIndexPrefix(labels, |labels| - 1, d[i]);
    }
  }

  /** `final_merged_data[m]`: the shots of every cluster labelled `m`, cluster
      after cluster in map order. */
  function Gather(cs: seq<Entry>, labels: seq<int>, m: int): seq<Shot>
    requires |labels| == |cs|
  {
    if |cs| == 0 then []
    else
      var n := |cs|;
      Gather(cs[..n - 1], labels[..n - 1], m) + (if labels[n - 1] == m then cs[n - 1].shots else [])
  }

  /** What an entry of the regrouped map holds: the shots of the clusters
      with its label, and no others. */
  lemma {:induction false} GatherMembers(cs: seq<Entry>, labels: seq<int>, m: int)
    requires |labels| == |cs|
    ensures forall s :: s in Gather(cs, labels, m) <==>
              exists i :: 0 <= i < |cs| && labels[i] == m && s in cs[i].shots
  {
    if |cs| > 0 {
      var n := |cs|;
      GatherMembers(cs[..n - 1], labels[..n - 1], m);
      assert forall i :: 0 <= i < n - 1 ==> cs[..n - 1][i] == cs[i] && labels[..n - 1][i] == labels[i];
    }
  }

  /** One entry per label of `d`, holding what `Gather` collects for it. */
  function RegroupOver(d: seq<int>, cs: seq<Entry>, labels: seq<int>): (r: seq<Entry>)
    requires |labels| == |cs|
    ensures |r| == |d|
    ensures forall j :: 0 <= j < |d| ==> r[j] == Entry(d[j], Gather(cs, labels, d[j]))
  {
    if |d| == 0 then [] else [Entry(d[0], Gather(cs, labels, d[0]))] + RegroupOver(d[1..], cs, labels)
  }

  /** Steps 6 to 8 of `process_clusters`: cluster `cs[i]` carries the label
      `labels[i]`; each label becomes one entry, keyed by the label, in order
      of first appearance, holding the shots of all its clusters. Every
      cluster id the loop looks up is a key of the map, so the `in` test at
      line 645 always holds. */
  function Regroup(cs: seq<Entry>, labels: seq<int>): (r: seq<Entry>)
    requires |labels| == |cs|
    ensures |r| == |Distinct(labels)|
    ensures forall j :: 0 <= j < |r| ==> r[j].key == Distinct(labels)[j]
    ensures forall j :: 0 <= j < |r| ==> forall s :: s in r[j].shots <==>
              exists i :: 0 <= i < |cs| && labels[i] == r[j].key && s in cs[i].shots
    ensures multiset(AllShots(r)) == multiset(AllShots(cs))
  {
    RegroupShots(cs, labels);
    var r := RegroupOver(Distinct(labels), cs, labels);
    forall j | 0 <= j < |r|
      ensures forall s :: s in r[j].shots <==>
                exists i :: 0 <= i < |cs| && labels[i] == r[j].key && s in cs[i].shots
    {
      GatherMembers(cs, labels, r[j].key);
    }
    r
  }

  lemma AllShotsSnoc(cs: seq<Entry>, e: Entry)
    ensures AllShots(cs + [e]) == AllShots(cs) + e.shots
  {
    ValuesAppend(cs, [e]);
    assert Values([e]) == [e.shots];
    FlattenAppend(Values(cs), [e.shots]);
    FlattenOne(e.shots);
  }

  lemma AllShotsLast(cs: seq<Entry>)
    requires |cs| > 0
    ensures AllShots(cs) == AllShots(cs[..|cs| - 1]) + cs[|cs| - 1].shots
  {
    var n := |cs|;
    assert cs == cs[..n - 1] + [cs[n - 1]];
    AllShotsSnoc(cs[..n - 1], cs[n - 1]);
  }

  lemma {:induction false} GatherAbsent(cs: seq<Entry>, labels: seq<int>, m: int)
    requires |labels| == |cs| && m !in labels
    ensures Gather(cs, labels, m) == []
  {
    if |cs| > 0 {
      var n := |cs|;
      assert labels == labels[..n - 1] + [labels[n - 1]];
      GatherAbsent(cs[..n - 1], labels[..n - 1], m);
    }
  }

  /** Adding one cluster `x` with label `l` at the end adds its shots to the
      entry of `l`, when `d` lists `l`, and changes nothing otherwise. */
  lemma {:induction false} RegroupOverStep(d: seq<int>, cs: seq<Entry>, labels: seq<int>)
    requires |labels| == |cs| > 0
    requires forall i, j :: 0 <= i < j < |d| ==> d[i] != d[j]
    ensures var n := |cs|;
      multiset(AllShots(RegroupOver(d, cs, labels)))
        == multiset(AllShots(RegroupOver(d, cs[..n - 1], labels[..n - 1])))
           + (if labels[n - 1] in d then multiset(cs[n - 1].shots) else multiset{})
  {
    var n := |cs|;
    if |d| > 0 {
      var a := RegroupOver(d, cs, labels);
      var b := RegroupOver(d, cs[..n - 1], labels[..n - 1]);
      RegroupOverStep(d[1..], cs, labels);
      ConsValues(a);
      ConsValues(b);
      assert a[1..] == RegroupOver(d[1..], cs, labels);
      assert b[1..] == RegroupOver(d[1..], cs[..n - 1], labels[..n - 1]);
      var l := labels[n - 1];
      assert l in d <==> l == d[0] || l in d[1..];
      assert l == d[0] ==> l !in d[1..];
    }
  }

  lemma RegroupOverSnoc(d: seq<int>, l: int, cs: seq<Entry>, labels: seq<int>)
    requires |labels| == |cs|
    ensures RegroupOver(d + [l], cs, labels) == RegroupOver(d, cs, labels) + [Entry(l, Gather(cs, labels, l))]
  {
  }

  /** Regrouping moves shots between entries but loses and adds none. */
  lemma {:induction false} RegroupShots(cs: seq<Entry>, labels: seq<int>)
    requires |labels| == |cs|
    ensures multiset(AllShots(RegroupOver(Distinct(labels), cs, labels))) == multiset(AllShots(cs))
    decreases |cs|
  {
    if |cs| > 0 {
      var n := |cs|;
      var cs0, labels0 := cs[..n - 1], labels[..n - 1];
      RegroupShots(cs0, labels0);
      RegroupLast(cs, labels);
      AllShotsLast(cs);
    }
  }

  /** Regrouping with one more cluster adds exactly its shots. */
  lemma RegroupLast(cs: seq<Entry>, labels: seq<int>)
    requires |labels| == |cs| > 0
    ensures var n := |cs|;
      multiset(AllShots(RegroupOver(Distinct(labels), cs, labels)))
        == multiset(AllShots(RegroupOver(Distinct(labels[..n - 1]), cs[..n - 1], labels[..n - 1])))
           + multiset(cs[n - 1].shots)
  {
    var n := |cs|;
    if labels[n - 1] in Distinct(labels[..n - 1]) {
      RegroupKnownLabel(cs, labels);
    } else {
      RegroupNewLabel(cs, labels);
    }
  }

  /** The last cluster's label was seen before: its shots join that entry. */
  lemma RegroupKnownLabel(cs: seq<Entry>, labels: seq<int>)
    requires |labels| == |cs| > 0
    requires labels[|cs| - 1] in Distinct(labels[..|cs| - 1])
    ensures var n := |cs|;
      multiset(AllShots(RegroupOver(Distinct(labels), cs, labels)))
        == multiset(AllShots(RegroupOver(Distinct(labels[..n - 1]), cs[..n - 1], labels[..n - 1])))
           + multiset(cs[n - 1].shots)
  {
    var n := |cs|;
    assert Distinct(labels) == Distinct(labels[..n - 1]);
    RegroupOverStep(Distinct(labels), cs, labels);
  }

  /** The last cluster's label is new: it becomes the last entry, holding
      exactly that cluster's shots. */
  lemma RegroupNewLabel(cs: seq<Entry>, labels: seq<int>)
    requires |labels| == |cs| > 0
    requires labels[|cs| - 1] !in Distinct(labels[..|cs| - 1])
    ensures var n := |cs|;
      multiset(AllShots(RegroupOver(Distinct(labels), cs, labels)))
        == multiset(AllShots(RegroupOver(Distinct(labels[..n - 1]), cs[..n - 1], labels[..n - 1])))
           + multiset(cs[n - 1].shots)
  {
    var n := |cs|;
    var l := labels[n - 1];
    var cs0, labels0 := cs[..n - 1], labels[..n - 1];
    var d0 := Distinct(labels0);
    var g := Gather(cs, labels, l);
    var whole := RegroupOver(d0, cs, labels);
    var before := RegroupOver(d0, cs0, labels0);
    assert Distinct(labels) == d0 + [l];
    RegroupOverSnoc(d0, l, cs, labels);
    assert RegroupOver(Distinct(labels), cs, labels) == whole + [Entry(l, g)];
    AllShotsSnoc(whole, Entry(l, g));
    RegroupOverStep(d0, cs, labels);
    assert multiset(AllShots(whole)) == multiset(AllShots(before));
    GatherAbsent(cs0, labels0, l);
    assert g == cs[n - 1].shots;
  }

  // ----- step 9 and after: shot order, merges and clean-up -----

  /** `extract_number(item[1][0])`, the sort key of a cluster; an empty cluster
      has no first shot (the source raises there, see `Arrange`). */
  function HeadKey(e: Entry): NumKey
  {
    if |e.shots| > 0 then FirstNumber(e.shots[0]) else Infinite
  }

  predicate EntryLe(a: Entry, b: Entry)
  {
    NumKeyLe(HeadKey(a), HeadKey(b))
  }

  lemma EntryLeIsTotalPreorder()
    ensures TotalPreorder(EntryLe)
  {
  }

  lemma {:induction false} InsertShots(x: Entry, s: seq<Entry>)
    ensures multiset(AllShots(Insert(x, s, EntryLe))) == multiset(x.shots) + multiset(AllShots(s))
  {
    var r := Insert(x, s, EntryLe);
    if |s| == 0 || EntryLe(x, s[0]) {
      ConsValues(r);
      assert r[1..] == s;
    } else {
      InsertShots(x, s[1..]);
      ConsValues(r);
      ConsValues(s);
    }
  }

  lemma {:induction false} SortShots(cs: seq<Entry>)
    ensures multiset(AllShots(SortBy(cs, EntryLe))) == multiset(AllShots(cs))
  {
    if |cs| > 0 {
      SortShots(cs[1..]);
      InsertShots(cs[0], SortBy(cs[1..], EntryLe));
      ConsValues(cs);
    }
  }

  /** `sorted(reindexed_clusters.items(), key=lambda item: extract_number(item[1][0]))`:
      the clusters in the order of the number in their first shot, ties in map
      order. */
  function SortByHead(cs: seq<Entry>): (r: seq<Entry>)
    ensures multiset(r) == multiset(cs)
    ensures SortedBy(r, EntryLe)
    ensures multiset(AllShots(r)) == multiset(AllShots(cs))
  {
    EntryLeIsTotalPreorder();
    SortBySorted(cs, EntryLe);
    SortShots(cs);
    SortBy(cs, EntryLe)
  }

  /** `reindexed_clusters[key].sort(key=extract_number)` for every key; the sort
      runs in place on the very lists the sorted items hold, so the order of the
      clusters is fixed by their first shot before this sort. */
  function SortWithin(items: seq<Entry>): (vs: seq<seq<Shot>>)
    ensures |vs| == |items|
    ensures forall i :: 0 <= i < |vs| ==>
              multiset(vs[i]) == multiset(items[i].shots) && SortedBy(vs[i], NumberLe)
  {
    NumberLeIsTotalPreorder();
    assert forall x: seq<Shot> :: SortedBy(SortBy(x, NumberLe), NumberLe) by {
      forall x: seq<Shot>
        ensures SortedBy(SortBy(x, NumberLe), NumberLe)
      {
        SortBySorted(x, NumberLe);
      }
    }
    seq(|items|, i requires 0 <= i < |items| => SortBy(items[i].shots, NumberLe))
  }

  lemma {:induction false} FlattenPointwise(a: seq<seq<Shot>>, b: seq<seq<Shot>>)
    requires |a| == |b|
    requires forall i :: 0 <= i < |a| ==> multiset(a[i]) == multiset(b[i])
    ensures multiset(Flatten(a)) == multiset(Flatten(b))
  {
    if |a| > 0 {
      assert forall i :: 0 <= i < |a[1..]| ==> a[1..][i] == a[i + 1] && b[1..][i] == b[i + 1];
      FlattenPointwise(a[1..], b[1..]);
    }
  }

  lemma {:induction false} EmptyCountZero(cs: seq<Entry>)
    requires EmptyCount(cs) == 0
    ensures forall i :: 0 <= i < |cs| ==> |cs[i].shots| > 0
  {
    if |cs| > 0 {
      EmptyCountZero(cs[1..]);
      assert forall i :: 1 <= i < |cs| ==> cs[i] == cs[1..][i - 1];
    }
  }

  /** Non-empty clusters are exactly what `merge_small_clusters` can take:
      it stops on them unless there is one cluster of one shot. */
  lemma NonEmptySettles(c: seq<seq<Shot>>)
    requires forall k :: 0 <= k < |c| ==> |c[k]| > 0
    ensures Settles(c) || LoneSingleton(c)
    ensures LoneSingleton(c) <==> |Flatten(c)| == 1
  {
    if |c| >= 2 {
      assert Flatten(c) == c[0] + Flatten(c[1..]);
      assert Flatten(c[1..]) == c[1] + Flatten(c[1..][1..]);
    } else if |c| == 1 {
      FlattenOne(c[0]);
      assert c == [c[0]];
    }
  }

  lemma NonEmptyKept(cs: seq<Entry>, x: seq<Shot>)
    requires x in NonEmptyValues(cs)
    ensures exists i :: 0 <= i < |cs| && cs[i].shots == x && |x| > 0
  {
    if |cs[0].shots| == 0 || x != cs[0].shots {
      assert x in NonEmptyValues(cs[1..]);
      NonEmptyKept(cs[1..], x);
      var i :| 0 <= i < |cs[1..]| && cs[1..][i].shots == x && |x| > 0;
      assert cs[i + 1].shots == x;
    }
  }

  /** The lines after step 9 of `process_clusters`, from the re-indexed map:
      sort the clusters by the number of their first shot, sort each cluster's
      shots, merge small neighbours, absorb one-shot clusters, drop the empty
      ones and key the rest `1..N`. An empty cluster has no first shot
      (IndexError). `merge_small_clusters` runs on the dict `{i: cluster}`, so
      a lone one-shot cluster fails on the missing key 1 (KeyError). The merge
      passes take the list of clusters, which is what the source's
      `clusters[-1]` needs (see `Merging.MergeOnIndexDict`). */
  method Arrange(cs: seq<Entry>) returns (r: Result<seq<Entry>>)
    ensures r.Failure? <==> EmptyCount(cs) > 0 || |AllShots(cs)| == 1
    ensures r.Failure? && EmptyCount(cs) > 0 ==> r.error == MissingNeighbour
    ensures r.Failure? && EmptyCount(cs) == 0 ==> r.error == MissingKey
    ensures r.Success? ==> |r.value| <= |cs|
    ensures r.Success? ==> forall i :: 0 <= i < |r.value| ==> r.value[i].key == i + 1
    ensures r.Success? ==> forall i :: 0 <= i < |r.value| ==> |r.value[i].shots| >= 2
    ensures r.Success? ==> multiset(AllShots(r.value)) == multiset(AllShots(cs))
    ensures r.Success? ==> EmptyCount(cs) == 0 && AllShots(r.value) == Flatten(Prepare(cs))
  {
    if EmptyCount(cs) > 0 {
      return Failure(MissingNeighbour);
    }
    var vs := Prepare(cs);
    var merged := MergeClustersIfNeeded(vs);
    MergeFixpointNonEmpty(vs);
    NonEmptySettles(merged);
    SameSize(Flatten(merged), AllShots(cs));
    var absorbed := MergeSmallClusters(merged);
    if absorbed.Failure? {
      return Failure(MissingKey);
    }
    r := Success(Clean(absorbed.value));
  }

  lemma SameSize(a: seq<Shot>, b: seq<Shot>)
    requires multiset(a) == multiset(b)
    ensures |a| == |b|
  {
    assert |multiset(a)| == |a| && |multiset(b)| == |b|;
  }

  /** The two sorts of the tail, on clusters that all have a first shot. */
  function Prepare(cs: seq<Entry>): (vs: seq<seq<Shot>>)
    requires EmptyCount(cs) == 0
    ensures |vs| == |cs|
    ensures forall i :: 0 <= i < |vs| ==> |vs[i]| > 0
    ensures forall i :: 0 <= i < |vs| ==>
              multiset(vs[i]) == multiset(SortByHead(cs)[i].shots) && SortedBy(vs[i], NumberLe)
    ensures multiset(Flatten(vs)) == multiset(AllShots(cs))
  {
    EmptyCountZero(cs);
    var items := SortByHead(cs);
    SortedNonEmpty(cs, items);
    var vs := SortWithin(items);
    FlattenPointwise(vs, Values(items));
    vs
  }

  lemma SortedNonEmpty(cs: seq<Entry>, items: seq<Entry>)
    requires multiset(items) == multiset(cs)
    requires forall i :: 0 <= i < |cs| ==> |cs[i].shots| > 0
    ensures forall i :: 0 <= i < |items| ==> |items[i].shots| > 0
  {
    forall i | 0 <= i < |items|
      ensures |items[i].shots| > 0
    {
      assert items[i] in multiset(cs);
    }
  }

  /** `remove_empty_and_reindex` of the dict `{i: slot}` that
      `merge_small_clusters` leaves: no slot there holds one shot, so every
      scene holds two or more. */
  function Clean(slots: seq<seq<Shot>>): (out: seq<Entry>)
    requires forall k :: 0 <= k < |slots| ==> |slots[k]| != 1
    ensures |out| <= |slots|
    ensures forall i :: 0 <= i < |out| ==> out[i].key == i + 1 && |out[i].shots| >= 2
    ensures AllShots(out) == Flatten(slots)
  {
    var numbered := Number(slots, 0);
    assert Values(numbered) == slots;
    var out := PruneAndReindex(numbered);
    CleanSizes(numbered, out);
    out
  }

  lemma CleanSizes(numbered: seq<Entry>, out: seq<Entry>)
    requires forall k :: 0 <= k < |numbered| ==> |numbered[k].shots| != 1
    requires Values(out) == NonEmptyValues(numbered)
    ensures forall i :: 0 <= i < |out| ==> |out[i].shots| >= 2
  {
    forall i | 0 <= i < |out|
      ensures |out[i].shots| >= 2
    {
      assert out[i].shots == Values(out)[i];
      assert Values(out)[i] in NonEmptyValues(numbered);
      NonEmptyKept(numbered, out[i].shots);
    }
  }

  /** The whole tail from the clusters the labels refer to: regroup by label,
      `reindex_clusters` with its default threshold, then `Arrange`. When it
      succeeds the scenes are keyed `1..N`, each holds at least two shots, and
      together they hold exactly the shots of the labelled clusters. */
  method ProcessTail(cs: seq<Entry>, labels: seq<int>) returns (r: Result<seq<Entry>>)
    requires |labels| == |cs|
    ensures |cs| == 0 ==> r == Failure(EmptyRegistry)
    ensures r.Success? ==> forall i :: 0 <= i < |r.value| ==> r.value[i].key == i + 1
    ensures r.Success? ==> forall i :: 0 <= i < |r.value| ==> |r.value[i].shots| >= 2
    ensures r.Success? ==> multiset(AllShots(r.value)) == multiset(AllShots(cs))
    ensures r.Success? ==> var split := Reindex(Regroup(cs, labels), 10);
      && split.Success? && EmptyCount(split.value) == 0
      && AllShots(r.value) == Flatten(Prepare(split.value))
  {
    var grouped := Regroup(cs, labels);
    var split := Reindex(grouped, 10);
    if split.Failure? {
      return Failure(split.error);
    }
    r := Arrange(split.value);
  }
}
