/** The cluster registry: an insertion-ordered map from integer cluster keys to
    shot lists (a Python dict), with `reindex_clusters` and
    `remove_empty_and_reindex`. */
module Registry {
  import opened Wrappers
  import opened Seqs
  import opened Sorting
  import opened Text
  import opened Shots
  import opened Splitter

  /** One entry `key: [shots]` of a cluster map. */
  datatype Entry = Entry(key: int, shots: seq<Shot>)

  /** The shot lists of a map, in iteration order. */
  function Values(cs: seq<Entry>): (vs: seq<seq<Shot>>)
    ensures |vs| == |cs|
    ensures forall i :: 0 <= i < |cs| ==> vs[i] == cs[i].shots
  {
    seq(|cs|, i requires 0 <= i < |cs| => cs[i].shots)
  }

  /** Every shot of the map, cluster after cluster. */
  function AllShots(cs: seq<Entry>): seq<Shot>
  {
    Flatten(Values(cs))
  }

  /** The number of clusters with no shot. */
  function EmptyCount(cs: seq<Entry>): nat
  {
    if |cs| == 0 then 0 else (if |cs[0].shots| == 0 then 1 else 0) + EmptyCount(cs[1..])
  }

  /** The shot lists that are not empty, in iteration order. */
  function NonEmptyValues(cs: seq<Entry>): seq<seq<Shot>>
  {
    if |cs| == 0 then []
    else (if |cs[0].shots| == 0 then [] else [cs[0].shots]) + NonEmptyValues(cs[1..])
  }

  /** `max(map(int, clusters.keys()))`. */
  function MaxKey(cs: seq<Entry>): (m: int)
    requires |cs| > 0
    ensures forall i :: 0 <= i < |cs| ==> cs[i].key <= m
  {
    if |cs| == 1 then cs[0].key
    else
      var m := MaxKey(cs[1..]);
      assert forall i :: 1 <= i < |cs| ==> cs[i] == cs[1..][i - 1];
      if cs[0].key > m then cs[0].key else m
  }

  /** The largest key is one of the keys. Kept apart from `MaxKey`'s contract:
      as a postcondition its witness feeds back into every numbering from
      `MaxKey(cs) + 1`. */
  lemma {:induction false} MaxKeyAttained(cs: seq<Entry>)
    requires |cs| > 0
    ensures exists i :: 0 <= i < |cs| && cs[i].key == MaxKey(cs)
  {
    if |cs| == 1 {
      assert cs[0].key == MaxKey(cs);
    } else {
      MaxKeyAttained(cs[1..]);
      var i :| 0 <= i < |cs[1..]| && cs[1..][i].key == MaxKey(cs[1..]);
      assert cs[1..][i] == cs[i + 1];
      if cs[0].key <= MaxKey(cs[1..]) {
        assert cs[i + 1].key == MaxKey(cs);
      } else {
        assert cs[0].key == MaxKey(cs);
      }
    }
  }

  /** Keys `next, next + 1, ...` for `groups`, in order. */
  function Number(groups: seq<seq<Shot>>, next: int): (r: seq<Entry>)
    ensures |r| == |groups|
    ensures forall i :: 0 <= i < |r| ==> r[i] == Entry(next + i, groups[i])
  {
    seq(|groups|, i requires 0 <= i < |groups| => Entry(next + i, groups[i]))
  }

  /** A cluster `split_cluster` rejects: two shots or more, one without ordinal. */
  predicate Unsplittable(shots: seq<Shot>)
  {
    |shots| >= 2 && !AllNumbered(shots)
  }

  // ----- reindex_clusters -----

  /** `sorted(shots)`: Python's string order. */
  function LexSort(shots: seq<Shot>): (r: seq<Shot>)
    ensures multiset(r) == multiset(shots)
    ensures SortedBy(r, StrLe)
  {
    StrLeIsTotalPreorder();
    SortBySorted(shots, StrLe);
    SortBy(shots, StrLe)
  }

  /** The pieces `split_cluster(sorted(shots), threshold)` cuts one cluster
      into, or none where it raises. */
  function SplitPieces(shots: seq<Shot>, threshold: int): seq<seq<Shot>>
  {
    match Split(LexSort(shots), threshold)
    case Success(groups) => groups
    case Failure(_) => []
  }

  /** The pieces of each cluster, in iteration order. */
  function Blocks(cs: seq<Entry>, threshold: int): (b: seq<seq<seq<Shot>>>)
    ensures |b| == |cs|
    ensures forall k :: 0 <= k < |cs| ==> b[k] == SplitPieces(cs[k].shots, threshold)
  {
    seq(|cs|, k requires 0 <= k < |cs| => SplitPieces(cs[k].shots, threshold))
  }

  /** The pieces of every cluster, cluster after cluster. */
  function AllPieces(cs: seq<Entry>, threshold: int): seq<seq<Shot>>
  {
    Flatten(Blocks(cs, threshold))
  }

  /** The loop of `reindex_clusters` from the entry `cs[0]` on, with `next` the
      next key to hand out: the pieces of every cluster, numbered in order. */
  function ReindexFrom(cs: seq<Entry>, next: int, threshold: int): (r: Result<seq<Entry>>)
    ensures r.Failure? <==> exists i :: 0 <= i < |cs| && Unsplittable(cs[i].shots)
    ensures r.Failure? ==> r.error == FormatError
    ensures r.Success? ==> r.value == Number(AllPieces(cs, threshold), next)
    decreases |cs|
  {
    if |cs| == 0 then Success([])
    else
      var sorted := LexSort(cs[0].shots);
      SameShotsNumbered(sorted, cs[0].shots);
      UnsplittableCons(cs);
      var groups :- Split(sorted, threshold);
      var rest :- ReindexFrom(cs[1..], next + |groups|, threshold);
      ReindexPieces(cs, groups, rest, next, threshold);
      Success(Number(groups, next) + rest)
  }

  /** Some cluster is unsplittable exactly when the first one is or one of the rest is. */
  lemma UnsplittableCons(cs: seq<Entry>)
    requires |cs| > 0
    ensures (exists i :: 0 <= i < |cs| && Unsplittable(cs[i].shots))
        <==> Unsplittable(cs[0].shots) || exists i :: 0 <= i < |cs[1..]| && Unsplittable(cs[1..][i].shots)
  {
    if exists i :: 0 <= i < |cs| && Unsplittable(cs[i].shots) {
      var i :| 0 <= i < |cs| && Unsplittable(cs[i].shots);
      if i > 0 {
        assert cs[1..][i - 1] == cs[i];
      }
    }
    if exists i :: 0 <= i < |cs[1..]| && Unsplittable(cs[1..][i].shots) {
      var i :| 0 <= i < |cs[1..]| && Unsplittable(cs[1..][i].shots);
      assert cs[1..][i] == cs[i + 1];
    }
  }

  lemma SameShotsNumbered(a: seq<Shot>, b: seq<Shot>)
    requires multiset(a) == multiset(b)
    ensures AllNumbered(a) <==> AllNumbered(b)
    ensures |a| == |b|
  {
    assert |a| == |multiset(a)| == |multiset(b)| == |b|;
    forall i | 0 <= i < |a|
      ensures a[i] in b
    {
      assert a[i] in multiset(a);
    }
    forall i | 0 <= i < |b|
      ensures b[i] in a
    {
      assert b[i] in multiset(b);
    }
  }

  lemma ValuesAppend(a: seq<Entry>, b: seq<Entry>)
    ensures Values(a + b) == Values(a) + Values(b)
  {
  }

  lemma {:induction false} EmptyCountAppend(a: seq<Entry>, b: seq<Entry>)
    ensures EmptyCount(a + b) == EmptyCount(a) + EmptyCount(b)
  {
    if |a| > 0 {
      assert (a + b)[1..] == a[1..] + b;
      EmptyCountAppend(a[1..], b);
    } else {
      assert a + b == b;
    }
  }

  /** One step of the loop: the pieces of `cs[0]`, then those of the rest. */
  lemma ReindexPieces(cs: seq<Entry>, groups: seq<seq<Shot>>, rest: seq<Entry>, next: int, threshold: int)
    requires |cs| > 0
    requires Split(LexSort(cs[0].shots), threshold) == Success(groups)
    requires rest == Number(AllPieces(cs[1..], threshold), next + |groups|)
    ensures Number(groups, next) + rest == Number(AllPieces(cs, threshold), next)
  {
    AllPiecesCons(cs, threshold);
    assert SplitPieces(cs[0].shots, threshold) == groups;
    NumberAppend(groups, AllPieces(cs[1..], threshold), next);
  }

  lemma AllPiecesCons(cs: seq<Entry>, threshold: int)
    requires |cs| > 0
    ensures AllPieces(cs, threshold) == SplitPieces(cs[0].shots, threshold) + AllPieces(cs[1..], threshold)
  {
    var b := Blocks(cs, threshold);
    assert b[1..] == Blocks(cs[1..], threshold);
  }

  lemma NumberAppend(a: seq<seq<Shot>>, b: seq<seq<Shot>>, next: int)
    ensures Number(a + b, next) == Number(a, next) + Number(b, next + |a|)
  {
  }

  /** What the pieces keep of the clusters they are cut from, when no
      cluster is rejected: at least one piece per cluster, the same shots,
      tight pieces, and one empty piece per empty cluster. */
  lemma {:induction false} AllPiecesKeep(cs: seq<Entry>, threshold: int)
    requires forall i :: 0 <= i < |cs| ==> !Unsplittable(cs[i].shots)
    ensures |AllPieces(cs, threshold)| >= |cs|
    ensures multiset(Flatten(AllPieces(cs, threshold))) == multiset(AllShots(cs))
    ensures forall i :: 0 <= i < |AllPieces(cs, threshold)| ==> Tight(AllPieces(cs, threshold)[i], threshold)
    ensures EmptyCount(Number(AllPieces(cs, threshold), 0)) == EmptyCount(cs)
  {
    if |cs| == 0 {
      assert AllPieces(cs, threshold) == [];
      assert Values(cs) == [];
    } else {
      var t := cs[1..];
      assert forall i :: 0 <= i < |t| ==> t[i] == cs[i + 1];
      AllPiecesKeep(t, threshold);
      assert !Unsplittable(cs[0].shots);
      HeadPieces(cs[0].shots, threshold);
      AllPiecesCons(cs, threshold);
      PiecesStep(cs, SplitPieces(cs[0].shots, threshold), AllPieces(t, threshold), threshold);
    }
  }

  /** The pieces of one cluster `split_cluster` accepts. */
  lemma HeadPieces(x: seq<Shot>, threshold: int)
    requires !Unsplittable(x)
    ensures var groups := SplitPieces(x, threshold);
      && |groups| >= 1
      && multiset(Flatten(groups)) == multiset(x)
      && (forall i :: 0 <= i < |groups| ==> Tight(groups[i], threshold))
      && EmptyCount(Number(groups, 0)) == (if |x| == 0 then 1 else 0)
  {
    var sorted := LexSort(x);
    SameShotsNumbered(sorted, x);
    var groups := Split(sorted, threshold).value;
    SplitGroups(x, sorted, groups, threshold);
  }

  lemma PiecesStep(cs: seq<Entry>, groups: seq<seq<Shot>>, p: seq<seq<Shot>>, threshold: int)
    requires |cs| > 0
    requires |groups| >= 1
    requires multiset(Flatten(groups)) == multiset(cs[0].shots)
    requires forall i :: 0 <= i < |groups| ==> Tight(groups[i], threshold)
    requires EmptyCount(Number(groups, 0)) == (if |cs[0].shots| == 0 then 1 else 0)
    requires |p| >= |cs| - 1
    requires multiset(Flatten(p)) == multiset(AllShots(cs[1..]))
    requires forall i :: 0 <= i < |p| ==> Tight(p[i], threshold)
    requires EmptyCount(Number(p, 0)) == EmptyCount(cs[1..])
    ensures |groups + p| >= |cs|
    ensures multiset(Flatten(groups + p)) == multiset(AllShots(cs))
    ensures forall i :: 0 <= i < |groups + p| ==> Tight((groups + p)[i], threshold)
    ensures EmptyCount(Number(groups + p, 0)) == EmptyCount(cs)
  {
    PiecesShots(cs, groups, p);
    TightAppend(groups, p, threshold);
    PiecesEmpty(cs, groups, p);
  }

  lemma PiecesShots(cs: seq<Entry>, groups: seq<seq<Shot>>, p: seq<seq<Shot>>)
    requires |cs| > 0
    requires multiset(Flatten(groups)) == multiset(cs[0].shots)
    requires multiset(Flatten(p)) == multiset(AllShots(cs[1..]))
    ensures multiset(Flatten(groups + p)) == multiset(AllShots(cs))
  {
    FlattenAppend(groups, p);
    ConsValues(cs);
  }

  lemma TightAppend(a: seq<seq<Shot>>, b: seq<seq<Shot>>, threshold: int)
    requires forall i :: 0 <= i < |a| ==> Tight(a[i], threshold)
    requires forall i :: 0 <= i < |b| ==> Tight(b[i], threshold)
    ensures forall i :: 0 <= i < |a + b| ==> Tight((a + b)[i], threshold)
  {
    forall i | 0 <= i < |a + b|
      ensures Tight((a + b)[i], threshold)
    {
      if i >= |a| {
        assert (a + b)[i] == b[i - |a|];
      }
    }
  }

  lemma PiecesEmpty(cs: seq<Entry>, groups: seq<seq<Shot>>, p: seq<seq<Shot>>)
    requires |cs| > 0
    requires EmptyCount(Number(groups, 0)) == (if |cs[0].shots| == 0 then 1 else 0)
    requires EmptyCount(Number(p, 0)) == EmptyCount(cs[1..])
    ensures EmptyCount(Number(groups + p, 0)) == EmptyCount(cs)
  {
    NumberAppend(groups, p, 0);
    EmptyCountAppend(Number(groups, 0), Number(p, |groups|));
    EmptyCountRenumber(p, |groups|, 0);
    ConsEmptyCount(cs);
  }

  /** What numbering the pieces from `next` gives. */
  lemma NumberedPieces(cs: seq<Entry>, threshold: int, next: int)
    requires forall i :: 0 <= i < |cs| ==> !Unsplittable(cs[i].shots)
    ensures var r := Number(AllPieces(cs, threshold), next);
      && |r| >= |cs|
      && multiset(AllShots(r)) == multiset(AllShots(cs))
      && EmptyCount(r) == EmptyCount(cs)
      && forall i :: 0 <= i < |r| ==> Tight(r[i].shots, threshold)
  {
    var p := AllPieces(cs, threshold);
    AllPiecesKeep(cs, threshold);
    assert Values(Number(p, next)) == p;
    EmptyCountRenumber(p, 0, next);
  }

  /** What the split of one cluster (in any order) contributes. */
  lemma SplitGroups(x: seq<Shot>, sorted: seq<Shot>, groups: seq<seq<Shot>>, threshold: int)
    requires multiset(sorted) == multiset(x)
    requires Split(sorted, threshold) == Success(groups)
    ensures |groups| >= 1
    ensures multiset(Flatten(groups)) == multiset(x)
    ensures forall i :: 0 <= i < |groups| ==> Tight(groups[i], threshold)
    ensures EmptyCount(Number(groups, 0)) == (if |x| == 0 then 1 else 0)
  {
    SameShotsNumbered(sorted, x);
    assert |sorted| == 0 ==> sorted == [] && groups == [[]];
    NumberEmptyCount(groups, |x| == 0);
  }

  /** Numbering the groups of one split: one empty cluster comes from the
      empty cluster, none from any other. */
  lemma NumberEmptyCount(groups: seq<seq<Shot>>, empty: bool)
    requires empty ==> groups == [[]]
    requires !empty ==> forall i :: 0 <= i < |groups| ==> |groups[i]| > 0
    ensures EmptyCount(Number(groups, 0)) == (if empty then 1 else 0)
  {
    var n := Number(groups, 0);
    if empty {
      assert n == [Entry(0, [])];
      assert n[1..] == [];
    } else {
      NoEmpty(n);
    }
  }

  lemma {:induction false} EmptyCountRenumber(groups: seq<seq<Shot>>, a: int, b: int)
    ensures EmptyCount(Number(groups, a)) == EmptyCount(Number(groups, b))
    decreases |groups|
  {
    if |groups| > 0 {
      assert Number(groups, a)[1..] == Number(groups[1..], a + 1);
      assert Number(groups, b)[1..] == Number(groups[1..], b + 1);
      EmptyCountRenumber(groups[1..], a + 1, b + 1);
    }
  }

  lemma ConsEmptyCount(cs: seq<Entry>)
    requires |cs| > 0
    ensures EmptyCount(cs) == (if |cs[0].shots| == 0 then 1 else 0) + EmptyCount(cs[1..])
  {
  }

  lemma {:induction false} NoEmpty(cs: seq<Entry>)
    requires forall i :: 0 <= i < |cs| ==> |cs[i].shots| > 0
    ensures EmptyCount(cs) == 0
  {
    if |cs| > 0 {
      assert forall i :: 1 <= i < |cs| ==> cs[1..][i - 1] == cs[i];
      NoEmpty(cs[1..]);
    }
  }

  /** `reindex_clusters(clusters, threshold)`: every cluster, in iteration order,
      is sorted, split, and each piece gets the next fresh key after the largest
      existing one. An empty map makes `max()` raise. */
  function Reindex(cs: seq<Entry>, threshold: int): (r: Result<seq<Entry>>)
    ensures |cs| == 0 ==> r == Failure(EmptyRegistry)
    ensures |cs| > 0 ==> (r.Failure? <==> exists i :: 0 <= i < |cs| && Unsplittable(cs[i].shots))
    ensures |cs| > 0 && r.Failure? ==> r.error == FormatError
    ensures r.Success? ==> Values(r.value) == AllPieces(cs, threshold)
    ensures r.Success? ==> forall i :: 0 <= i < |r.value| ==> r.value[i].key == MaxKey(cs) + 1 + i
    ensures r.Success? ==> |r.value| >= |cs|
    ensures r.Success? ==> forall i, j :: 0 <= i < |r.value| && 0 <= j < |cs| ==> r.value[i].key > cs[j].key
    ensures r.Success? ==> multiset(AllShots(r.value)) == multiset(AllShots(cs))
    ensures r.Success? ==> EmptyCount(r.value) == EmptyCount(cs)
    ensures r.Success? ==> forall i :: 0 <= i < |r.value| ==> Tight(r.value[i].shots, threshold)
  {
    if |cs| == 0 then Failure(EmptyRegistry)
    else
      var m := MaxKey(cs);
      var r := ReindexFrom(cs, m + 1, threshold);
      if r.Success? then
        ReindexKeys(cs, threshold, m, r.value);
        ReindexContents(cs, threshold, m, r.value);
        r
      else r
  }

  lemma ReindexKeys(cs: seq<Entry>, threshold: int, m: int, r: seq<Entry>)
    requires |cs| > 0 && m == MaxKey(cs)
    requires r == Number(AllPieces(cs, threshold), m + 1)
    ensures forall i :: 0 <= i < |r| ==> r[i].key == m + 1 + i
    ensures forall i, j :: 0 <= i < |r| && 0 <= j < |cs| ==> r[i].key > cs[j].key
  {
  }

  lemma ReindexContents(cs: seq<Entry>, threshold: int, m: int, r: seq<Entry>)
    requires forall i :: 0 <= i < |cs| ==> !Unsplittable(cs[i].shots)
    requires r == Number(AllPieces(cs, threshold), m + 1)
    ensures Values(r) == AllPieces(cs, threshold)
    ensures |r| >= |cs|
    ensures multiset(AllShots(r)) == multiset(AllShots(cs))
    ensures EmptyCount(r) == EmptyCount(cs)
    ensures forall i :: 0 <= i < |r| ==> Tight(r[i].shots, threshold)
  {
    NumberedPieces(cs, threshold, m + 1);
    assert Values(r) == AllPieces(cs, threshold);
  }

  // ----- remove_empty_and_reindex -----

  /** The comprehension pair of `remove_empty_and_reindex` from `cs[0]` on, with
      `next` the next key of `enumerate(..., start=1)`. */
  function PruneFrom(cs: seq<Entry>, next: int): (r: seq<Entry>)
    ensures |r| == |cs| - EmptyCount(cs)
    ensures forall i :: 0 <= i < |r| ==> r[i].key == next + i && |r[i].shots| > 0
    ensures Values(r) == NonEmptyValues(cs)
    ensures AllShots(r) == AllShots(cs)
    decreases |cs|
  {
    if |cs| == 0 then []
    else if |cs[0].shots| == 0 then
      var rest := PruneFrom(cs[1..], next);
      DropEmptyHead(cs);
      rest
    else
      var rest := PruneFrom(cs[1..], next + 1);
      KeepHead(cs, rest, next);
      [Entry(next, cs[0].shots)] + rest
  }

  lemma DropEmptyHead(cs: seq<Entry>)
    requires |cs| > 0 && |cs[0].shots| == 0
    ensures AllShots(cs) == AllShots(cs[1..])
    ensures NonEmptyValues(cs) == NonEmptyValues(cs[1..])
    ensures EmptyCount(cs) == 1 + EmptyCount(cs[1..])
  {
    ConsValues(cs);
  }

  lemma KeepHead(cs: seq<Entry>, rest: seq<Entry>, next: int)
    requires |cs| > 0 && |cs[0].shots| > 0
    requires Values(rest) == NonEmptyValues(cs[1..])
    requires AllShots(rest) == AllShots(cs[1..])
    ensures Values([Entry(next, cs[0].shots)] + rest) == NonEmptyValues(cs)
    ensures AllShots([Entry(next, cs[0].shots)] + rest) == AllShots(cs)
    ensures EmptyCount(cs) == EmptyCount(cs[1..])
  {
    var r := [Entry(next, cs[0].shots)] + rest;
    ConsValues(cs);
    ConsValues(r);
    assert r[1..] == rest;
  }

  lemma ConsValues(cs: seq<Entry>)
    requires |cs| > 0
    ensures Values(cs) == [cs[0].shots] + Values(cs[1..])
    ensures AllShots(cs) == cs[0].shots + AllShots(cs[1..])
  {
    var v := Values(cs);
    assert v == [cs[0].shots] + Values(cs[1..]);
    assert v[1..] == Values(cs[1..]);
  }

  /** `remove_empty_and_reindex(clusters)`: drops the empty clusters and keys the
      rest `1..N` in iteration order, values unchanged. */
  function PruneAndReindex(cs: seq<Entry>): (r: seq<Entry>)
    ensures |r| == |cs| - EmptyCount(cs)
    ensures forall i :: 0 <= i < |r| ==> r[i].key == i + 1 && |r[i].shots| > 0
    ensures Values(r) == NonEmptyValues(cs)
    ensures AllShots(r) == AllShots(cs)
  {
    PruneFrom(cs, 1)
  }

  // ----- examples -----

  /** A two-shot cluster already in string and ordinal order, with a gap
      within the threshold, comes back as it is. */
  lemma PairStays(a: Shot, b: Shot, threshold: int)
    requires StrLe(a, b) && Numbered(a) && Numbered(b)
    requires Key(a) <= Key(b) && Gap(a, b) <= threshold
    ensures Split(LexSort([a, b]), threshold) == Success([[a, b]])
  {
    var xs := [a, b];
    forall i | 0 <= i < |xs| - 1
      ensures StrLe(xs[i], xs[i + 1]) && OrdinalLe(xs[i], xs[i + 1])
    {
    }
    SortByOfSorted(xs, StrLe);
    assert AllNumbered(xs) by {
      forall i | 0 <= i < 2
        ensures Numbered(xs[i])
      {
      }
    }
    SplitOfSorted(xs, threshold);
    RunsPair(a, b, threshold);
  }

  /** The docstring's input is `{'0': ['shot_1', 'shot_2'], '1': ['shot_10', 'shot_15']}`
      with the default threshold. Its first cluster stays whole and gets key 2. */
  lemma ReindexDocFirst()
    ensures Split(LexSort(["shot_1", "shot_2"]), 10) == Success([["shot_1", "shot_2"]])
  {
    DocShotOrdinals();
    PairStays("shot_1", "shot_2", 10);
  }

  /** The second cluster of the docstring's input is not cut either (10 and 15
      are 5 apart), so the code returns `'3': ['shot_10', 'shot_15']` where
      the docstring shows `'shot_15'` in a cluster `'4'` of its own. */
  lemma ReindexDocSecond()
    ensures Split(LexSort(["shot_10", "shot_15"]), 10) == Success([["shot_10", "shot_15"]])
  {
    DocShotOrdinals();
    PairStays("shot_10", "shot_15", 10);
  }

  /** The docstring's whole input: neither cluster is cut, so the result is
      `{2: ['shot_1', 'shot_2'], 3: ['shot_10', 'shot_15']}`, not the sample
      return value with `'shot_15'` on its own. */
  lemma ReindexDocExample()
    ensures Reindex([Entry(0, ["shot_1", "shot_2"]), Entry(1, ["shot_10", "shot_15"])], 10)
         == Success([Entry(2, ["shot_1", "shot_2"]), Entry(3, ["shot_10", "shot_15"])])
  {
    var a: seq<Shot> := ["shot_1", "shot_2"];
    var b: seq<Shot> := ["shot_10", "shot_15"];
    ReindexDocFirst();
    ReindexDocSecond();
    ReindexTwoWhole(Entry(0, a), Entry(1, b), 10);
  }

  /** Two clusters with keys 0 and 1, each of which `split_cluster` keeps whole,
      get the keys 2 and 3. */
  lemma ReindexTwoWhole(x: Entry, y: Entry, threshold: int)
    requires x.key == 0 && y.key == 1
    requires Split(LexSort(x.shots), threshold) == Success([x.shots])
    requires Split(LexSort(y.shots), threshold) == Success([y.shots])
    ensures Reindex([x, y], threshold) == Success([Entry(2, x.shots), Entry(3, y.shots)])
  {
    var cs := [x, y];
    MaxKeyTwo(x, y);
    WholeSplittable(x.shots, threshold);
    WholeSplittable(y.shots, threshold);
    TwoAccepted(x, y, threshold);
    WholePieces(x.shots, threshold);
    WholePieces(y.shots, threshold);
    TwoWholePieces(x, y, threshold);
    var r := Reindex(cs, threshold).value;
    assert Values(r) == [x.shots, y.shots];
    assert r[0] == Entry(2, x.shots);
    assert r[1] == Entry(3, y.shots);
    PairIs(r, Entry(2, x.shots), Entry(3, y.shots));
  }

  lemma TwoAccepted(x: Entry, y: Entry, threshold: int)
    requires !Unsplittable(x.shots) && !Unsplittable(y.shots)
    ensures Reindex([x, y], threshold).Success?
  {
    var cs := [x, y];
    assert forall i :: 0 <= i < |cs| ==> cs[i] == x || cs[i] == y;
    NoneRejected(cs, threshold);
  }

  lemma NoneRejected(cs: seq<Entry>, threshold: int)
    requires |cs| > 0
    requires forall i :: 0 <= i < |cs| ==> !Unsplittable(cs[i].shots)
    ensures Reindex(cs, threshold).Success?
  {
  }

  lemma TwoWholePieces(x: Entry, y: Entry, threshold: int)
    requires SplitPieces(x.shots, threshold) == [x.shots]
    requires SplitPieces(y.shots, threshold) == [y.shots]
    ensures AllPieces([x, y], threshold) == [x.shots, y.shots]
  {
    AllPiecesTwo([x, y], threshold);
    assert [x, y][0] == x && [x, y][1] == y;
  }

  lemma WholePieces(x: seq<Shot>, threshold: int)
    requires Split(LexSort(x), threshold) == Success([x])
    ensures SplitPieces(x, threshold) == [x]
  {
  }

  lemma PairIs(v: seq<Entry>, a: Entry, b: Entry)
    requires |v| == 2 && v[0] == a && v[1] == b
    ensures v == [a, b]
  {
  }

  lemma MaxKeyTwo(x: Entry, y: Entry)
    requires x.key == 0 && y.key == 1
    ensures MaxKey([x, y]) == 1
  {
    assert [x, y][1..] == [y];
  }

  lemma AllPiecesTwo(cs: seq<Entry>, threshold: int)
    requires |cs| == 2
    ensures AllPieces(cs, threshold) == SplitPieces(cs[0].shots, threshold) + SplitPieces(cs[1].shots, threshold)
  {
    FlattenPair(Blocks(cs, threshold));
  }

  /** A cluster `split_cluster` accepts after `sorted` is not rejected. */
  lemma WholeSplittable(x: seq<Shot>, threshold: int)
    requires Split(LexSort(x), threshold).Success?
    ensures !Unsplittable(x)
  {
    SameShotsNumbered(LexSort(x), x);
  }

  /** The docstring's example `{0: ['shot_1', 'shot_2'], 1: [], 2: ['shot_3']}`
      becomes `{1: ['shot_1', 'shot_2'], 2: ['shot_3']}`. */
  lemma PruneDocExample(a: Shot, b: Shot, c: Shot)
    ensures PruneAndReindex([Entry(0, [a, b]), Entry(1, []), Entry(2, [c])])
         == [Entry(1, [a, b]), Entry(2, [c])]
  {
    var cs := [Entry(0, [a, b]), Entry(1, []), Entry(2, [c])];
    assert cs[1..] == [Entry(1, []), Entry(2, [c])];
    assert cs[1..][1..] == [Entry(2, [c])];
    assert cs[1..][1..][1..] == [];
    assert PruneFrom(cs[1..][1..], 2) == [Entry(2, [c])] + [];
    assert PruneFrom(cs[1..], 2) == [Entry(2, [c])];
  }
}
