/** `merge_cluster_data`: one description for a whole cluster, built from the
    descriptions of its shots. */
module Aggregate {
  import opened Wrappers
  import opened Seqs
  import opened Text
  import opened Shots

  // ----- Counter(xs).most_common(1)[0][0] -----

  function Count<T(==)>(xs: seq<T>, v: T): nat
  {
    multiset(xs)[v]
  }

  /** `v` is what `most_common(1)` picks: a value of `xs` no other value
      outnumbers, and among those the one that occurs first. A `Counter` lists
      values in first-occurrence order and `most_common(1)` keeps the first
      maximal one. */
  predicate IsMostCommon<T(==)>(xs: seq<T>, v: T)
  {
    && v in xs
    && (forall y :: y in xs ==> Count(xs, y) <= Count(xs, v))
    && (forall j :: 0 <= j < |xs| && Count(xs, xs[j]) == Count(xs, v) ==> FirstIndex(xs, v) <= j)
  }

  /** The scan of `max` over the values from position `i` on, `best` being the
      current choice; a value replaces it only when it occurs strictly more often. */
  function PickFrom<T(==)>(xs: seq<T>, i: nat, best: T): T
    requires i <= |xs|
    decreases |xs| - i
  {
    if i == |xs| then best
    else PickFrom(xs, i + 1, if Count(xs, xs[i]) > Count(xs, best) then xs[i] else best)
  }

  /** `Counter(xs).most_common(1)[0][0]`; IndexError on an empty list. */
  function MostCommon<T(==)>(xs: seq<T>): (r: Result<T>)
    ensures r.Failure? <==> |xs| == 0
    ensures r.Failure? ==> r.error == EmptyAggregate
    ensures r.Success? ==> IsMostCommon(xs, r.value)
  {
    if |xs| == 0 then Failure(EmptyAggregate)
    else
      PickFromSpec(xs, 1, xs[0]);
      Success(PickFrom(xs, 1, xs[0]))
  }

  /** What the scan keeps: the earliest most frequent of the values before `i`. */
  predicate BestSoFar<T(==)>(xs: seq<T>, i: nat, best: T)
    requires i <= |xs|
  {
    && best in xs[..i]
    && (forall j :: 0 <= j < i ==> Count(xs, xs[j]) <= Count(xs, best))
    && (forall j :: 0 <= j < i && Count(xs, xs[j]) == Count(xs, best) ==> FirstIndex(xs, best) <= j)
  }

  lemma {:induction false} PickFromSpec<T>(xs: seq<T>, i: nat, best: T)
    requires 1 <= i <= |xs| && BestSoFar(xs, i, best)
    ensures IsMostCommon(xs, PickFrom(xs, i, best))
    decreases |xs| - i
  {
    if i == |xs| {
      BestOfAll(xs, best);
    } else if Count(xs, xs[i]) > Count(xs, best) {
      BestReplaced(xs, i, best);
      PickFromSpec(xs, i + 1, xs[i]);
    } else {
      BestKept(xs, i, best);
      PickFromSpec(xs, i + 1, best);
    }
  }

  /** Once the scan has seen every value, its choice is the most common one. */
  lemma BestOfAll<T>(xs: seq<T>, best: T)
    requires BestSoFar(xs, |xs|, best)
    ensures IsMostCommon(xs, best)
  {
    assert xs[..|xs|] == xs;
    forall y | y in xs
      ensures Count(xs, y) <= Count(xs, best)
    {
      var k :| 0 <= k < |xs| && xs[k] == y;
    }
  }

  /** A value that does not occur more often leaves the choice as it is. */
  lemma BestKept<T>(xs: seq<T>, i: nat, best: T)
    requires i < |xs| && BestSoFar(xs, i, best)
    requires Count(xs, xs[i]) <= Count(xs, best)
    ensures BestSoFar(xs, i + 1, best)
  {
    assert xs[..i + 1] == xs[..i] + [xs[i]];
    assert FirstIndex(xs, best) < i by {
      var k :| 0 <= k < i && xs[k] == best;
    }
  }

  /** A value that occurs more often replaces the choice; it is new at `i`. */
  lemma BestReplaced<T>(xs: seq<T>, i: nat, best: T)
    requires i < |xs| && BestSoFar(xs, i, best)
    requires Count(xs, xs[i]) > Count(xs, best)
    ensures BestSoFar(xs, i + 1, xs[i])
  {
    assert xs[..i + 1] == xs[..i] + [xs[i]];
    assert FirstIndex(xs, xs[i]) <= i;
  }

  /** `IsMostCommon` singles out one value, so it fully describes `MostCommon`. */
  lemma MostCommonUnique<T>(xs: seq<T>, v: T)
    requires IsMostCommon(xs, v)
    ensures MostCommon(xs) == Success(v)
  {
    var w := MostCommon(xs).value;
    assert Count(xs, v) == Count(xs, w);
    assert FirstIndex(xs, w) <= FirstIndex(xs, v);
    assert FirstIndex(xs, v) <= FirstIndex(xs, w);
  }

  /** Ties go to the value seen first; otherwise the most frequent wins. */
  lemma MostCommonExamples(x: string, y: string)
    requires x != y
    ensures MostCommon([x, y, y]) == Success(y)
    ensures MostCommon([x, y, y, x]) == Success(x)
  {
    var a := [x, y, y];
    assert multiset(a)[x] == 1 && multiset(a)[y] == 2;
    assert FirstIndex(a, y) == 1;
    MostCommonUnique(a, y);
    var b := [x, y, y, x];
    assert multiset(b)[x] == 2 && multiset(b)[y] == 2;
    assert FirstIndex(b, x) == 0;
    MostCommonUnique(b, x);
  }

  // ----- the numeric means -----

  function Sum(xs: seq<real>): real
  {
    if |xs| == 0 then 0.0 else xs[0] + Sum(xs[1..])
  }

  /** `m` times the number of values is their sum. */
  predicate IsMean(xs: seq<real>, m: real)
  {
    |xs| > 0 && m * |xs| as real == Sum(xs)
  }

  /** `sum(xs) / len(xs) if xs else 0`. */
  function Mean(xs: seq<real>): (m: real)
    ensures |xs| > 0 ==> IsMean(xs, m)
    ensures |xs| == 0 ==> m == 0.0
  {
    if |xs| == 0 then 0.0 else Sum(xs) / |xs| as real
  }

  lemma {:induction false} SumConstant(xs: seq<real>, c: real)
    requires forall i :: 0 <= i < |xs| ==> xs[i] == c
    ensures Sum(xs) == c * |xs| as real
  {
    if |xs| > 0 {
      SumConstant(xs[1..], c);
    }
  }

  /** The mean of equal values is that value. */
  lemma MeanConstant(xs: seq<real>, c: real)
    requires |xs| > 0
    requires forall i :: 0 <= i < |xs| ==> xs[i] == c
    ensures Mean(xs) == c
  {
    SumConstant(xs, c);
  }

  // ----- the descriptions -----

  /** What `merge_shot_data(audio, video)` returns for one shot. */
  datatype ShotDescription = ShotDescription(
    transcription: string,
    sentiment: string,
    rms: real,
    spectralCentroid: real,
    spectralBandwidth: real,
    clapAnalysis: string,
    labeledTranscriptions: string,
    videoObjects: seq<string>,
    events: seq<string>,
    movingObjects: string)

  /** What `merge_cluster_data` returns. The object and event lists come out of
      `list(set(...))`, whose order Python leaves unspecified: they are sets. */
  datatype ClusterDescription = ClusterDescription(
    transcription: string,
    sentiment: string,
    rms: real,
    spectralCentroid: real,
    spectralBandwidth: real,
    clapAnalysis: string,
    labeledTranscriptions: string,
    videoObjects: set<string>,
    events: set<string>,
    movingObjects: string)

  /** The shots of the cluster that both the audio and the video data know, in
      cluster order: the loop's `if shot in audio_shots and shot in video_shots`
      filter. A shot listed twice counts twice. */
  function Eligible<A, V>(cluster: seq<Shot>, audio: map<Shot, A>, video: map<Shot, V>): (e: seq<Shot>)
    ensures forall s :: s in e <==> s in cluster && s in audio && s in video
    ensures forall s :: multiset(e)[s] == if s in audio && s in video then multiset(cluster)[s] else 0
    ensures IsSubsequence(e, cluster)
  {
    if |cluster| == 0 then []
    else
      var rest := Eligible(cluster[1..], audio, video);
      assert cluster == [cluster[0]] + cluster[1..];
      if cluster[0] in audio && cluster[0] in video then
        assert ([cluster[0]] + rest)[1..] == rest;
        [cluster[0]] + rest
      else
        SubsequenceOfTail(rest, cluster);
        rest
  }

  /** `ds` holds `merge_shot_data(audio_shots[shot], video_shots[shot])` for
      each shot of `e`, in order. */
  predicate DescribedBy<A, V>(ds: seq<ShotDescription>, e: seq<Shot>, audio: map<Shot, A>, video: map<Shot, V>,
                              mergeShot: (A, V) -> ShotDescription)
  {
    |ds| == |e| && forall i :: 0 <= i < |e| ==> e[i] in audio && e[i] in video && ds[i] == mergeShot(audio[e[i]], video[e[i]])
  }

  /** The descriptions the loop builds: one per shot it keeps, in loop order. */
  function Describe<A, V>(cluster: seq<Shot>, audio: map<Shot, A>, video: map<Shot, V>,
                          mergeShot: (A, V) -> ShotDescription): (ds: seq<ShotDescription>)
    ensures DescribedBy(ds, Eligible(cluster, audio, video), audio, video, mergeShot)
  {
    if |cluster| == 0 then []
    else
      var shot := cluster[0];
      var rest := Describe(cluster[1..], audio, video, mergeShot);
      if shot in audio && shot in video then
        DescribedCons(shot, Eligible(cluster[1..], audio, video), rest, audio, video, mergeShot);
        [mergeShot(audio[shot], video[shot])] + rest
      else rest
  }

  lemma DescribedCons<A, V>(shot: Shot, e: seq<Shot>, ds: seq<ShotDescription>, audio: map<Shot, A>,
                            video: map<Shot, V>, mergeShot: (A, V) -> ShotDescription)
    requires shot in audio && shot in video
    requires DescribedBy(ds, e, audio, video, mergeShot)
    ensures DescribedBy([mergeShot(audio[shot], video[shot])] + ds, [shot] + e, audio, video, mergeShot)
  {
    var e2 := [shot] + e;
    var ds2 := [mergeShot(audio[shot], video[shot])] + ds;
    forall i | 0 <= i < |e2|
      ensures e2[i] in audio && e2[i] in video && ds2[i] == mergeShot(audio[e2[i]], video[e2[i]])
    {
      if i > 0 {
        assert e2[i] == e[i - 1] && ds2[i] == ds[i - 1];
      }
    }
  }

  function Transcriptions(ds: seq<ShotDescription>): seq<string>
  {
    seq(|ds|, i requires 0 <= i < |ds| => ds[i].transcription)
  }

  function Sentiments(ds: seq<ShotDescription>): seq<string>
  {
    seq(|ds|, i requires 0 <= i < |ds| => ds[i].sentiment)
  }

  function ClapAnalyses(ds: seq<ShotDescription>): seq<string>
  {
    seq(|ds|, i requires 0 <= i < |ds| => ds[i].clapAnalysis)
  }

  function LabeledTranscriptions(ds: seq<ShotDescription>): seq<string>
  {
    seq(|ds|, i requires 0 <= i < |ds| => ds[i].labeledTranscriptions)
  }

  function RmsValues(ds: seq<ShotDescription>): seq<real>
  {
    seq(|ds|, i requires 0 <= i < |ds| => ds[i].rms)
  }

  function CentroidValues(ds: seq<ShotDescription>): seq<real>
  {
    seq(|ds|, i requires 0 <= i < |ds| => ds[i].spectralCentroid)
  }

  function BandwidthValues(ds: seq<ShotDescription>): seq<real>
  {
    seq(|ds|, i requires 0 <= i < |ds| => ds[i].spectralBandwidth)
  }

  function MovingObjects(ds: seq<ShotDescription>): seq<string>
  {
    seq(|ds|, i requires 0 <= i < |ds| => ds[i].movingObjects)
  }

  /** A list the loop grows with `extend`: after the loop, every shot's
      `pick` list, shot after shot. */
  function Extended(ds: seq<ShotDescription>, pick: ShotDescription -> seq<string>): seq<string>
  {
    if |ds| == 0 then [] else Extended(ds[..|ds| - 1], pick) + pick(ds[|ds| - 1])
  }

  /** What the accumulated list holds: exactly what some shot's list holds. */
  lemma {:induction false} ExtendedMembers(ds: seq<ShotDescription>, pick: ShotDescription -> seq<string>)
    ensures forall x :: x in Extended(ds, pick) <==> exists i :: 0 <= i < |ds| && x in pick(ds[i])
  {
    if |ds| > 0 {
      var n := |ds| - 1;
      ExtendedMembers(ds[..n], pick);
      forall x | x in Extended(ds, pick)
        ensures exists i :: 0 <= i < |ds| && x in pick(ds[i])
      {
        if x !in pick(ds[n]) {
          var i :| 0 <= i < n && x in pick(ds[..n][i]);
          assert ds[..n][i] == ds[i];
        }
      }
      forall x, i | 0 <= i < |ds| && x in pick(ds[i])
        ensures x in Extended(ds, pick)
      {
        if i < n {
          assert ds[..n][i] == ds[i];
        }
      }
    }
  }

  /** `set(all_video_objects)`: the objects of the list the loop extends. */
  function AllObjects(ds: seq<ShotDescription>): (s: set<string>)
    ensures forall o :: o in s <==> exists i :: 0 <= i < |ds| && o in ds[i].videoObjects
  {
    var pick := (d: ShotDescription) => d.videoObjects;
    ExtendedMembers(ds, pick);
    set o | o in Extended(ds, pick)
  }

  /** `set(all_video_events)`: the events of the list the loop extends. */
  function AllEvents(ds: seq<ShotDescription>): (s: set<string>)
    ensures forall v :: v in s <==> exists i :: 0 <= i < |ds| && v in ds[i].events
  {
    var pick := (d: ShotDescription) => d.events;
    ExtendedMembers(ds, pick);
    set v | v in Extended(ds, pick)
  }

  /** What the cluster description promises about the shot descriptions it
      summarises: the most common text of each categorical field, the mean of
      each numeric one, the union of the object and event lists, and every
      shot's moving objects joined with `", "`. */
  ghost predicate Summarises(ds: seq<ShotDescription>, c: ClusterDescription)
  {
    && IsMostCommon(Transcriptions(ds), c.transcription)
    && IsMostCommon(Sentiments(ds), c.sentiment)
    && IsMostCommon(ClapAnalyses(ds), c.clapAnalysis)
    && IsMostCommon(LabeledTranscriptions(ds), c.labeledTranscriptions)
    && IsMean(RmsValues(ds), c.rms)
    && IsMean(CentroidValues(ds), c.spectralCentroid)
    && IsMean(BandwidthValues(ds), c.spectralBandwidth)
    && (forall o :: o in c.videoObjects <==> exists i :: 0 <= i < |ds| && o in ds[i].videoObjects)
    && (forall v :: v in c.events <==> exists i :: 0 <= i < |ds| && v in ds[i].events)
    && c.movingObjects == JoinComma(MovingObjects(ds))
  }

  /** The aggregation over the descriptions of the eligible shots. The first
      `most_common` raises IndexError when there are none, before any mean is
      taken. */
  function Summarise(ds: seq<ShotDescription>): (r: Result<ClusterDescription>)
    ensures r.Failure? <==> |ds| == 0
    ensures r.Failure? ==> r.error == EmptyAggregate
    ensures r.Success? ==> Summarises(ds, r.value)
  {
    if |ds| == 0 then Failure(EmptyAggregate)
    else
      var c := ClusterDescription(
        MostCommon(Transcriptions(ds)).value, MostCommon(Sentiments(ds)).value,
        Mean(RmsValues(ds)), Mean(CentroidValues(ds)), Mean(BandwidthValues(ds)),
        MostCommon(ClapAnalyses(ds)).value, MostCommon(LabeledTranscriptions(ds)).value,
        AllObjects(ds), AllEvents(ds),
        JoinComma(MovingObjects(ds)));
      assert |RmsValues(ds)| == |CentroidValues(ds)| == |BandwidthValues(ds)| == |ds|;
      assert Summarises(ds, c);
      Success(c)
  }

  /** `merge_cluster_data(cluster_shots, audio_shots, video_shots)`, with
      `merge_shot_data` passed in: it fails exactly when no shot of the cluster
      is in both maps. */
  function MergeClusterData<A, V>(cluster: seq<Shot>, audio: map<Shot, A>, video: map<Shot, V>,
                                  mergeShot: (A, V) -> ShotDescription): (r: Result<ClusterDescription>)
    ensures r.Failure? <==> forall s :: s in cluster ==> s !in audio || s !in video
    ensures r.Failure? ==> r.error == EmptyAggregate
    ensures r.Success? ==> Summarises(Describe(cluster, audio, video, mergeShot), r.value)
  {
    var e := Eligible(cluster, audio, video);
    assert |e| > 0 ==> e[0] in e;
    Summarise(Describe(cluster, audio, video, mergeShot))
  }

  /** The joined `moving_objects` text splits back into the shots' own texts,
      in cluster order, whenever none of them contains a comma. */
  lemma MovingObjectsSplit<A, V>(cluster: seq<Shot>, audio: map<Shot, A>, video: map<Shot, V>,
                                 mergeShot: (A, V) -> ShotDescription)
    requires MergeClusterData(cluster, audio, video, mergeShot).Success?
    requires NoComma(Describe(cluster, audio, video, mergeShot))
    ensures SplitComma(MergeClusterData(cluster, audio, video, mergeShot).value.movingObjects)
         == MovingObjects(Describe(cluster, audio, video, mergeShot))
  {
    var ds := Describe(cluster, audio, video, mergeShot);
    assert |Transcriptions(ds)| > 0;
    MovingSplit(ds);
  }

  /** No shot's `moving_objects` text contains a comma. */
  predicate NoComma(ds: seq<ShotDescription>)
  {
    forall k, i :: 0 <= k < |ds| && 0 <= i < |ds[k].movingObjects| ==> ds[k].movingObjects[i] != ','
  }

  lemma MovingSplit(ds: seq<ShotDescription>)
    requires |ds| > 0 && NoComma(ds)
    ensures SplitComma(JoinComma(MovingObjects(ds))) == MovingObjects(ds)
  {
    JoinCommaRoundTrip(MovingObjects(ds));
  }
}
