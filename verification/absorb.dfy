/** `merge_small_clusters`: a positional scan that moves every one-shot cluster
    into a neighbour (the next slot for slot 0, the previous slot otherwise),
    empties the donor slot and restarts from slot 0 after each move. */
module Absorbing {
  import opened Wrappers
  import opened Seqs
  import opened Shots

  /** The index of the first slot holding a shot, or `|c|` when all are empty. */
  function FirstNonEmpty(c: seq<seq<Shot>>): (f: nat)
    ensures f <= |c|
    ensures forall k :: 0 <= k < f ==> |c[k]| == 0
    ensures f < |c| ==> |c[f]| > 0
  {
    if |c| == 0 then 0
    else if |c[0]| > 0 then 0
    else
      var f := 1 + FirstNonEmpty(c[1..]);
      assert forall k :: 1 <= k < f ==> c[k] == c[1..][k - 1];
      f
  }

  /** The inputs on which the scan stops: every slot is empty, or the first
      non-empty slot holds two shots or more, or it is slot 0 holding one shot
      and slot 1 is not empty. */
  predicate Settles(c: seq<seq<Shot>>)
  {
    var f := FirstNonEmpty(c);
    f == |c| || |c[f]| >= 2 || (f == 0 && |c| >= 2 && |c[1]| > 0)
  }

  /** One slot holding one shot: slot 0 is merged with `clusters[1]`, which
      does not exist. */
  predicate LoneSingleton(c: seq<seq<Shot>>)
  {
    |c| == 1 && |c[0]| == 1
  }

  /** The state of the `while i < len(clusters)` loop. */
  datatype Scan = Scan(slots: seq<seq<Shot>>, i: nat)

  /** Slot `j` takes the shots of slot `j + 1`, which becomes empty. */
  function MergeInto(c: seq<seq<Shot>>, j: nat): seq<seq<Shot>>
    requires j + 1 < |c|
  {
    c[j := c[j] + c[j + 1]][j + 1 := []]
  }

  /** One iteration of the loop body. */
  function Step(s: Scan): (r: Result<Scan>)
    requires s.i < |s.slots|
    ensures r.Failure? <==> s.i == 0 && |s.slots| == 1 && |s.slots[0]| == 1
    ensures r.Failure? ==> r.error == MissingNeighbour
    ensures r.Success? ==> |r.value.slots| == |s.slots| && Flatten(r.value.slots) == Flatten(s.slots)
  {
    var c := s.slots;
    var i := s.i;
    if |c[i]| == 0 then Success(Scan(c, i + 1))
    else if |c[i]| < 2 then
      if i == 0 then
        if |c| < 2 then Failure(MissingNeighbour)
        else
          MergeIntoFlatten(c, 0);
          Success(Scan(MergeInto(c, 0), 0))
      else
        MergeIntoFlatten(c, i - 1);
        Success(Scan(MergeInto(c, i - 1), 0))
    else Success(Scan(c, i + 1))
  }

  /** A move only regroups: the shots, in order, stay the same. */
  lemma {:induction false} MergeIntoFlatten(c: seq<seq<Shot>>, j: nat)
    requires j + 1 < |c|
    ensures Flatten(MergeInto(c, j)) == Flatten(c)
    decreases j
  {
    var m := MergeInto(c, j);
    if j == 0 {
      assert c[1..][1..] == c[2..];
      assert m[1..][1..] == c[2..];
      assert Flatten(m[1..]) == [] + Flatten(m[2..]);
    } else {
      assert m[1..] == MergeInto(c[1..], j - 1);
      MergeIntoFlatten(c[1..], j - 1);
    }
  }

  // ----- termination -----

  /** A slot at position `k` weighs `k + 1` when it holds exactly one shot. */
  function SlotWeight(x: seq<Shot>, k: nat): nat
  {
    if |x| == 1 then k + 1 else 0
  }

  /** The weights of the slots of `c`, the first at position `base`. */
  function WeightFrom(c: seq<seq<Shot>>, base: nat): nat
  {
    if |c| == 0 then 0 else SlotWeight(c[0], base) + WeightFrom(c[1..], base + 1)
  }

  lemma {:induction false} WeightUpdate(c: seq<seq<Shot>>, base: nat, k: nat, v: seq<Shot>)
    requires k < |c|
    ensures WeightFrom(c[k := v], base) == WeightFrom(c, base) - SlotWeight(c[k], base + k) + SlotWeight(v, base + k)
    decreases k
  {
    if k > 0 {
      assert c[k := v][1..] == c[1..][k - 1 := v];
      WeightUpdate(c[1..], base + 1, k - 1, v);
    }
  }

  // ----- the loop invariant -----

  /** The slots that end up holding shots: one with two shots or more (except
      slot 1 when slot 0 holds one shot, which slot 0 swallows), and slot 0
      when it holds one shot. */
  predicate Survives(c0: seq<seq<Shot>>, k: nat)
    requires k < |c0|
  {
    (|c0[k]| >= 2 && !(k == 1 && |c0[0]| == 1)) || (k == 0 && |c0[0]| == 1)
  }

  /** What holds of the scan state `s` reached from the input `c0`. */
  predicate Inv(c0: seq<seq<Shot>>, s: Scan)
  {
    && |s.slots| == |c0|
    && s.i <= |c0|
    && Flatten(s.slots) == Flatten(c0)
    && Settles(s.slots)
    && (forall k :: 0 <= k < s.i ==> |s.slots[k]| != 1)
    && (|c0| > 0 && |c0[0]| == 0 ==> |s.slots[0]| == 0)
    && (forall k :: 0 <= k < |c0| && Survives(c0, k) ==> c0[k] <= s.slots[k])
    && (forall k :: 0 <= k < |c0| && !Survives(c0, k) ==>
          |s.slots[k]| <= 1 || (k == 1 && |s.slots[0]| == 1))
  }

  lemma InvInit(c0: seq<seq<Shot>>)
    requires Settles(c0)
    ensures Inv(c0, Scan(c0, 0))
  {
    var f := FirstNonEmpty(c0);
    forall k | 0 <= k < |c0| && !Survives(c0, k)
      ensures |c0[k]| <= 1 || (k == 1 && |c0[0]| == 1)
    {
    }
  }

  /** Past an empty slot or one of two shots or more, the scan moves on. */
  lemma AdvanceKeepsInv(c0: seq<seq<Shot>>, s: Scan)
    requires Inv(c0, s) && s.i < |s.slots| && |s.slots[s.i]| != 1
    ensures Step(s) == Success(Scan(s.slots, s.i + 1))
    ensures Inv(c0, Step(s).value)
  {
  }

  /** A one-shot slot 0 takes the shots of slot 1: its first non-empty slot
      then holds two shots or more. */
  lemma MergeFirstKeepsInv(c0: seq<seq<Shot>>, s: Scan)
    requires Inv(c0, s) && s.i == 0 && |s.slots| > 0 && |s.slots[0]| == 1
    ensures |s.slots| >= 2 && |s.slots[1]| > 0
    ensures Step(s) == Success(Scan(MergeInto(s.slots, 0), 0))
    ensures Inv(c0, Step(s).value)
    ensures WeightFrom(MergeInto(s.slots, 0), 0) < WeightFrom(s.slots, 0)
  {
    var c := s.slots;
    var m := MergeInto(c, 0);
    var c1 := c[0 := c[0] + c[1]];
    MergeIntoFlatten(c, 0);
    WeightUpdate(c, 0, 0, c[0] + c[1]);
    WeightUpdate(c1, 0, 1, []);
    assert Survives(c0, 0) ==> c0[0] <= c[0];
    assert |c0[0]| == 1;
    assert FirstNonEmpty(m) == 0;
    forall k | 0 <= k < |c0| && Survives(c0, k)
      ensures c0[k] <= m[k]
    {
      if k == 0 {
        assert c0[0] <= c[0];
        assert c[0] <= m[0];
      }
    }
  }

  /** A one-shot slot further on moves into the slot before it. The scan has
      passed every earlier slot, so none of them holds one shot, and the first
      non-empty slot lies before it and holds two shots or more. */
  lemma MergeLeftKeepsInv(c0: seq<seq<Shot>>, s: Scan)
    requires Inv(c0, s) && 0 < s.i < |s.slots| && |s.slots[s.i]| == 1
    ensures Step(s) == Success(Scan(MergeInto(s.slots, s.i - 1), 0))
    ensures Inv(c0, Step(s).value)
    ensures WeightFrom(Step(s).value.slots, 0) < WeightFrom(s.slots, 0)
  {
    MergeLeftWeight(s.slots, s.i);
    MergeLeftInv(c0, s);
  }

  lemma MergeLeftInv(c0: seq<seq<Shot>>, s: Scan)
    requires Inv(c0, s) && 0 < s.i < |s.slots| && |s.slots[s.i]| == 1
    ensures Inv(c0, Scan(MergeInto(s.slots, s.i - 1), 0))
  {
    var c := s.slots;
    var i := s.i;
    var m := MergeInto(c, i - 1);
    MergeIntoFlatten(c, i - 1);
    MergeLeftSettles(c, i);
    forall k | 0 <= k < |c0| && Survives(c0, k)
      ensures c0[k] <= m[k]
    {
      if k == i - 1 {
        assert c0[k] <= c[k];
        assert c[k] <= m[k];
      }
    }
  }

  lemma MergeLeftWeight(c: seq<seq<Shot>>, i: nat)
    requires 0 < i < |c| && |c[i]| == 1
    ensures WeightFrom(MergeInto(c, i - 1), 0) < WeightFrom(c, 0)
  {
    var c1 := c[i - 1 := c[i - 1] + c[i]];
    WeightUpdate(c, 0, i - 1, c[i - 1] + c[i]);
    WeightUpdate(c1, 0, i, []);
  }

  lemma MergeLeftSettles(c: seq<seq<Shot>>, i: nat)
    requires 0 < i < |c| && |c[i]| == 1
    requires Settles(c)
    requires forall k :: 0 <= k < i ==> |c[k]| != 1
    ensures Settles(MergeInto(c, i - 1))
    ensures |c[0]| == 0 ==> i > 1
  {
    var m := MergeInto(c, i - 1);
    var f := FirstNonEmpty(c);
    assert f < i && |c[f]| >= 2;
    assert forall k :: 0 <= k < f ==> m[k] == c[k];
    assert |m[f]| >= 2;
    assert FirstNonEmpty(m) == f;
  }

  // ----- merge_small_clusters -----

  /** What `merge_small_clusters` leaves: the same number of slots and the same
      shots in the same order; no slot holds exactly one shot; every surviving
      slot still starts with its original shots and holds two or more; every
      other slot is empty. */
  predicate AbsorbOutcome(c0: seq<seq<Shot>>, r: seq<seq<Shot>>)
  {
    && |r| == |c0|
    && Flatten(r) == Flatten(c0)
    && (forall k :: 0 <= k < |r| ==> |r[k]| != 1)
    && (forall k :: 0 <= k < |c0| && Survives(c0, k) ==> c0[k] <= r[k] && |r[k]| >= 2)
    && (forall k :: 0 <= k < |c0| && !Survives(c0, k) ==> |r[k]| == 0)
  }

  lemma InvExit(c0: seq<seq<Shot>>, s: Scan)
    requires Inv(c0, s) && s.i == |s.slots|
    ensures AbsorbOutcome(c0, s.slots)
  {
    forall k | 0 <= k < |c0| && Survives(c0, k)
      ensures |s.slots[k]| >= 2
    {
      assert c0[k] <= s.slots[k];
    }
  }

  /** `merge_small_clusters(clusters)` on a list. The source raises IndexError
      on a lone one-shot slot; on every other input that does not settle it
      never returns (`NeverReturns`), so those are excluded. */
  method MergeSmallClusters(clusters: seq<seq<Shot>>) returns (r: Result<seq<seq<Shot>>>)
    requires Settles(clusters) || LoneSingleton(clusters)
    ensures r.Failure? <==> LoneSingleton(clusters)
    ensures r.Failure? ==> r.error == MissingNeighbour
    ensures r.Success? ==> AbsorbOutcome(clusters, r.value)
  {
    var s := Scan(clusters, 0);
    if !Settles(clusters) {
      var t := Step(s);
      return Failure(t.error);
    }
    InvInit(clusters);
    while s.i < |s.slots|
      invariant Inv(clusters, s)
      decreases WeightFrom(s.slots, 0), |s.slots| - s.i
    {
      if |s.slots[s.i]| != 1 {
        AdvanceKeepsInv(clusters, s);
      } else if s.i == 0 {
        MergeFirstKeepsInv(clusters, s);
      } else {
        MergeLeftKeepsInv(clusters, s);
      }
      s := Step(s).value;
    }
    InvExit(clusters, s);
    r := Success(s.slots);
  }

  /** The docstring's example: `[[s1], [s2, s3]]` becomes `[[s1, s2, s3], []]`. */
  lemma AbsorbDocExample(a: Shot, b: Shot, c: Shot, r: seq<seq<Shot>>)
    requires AbsorbOutcome([[a], [b, c]], r)
    ensures Settles([[a], [b, c]])
    ensures r == [[a, b, c], []]
  {
    var c0 := [[a], [b, c]];
    assert Survives(c0, 0) && !Survives(c0, 1);
    assert r[1] == [];
    FlattenTwoOf([a], [b, c]);
    assert r == [r[0], r[1]];
    FlattenTwoOf(r[0], r[1]);
    assert r[0] + r[1] == r[0];
    assert [a] + [b, c] == [a, b, c];
  }

  /** `[[s1], [s2, s3], [s4]]` becomes `[[s1, s2, s3, s4], [], []]`. */
  lemma AbsorbThreeSlots(a: Shot, b: Shot, c: Shot, d: Shot, r: seq<seq<Shot>>)
    requires AbsorbOutcome([[a], [b, c], [d]], r)
    ensures Settles([[a], [b, c], [d]])
    ensures r == [[a, b, c, d], [], []]
  {
    var c0 := [[a], [b, c], [d]];
    assert Survives(c0, 0) && !Survives(c0, 1) && !Survives(c0, 2);
    assert r[1] == [] && r[2] == [];
    FlattenThreeOf([a], [b, c], [d]);
    assert r == [r[0], r[1], r[2]];
    FlattenThreeOf(r[0], r[1], r[2]);
    assert r[0] + r[1] + r[2] == r[0];
    assert [a] + [b, c] + [d] == [a, b, c, d];
  }

  /** Slot 0 holding one shot before an empty slot 1 merges with it, changes
      nothing and restarts at slot 0: the loop repeats this state forever. */
  lemma FirstSlotHang(c: seq<seq<Shot>>)
    requires |c| >= 2 && |c[0]| == 1 && |c[1]| == 0
    ensures !Settles(c) && !LoneSingleton(c)
    ensures Step(Scan(c, 0)) == Success(Scan(c, 0))
  {
    assert c[0] + c[1] == c[0];
    assert MergeInto(c, 0) == c;
  }

  // ----- the inputs that never return -----

  /** `n` turns of the `while i < len(clusters)` loop from `s`, fewer if it
      exits or raises first. */
  function Run(s: Scan, n: nat): Result<Scan>
    decreases n
  {
    if n == 0 || s.i >= |s.slots| then Success(s)
    else
      match Step(s)
      case Failure(e) => Failure(e)
      case Success(t) => Run(t, n - 1)
  }

  /** A state the loop cannot leave: the first non-empty slot holds one shot,
      the scan has not passed it, and it either has a slot before it or is
      slot 0 followed by an empty slot. */
  predicate Stuck(s: Scan)
  {
    var c := s.slots;
    var f := FirstNonEmpty(c);
    && |c| >= 2
    && f < |c| && |c[f]| == 1
    && (f > 0 || |c[1]| == 0)
    && s.i <= f
  }

  /** From a stuck state the loop body neither raises nor exits, and the state
      stays stuck: the one shot only moves one slot towards slot 0. */
  lemma StuckStep(s: Scan)
    requires Stuck(s)
    ensures s.i < |s.slots| && Step(s).Success? && Stuck(Step(s).value)
  {
    var c := s.slots;
    var f := FirstNonEmpty(c);
    if s.i == f && f == 0 {
      FirstSlotHang(c);
    } else if s.i == f {
      var m := MergeInto(c, f - 1);
      assert m[f - 1] == [] + c[f] == c[f];
      assert forall k :: 0 <= k < f - 1 ==> m[k] == c[k];
      assert FirstNonEmpty(m) == f - 1;
    }
  }

  lemma {:induction false} StuckRun(s: Scan, n: nat)
    requires Stuck(s)
    ensures Run(s, n).Success? && Stuck(Run(s, n).value)
    decreases n
  {
    if n > 0 {
      StuckStep(s);
      StuckRun(Step(s).value, n - 1);
    }
  }

  /** Every input that neither settles nor is a lone one-shot slot keeps the
      loop running: after any number of turns it has raised nothing and its
      index is still inside the list. */
  lemma NeverReturns(c: seq<seq<Shot>>, n: nat)
    requires !Settles(c) && !LoneSingleton(c)
    ensures Run(Scan(c, 0), n).Success?
    ensures Run(Scan(c, 0), n).value.i < |Run(Scan(c, 0), n).value.slots|
  {
    assert Stuck(Scan(c, 0));
    StuckRun(Scan(c, 0), n);
    StuckStep(Run(Scan(c, 0), n).value);
  }

  /** The two smallest inputs that never return, and the one that raises. */
  lemma HangExamples(a: Shot)
    ensures Step(Scan([[], [a]], 0)) == Success(Scan([[], [a]], 1))
    ensures Step(Scan([[], [a]], 1)) == Success(Scan([[a], []], 0))
    ensures Step(Scan([[a], []], 0)) == Success(Scan([[a], []], 0))
    ensures Step(Scan([[a]], 0)) == Failure(MissingNeighbour)
  {
    FirstSlotHang([[a], []]);
    assert [] + [a] == [a];
    assert MergeInto([[], [a]], 0) == [[a], []];
  }
}
