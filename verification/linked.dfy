/** `remove_cluster`: a map from cluster ids to the ids linked to them; removing
    a cluster also removes, one level deep, every cluster whose links name it. */
module LinkedClusters {

  type Id = string

  /** One entry `key: members` of the map; `members` is a list or set of ids. */
  datatype Link = Link(key: Id, members: seq<Id>)

  /** A dict holds each key once. */
  predicate DistinctKeys(links: seq<Link>)
  {
    forall i, j :: 0 <= i < j < |links| ==> links[i].key != links[j].key
  }

  /** Whether the entry for `target` is recorded: it exists and is not empty. */
  predicate RecordsOwn(links: seq<Link>, target: Id)
  {
    exists l :: l in links && l.key == target && |l.members| > 0
  }

  /** Another entry whose members name `target`. */
  predicate Refers(l: Link, target: Id)
  {
    l.key != target && target in l.members
  }

  /** The entries that stay: neither `target` itself nor one that refers to it,
      in their original order. */
  function Remaining(links: seq<Link>, target: Id): (r: seq<Link>)
    ensures forall l :: l in r <==> l in links && l.key != target && !Refers(l, target)
    ensures |r| <= |links|
  {
    if |links| == 0 then []
    else
      var rest := Remaining(links[1..], target);
      assert forall l :: l in links <==> l == links[0] || l in links[1..];
      if links[0].key != target && !Refers(links[0], target) then [links[0]] + rest else rest
  }

  /** The recorded group of every entry referring to `target`: its members
      followed by its own key, in map order. */
  function ReferrerGroups(links: seq<Link>, target: Id): (r: seq<seq<Id>>)
    ensures forall g :: g in r <==> exists l :: l in links && Refers(l, target) && g == l.members + [l.key]
  {
    if |links| == 0 then []
    else
      var rest := ReferrerGroups(links[1..], target);
      assert forall l :: l in links <==> l == links[0] || l in links[1..];
      if Refers(links[0], target) then [links[0].members + [links[0].key]] + rest else rest
  }

  /** The members of the entry for `target`, if there is one. */
  function Lookup(links: seq<Link>, target: Id): (r: seq<Id>)
    requires DistinctKeys(links)
    ensures (exists l :: l in links && l.key == target && l.members == r)
         || (r == [] && forall l :: l in links ==> l.key != target)
  {
    if |links| == 0 then []
    else if links[0].key == target then links[0].members
    else
      assert DistinctKeys(links[1..]) by {
        forall i, j | 0 <= i < j < |links[1..]|
          ensures links[1..][i].key != links[1..][j].key
        {
          assert links[1..][i] == links[i + 1] && links[1..][j] == links[j + 1];
        }
      }
      Lookup(links[1..], target)
  }

  /** What `remove_cluster` leaves in the map and what it returns. */
  datatype Removal = Removal(remaining: seq<Link>, removed: map<Id, seq<seq<Id>>>)

  /** `remove_cluster(cluster_map, cluster_to_remove)`. The entry for the target
      goes; if it was not empty its members plus its key become the first
      removed group. Then every entry whose members name the target goes too,
      recorded the same way (such an entry is never empty). The result maps the
      target to the removed groups, or is `{}` when none was recorded. The
      source walks the referring keys in set order, which Python leaves
      unspecified; the model takes map order. */
  function RemoveCluster(links: seq<Link>, target: Id): (r: Removal)
    requires DistinctKeys(links)
    ensures forall l :: l in r.remaining <==> l in links && l.key != target && !Refers(l, target)
    ensures r.removed == map[] <==> !RecordsOwn(links, target) && forall l :: l in links ==> !Refers(l, target)
    ensures r.removed != map[] ==> r.removed.Keys == {target}
    ensures target in r.removed ==>
              forall g :: g in r.removed[target] <==>
                (exists l :: l in links && l.key == target && |l.members| > 0 && g == l.members + [target])
                || (exists l :: l in links && Refers(l, target) && g == l.members + [l.key])
  {
    var own := Lookup(links, target);
    var referrers := ReferrerGroups(links, target);
    var groups := (if |own| > 0 then [own + [target]] else []) + referrers;
    DistinctOwner(links, target);
    forall l | l in links && Refers(l, target)
      ensures |referrers| > 0
    {
      assert l.members + [l.key] in referrers;
    }
    assert |referrers| > 0 ==> referrers[0] in referrers;
    assert RecordsOwn(links, target) <==> |own| > 0;
    var removed: map<Id, seq<seq<Id>>> := if |groups| > 0 then map[target := groups] else map[];
    assert |groups| > 0 ==> target in removed;
    Removal(Remaining(links, target), removed)
  }

  /** The entry for `target` is unique, so its recorded group is the one `Lookup` finds. */
  lemma DistinctOwner(links: seq<Link>, target: Id)
    requires DistinctKeys(links)
    ensures forall l :: l in links && l.key == target ==> l.members == Lookup(links, target)
  {
    forall l | l in links && l.key == target
      ensures l.members == Lookup(links, target)
    {
      var m := Lookup(links, target);
      var i :| 0 <= i < |links| && links[i] == l;
      var o :| o in links && o.key == target && o.members == m;
      var j :| 0 <= j < |links| && links[j] == o;
      assert i == j;
    }
  }

  /** Nothing is lost: every entry is kept, or recorded among the removed
      groups, or is the target's own empty entry (dropped without a record). */
  lemma RemoveClusterAccounts(links: seq<Link>, target: Id)
    requires DistinctKeys(links)
    ensures var r := RemoveCluster(links, target);
      forall l :: l in links ==>
        || l in r.remaining
        || (target in r.removed && l.members + [l.key] in r.removed[target])
        || (l.key == target && |l.members| == 0)
  {
    var r := RemoveCluster(links, target);
    forall l | l in links && l !in r.remaining && !(l.key == target && |l.members| == 0)
      ensures target in r.removed && l.members + [l.key] in r.removed[target]
    {
      if l.key == target {
        assert RecordsOwn(links, target);
      } else {
        assert Refers(l, target);
      }
    }
  }

  lemma {:induction false} RemainingDistinct(links: seq<Link>, target: Id)
    requires DistinctKeys(links)
    ensures DistinctKeys(Remaining(links, target))
    ensures forall l :: l in Remaining(links, target) ==> l in links
  {
    if |links| > 0 {
      var t := links[1..];
      assert DistinctKeys(t) by {
        forall i, j | 0 <= i < j < |t|
          ensures t[i].key != t[j].key
        {
          assert t[i] == links[i + 1] && t[j] == links[j + 1];
        }
      }
      RemainingDistinct(t, target);
      var rest := Remaining(t, target);
      forall l | l in rest
        ensures l.key != links[0].key
      {
        var k :| 0 <= k < |t| && t[k] == l;
        assert links[k + 1] == l;
      }
    }
  }

  lemma {:induction false} RemainingOfKept(links: seq<Link>, target: Id)
    requires forall l :: l in links ==> l.key != target && !Refers(l, target)
    ensures Remaining(links, target) == links
    ensures ReferrerGroups(links, target) == []
  {
    if |links| > 0 {
      assert forall l :: l in links[1..] ==> l in links;
      RemainingOfKept(links[1..], target);
      assert links == [links[0]] + links[1..];
    }
  }

  /** Removing the same cluster again removes nothing and changes nothing. */
  lemma RemoveClusterIdempotent(links: seq<Link>, target: Id)
    requires DistinctKeys(links)
    ensures DistinctKeys(RemoveCluster(links, target).remaining)
    ensures var rest := RemoveCluster(links, target).remaining;
      RemoveCluster(rest, target) == Removal(rest, map[])
  {
    var rest := RemoveCluster(links, target).remaining;
    RemainingDistinct(links, target);
    RemainingOfKept(rest, target);
    var own := Lookup(rest, target);
    assert own == [];
  }

  /** The docstring's map `{c1: {e1, e2}, c2: {e3, c1}}`: removing `c1` removes
      both entries and records both groups (the docstring's sample return
      value lists only the first). */
  lemma RemoveClusterDocExample(c1: Id, c2: Id, e1: Id, e2: Id, e3: Id)
    requires c1 != c2 && c1 != e1 && c1 != e2 && c1 != e3
    ensures RemoveCluster([Link(c1, [e1, e2]), Link(c2, [e3, c1])], c1)
         == Removal([], map[c1 := [[e1, e2, c1], [e3, c1, c2]]])
  {
    var links := [Link(c1, [e1, e2]), Link(c2, [e3, c1])];
    assert links[1..] == [Link(c2, [e3, c1])];
    assert links[1..][1..] == [];
    assert Refers(links[1], c1);
    assert Lookup(links, c1) == [e1, e2];
    assert [e1, e2] + [c1] == [e1, e2, c1];
    assert [e3, c1] + [c2] == [e3, c1, c2];
    assert ReferrerGroups(links[1..][1..], c1) == [];
    assert ReferrerGroups(links[1..], c1) == [[e3, c1, c2]];
    assert ReferrerGroups(links, c1) == [[e3, c1, c2]];
    assert [[e1, e2, c1]] + [[e3, c1, c2]] == [[e1, e2, c1], [e3, c1, c2]];
    assert Remaining(links, c1) == [];
  }
}
