/** Sequence helpers: flattening a list of clusters into the list of their shots. */
module Seqs {

  /** The concatenation of all inner sequences, in order (Python's
      `[x for xs in xss for x in xs]`). */
  function Flatten<T>(xss: seq<seq<T>>): seq<T>
  {
    if |xss| == 0 then [] else xss[0] + Flatten(xss[1..])
  }

  lemma {:induction false} FlattenAppend<T>(a: seq<seq<T>>, b: seq<seq<T>>)
    ensures Flatten(a + b) == Flatten(a) + Flatten(b)
  {
    if |a| == 0 {
      assert a + b == b;
    } else {
      assert (a + b)[1..] == a[1..] + b;
      FlattenAppend(a[1..], b);
    }
  }

  lemma FlattenOne<T>(x: seq<T>)
    ensures Flatten([x]) == x
  {
    assert [x][1..] == [];
    assert x + [] == x;
  }

  lemma FlattenTwoOf<T>(x: seq<T>, y: seq<T>)
    ensures Flatten([x, y]) == x + y
  {
    assert [x, y][1..] == [y];
    FlattenOne(y);
  }

  lemma FlattenPair<T>(xss: seq<seq<T>>)
    requires |xss| == 2
    ensures Flatten(xss) == xss[0] + xss[1]
  {
    assert xss == [xss[0], xss[1]];
    FlattenTwoOf(xss[0], xss[1]);
  }

  lemma FlattenThreeOf<T>(x: seq<T>, y: seq<T>, z: seq<T>)
    ensures Flatten([x, y, z]) == x + y + z
  {
    assert [x, y, z][1..] == [y, z];
    FlattenTwoOf(y, z);
  }

  /** Taking the first element off the first inner sequence takes it off the whole. */
  lemma FlattenDropHead<T>(xss: seq<seq<T>>)
    requires |xss| > 0 && |xss[0]| > 0
    ensures Flatten(xss) == [xss[0][0]] + Flatten([xss[0][1..]] + xss[1..])
  {
    var g := xss[0];
    var rest := xss[1..];
    var f := Flatten(rest);
    FlattenAppend([g[1..]], rest);
    FlattenOne(g[1..]);
    assert Flatten([g[1..]] + rest) == g[1..] + f;
    FlattenAppend([g], rest);
    FlattenOne(g);
    assert [g] + rest == xss;
    assert Flatten(xss) == g + f;
    SplitHead(g, f);
  }

  lemma SplitHead<T>(g: seq<T>, f: seq<T>)
    requires |g| > 0
    ensures g + f == [g[0]] + (g[1..] + f)
  {
    assert g == [g[0]] + g[1..];
  }

  /** The index of the first occurrence of `v` in `xs`. */
  function FirstIndex<T(==)>(xs: seq<T>, v: T): (i: nat)
    requires v in xs
    ensures i < |xs| && xs[i] == v
    ensures forall j :: 0 <= j < i ==> xs[j] != v
  {
    if xs[0] == v then 0
    else
      assert v in xs[1..] by {
        var k :| 0 <= k < |xs| && xs[k] == v;
        assert xs[1..][k - 1] == v;
      }
      var i := 1 + FirstIndex(xs[1..], v);
      assert forall j :: 1 <= j < i ==> xs[j] == xs[1..][j - 1];
      i
  }

  /** A value already in the prefix `xs[..k]` first occurs where it first
      occurs in that prefix. */
  lemma FirstIndexPrefix<T>(xs: seq<T>, k: nat, v: T)
    requires k <= |xs| && v in xs[..k]
    ensures v in xs && FirstIndex(xs, v) == FirstIndex(xs[..k], v)
  {
    var i := FirstIndex(xs[..k], v);
    assert xs[i] == v;
    var f := FirstIndex(xs, v);
    assert f <= i;
    assert xs[..k][f] == v;
  }

  /** A value absent from `xs[..k]` but at `xs[k]` first occurs at `k`. */
  lemma FirstIndexNew<T>(xs: seq<T>, k: nat)
    requires k < |xs| && xs[k] !in xs[..k]
    ensures FirstIndex(xs, xs[k]) == k
  {
  }

  /** `a` is `b` with some elements left out, the rest in their order. */
  predicate IsSubsequence<T(==)>(a: seq<T>, b: seq<T>)
    decreases |b|
  {
    if |a| == 0 then true
    else if |b| == 0 then false
    else (a[0] == b[0] && IsSubsequence(a[1..], b[1..])) || IsSubsequence(a, b[1..])
  }

  /** Leaving out the first element of `b` keeps `a` a subsequence. */
  lemma SubsequenceOfTail<T>(a: seq<T>, b: seq<T>)
    requires |b| > 0 && IsSubsequence(a, b[1..])
    ensures IsSubsequence(a, b)
  {
  }

  /** The last element of a non-empty sequence. */
  function Last<T>(s: seq<T>): T
    requires |s| > 0
  {
    s[|s| - 1]
  }

  /** Python's `abs`. */
  function Abs(x: int): nat
  {
    if x < 0 then -x else x
  }
}
