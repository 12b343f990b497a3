/** Python's `sorted(xs, key=k)`: a stable sort. It is modelled as an insertion
    sort over a comparator `le(a, b)` meaning "the key of a is at most the key of
    b"; `sorted` only ever asks `key(b) < key(a)`, which is `!le(a, b)`. */
module Sorting {

  /** `le` is total and transitive: the order that key comparison induces. */
  ghost predicate TotalPreorder<T(!new)>(le: (T, T) -> bool)
  {
    && (forall a, b :: le(a, b) || le(b, a))
    && (forall a, b, c :: le(a, b) && le(b, c) ==> le(a, c))
  }

  ghost predicate SortedBy<T>(s: seq<T>, le: (T, T) -> bool)
  {
    forall i, j :: 0 <= i < j < |s| ==> le(s[i], s[j])
  }

  /** Elements whose key equals the key of `k`, in their order in `s`. */
  function SameKey<T>(s: seq<T>, k: T, le: (T, T) -> bool): seq<T>
  {
    if |s| == 0 then []
    else (if le(s[0], k) && le(k, s[0]) then [s[0]] else []) + SameKey(s[1..], k, le)
  }

  /** Puts `x` in front of the first element whose key is not below the key of
      `x`; `x` stands for an element that came earlier than all of `s`. */
  function Insert<T>(x: T, s: seq<T>, le: (T, T) -> bool): (r: seq<T>)
    ensures multiset(r) == multiset(s) + multiset{x}
  {
    if |s| == 0 || le(x, s[0]) then [x] + s
    else
      assert s == [s[0]] + s[1..];
      [s[0]] + Insert(x, s[1..], le)
  }

  /** The sorted permutation of `s`; elements with equal keys keep their order. */
  function SortBy<T>(s: seq<T>, le: (T, T) -> bool): (r: seq<T>)
    ensures multiset(r) == multiset(s)
    ensures |r| == |s|
  {
    if |s| == 0 then []
    else
      assert s == [s[0]] + s[1..];
      Insert(s[0], SortBy(s[1..], le), le)
  }

  lemma SortBySmall<T>(s: seq<T>, le: (T, T) -> bool)
    requires |s| <= 1
    ensures SortBy(s, le) == s
  {
    if |s| == 1 {
      assert s[1..] == [];
    }
  }

  /** Sorting a sequence already in order leaves it unchanged. */
  lemma {:induction false} SortByOfSorted<T>(s: seq<T>, le: (T, T) -> bool)
    requires forall i :: 0 <= i < |s| - 1 ==> le(s[i], s[i + 1])
    ensures SortBy(s, le) == s
  {
    if |s| > 0 {
      var t := s[1..];
      ChainTail(s, le);
      SortByOfSorted(t, le);
      InsertFront(s[0], t, le);
      assert [s[0]] + t == s;
    }
  }

  lemma ChainTail<T>(s: seq<T>, le: (T, T) -> bool)
    requires |s| > 0
    requires forall i :: 0 <= i < |s| - 1 ==> le(s[i], s[i + 1])
    ensures forall i :: 0 <= i < |s[1..]| - 1 ==> le(s[1..][i], s[1..][i + 1])
    ensures |s| == 1 || le(s[0], s[1..][0])
  {
    forall i | 0 <= i < |s[1..]| - 1
      ensures le(s[1..][i], s[1..][i + 1])
    {
      assert s[1..][i] == s[i + 1] && s[1..][i + 1] == s[i + 2];
    }
  }

  /** An element no greater than the head goes in front. */
  lemma InsertFront<T>(x: T, s: seq<T>, le: (T, T) -> bool)
    requires |s| == 0 || le(x, s[0])
    ensures Insert(x, s, le) == [x] + s
  {
  }

  lemma {:induction false} InsertSorted<T(!new)>(x: T, s: seq<T>, le: (T, T) -> bool)
    requires TotalPreorder(le)
    requires SortedBy(s, le)
    ensures SortedBy(Insert(x, s, le), le)
  {
    if |s| == 0 || le(x, s[0]) {
    } else {
      var t := Insert(x, s[1..], le);
      InsertSorted(x, s[1..], le);
      forall j | 0 <= j < |t|
        ensures le(s[0], t[j])
      {
        assert t[j] in multiset(t);
        assert t[j] == x || t[j] in multiset(s[1..]);
        if t[j] != x {
          var m :| 0 <= m < |s[1..]| && s[1..][m] == t[j];
          assert s[1 + m] == t[j];
        }
      }
    }
  }

  lemma {:induction false} SortBySorted<T(!new)>(s: seq<T>, le: (T, T) -> bool)
    requires TotalPreorder(le)
    ensures SortedBy(SortBy(s, le), le)
  {
    if |s| > 0 {
      SortBySorted(s[1..], le);
      InsertSorted(s[0], SortBy(s[1..], le), le);
    }
  }

  lemma {:induction false} InsertSameKey<T(!new)>(x: T, s: seq<T>, k: T, le: (T, T) -> bool)
    requires TotalPreorder(le)
    requires SortedBy(s, le)
    ensures SameKey(Insert(x, s, le), k, le)
         == (if le(x, k) && le(k, x) then [x] else []) + SameKey(s, k, le)
  {
    if |s| == 0 || le(x, s[0]) {
      assert ([x] + s)[1..] == s;
    } else {
      var r := Insert(x, s, le);
      assert r[1..] == Insert(x, s[1..], le);
      InsertSameKey(x, s[1..], k, le);
    }
  }

  /** Sorting is stable: for every key, the elements carrying it appear in the
      output in the same order as in the input. */
  lemma {:induction false} SortByStable<T(!new)>(s: seq<T>, k: T, le: (T, T) -> bool)
    requires TotalPreorder(le)
    ensures SameKey(SortBy(s, le), k, le) == SameKey(s, k, le)
  {
    if |s| > 0 {
      SortBySorted(s[1..], le);
      InsertSameKey(s[0], SortBy(s[1..], le), k, le);
      SortByStable(s[1..], k, le);
    }
  }
}
