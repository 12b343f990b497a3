/** Shot identifiers and the two ways the source reads an ordinal out of them:
    `int(shot.split('_')[1])` (the temporal distance and the splitter) and
    `extract_number`, the first run of digits (the final ordering). */
module Shots {
  import opened Wrappers
  import opened Seqs
  import opened Text
  import opened Sorting

  /** A shot identifier such as `"shot_12"`. */
  type Shot = string

  /** Python's `str.isspace()` on the Latin-1 range. */
  predicate IsSpace(c: char)
  {
    var n := c as int;
    n == 32 || 9 <= n <= 13 || 28 <= n <= 31 || n == 0x85 || n == 0xA0
  }

  function TrimStart(s: string): (r: string)
    ensures |r| > 0 ==> !IsSpace(r[0])
  {
    if |s| > 0 && IsSpace(s[0]) then TrimStart(s[1..]) else s
  }

  function TrimEnd(s: string): (r: string)
    ensures |r| > 0 ==> !IsSpace(r[|r| - 1])
  {
    if |s| > 0 && IsSpace(s[|s| - 1]) then TrimEnd(s[..|s| - 1]) else s
  }

  /** Python's `int(t)` for a base-10 literal without underscores: surrounding
      whitespace, an optional sign, then at least one digit. */
  function ParseInt(t: string): Option<int>
  {
    var u := TrimEnd(TrimStart(t));
    if |u| > 0 && (u[0] == '-' || u[0] == '+') then
      if |u| > 1 && AllDigits(u[1..]) then
        var v: int := DigitsValue(u[1..]);
        Some(if u[0] == '-' then -v else v)
      else None
    else if |u| > 0 && AllDigits(u) then Some(DigitsValue(u))
    else None
  }

  /** The text before the first `'_'` of `s` (all of `s` when there is none). */
  function UpToUnderscore(s: string): (r: string)
    ensures r <= s
    ensures forall i :: 0 <= i < |r| ==> r[i] != '_'
  {
    if |s| == 0 || s[0] == '_' then [] else [s[0]] + UpToUnderscore(s[1..])
  }

  /** `s.split('_')[1]`: the field after the first underscore, or `None` where
      Python raises IndexError because there is no underscore. */
  function SecondField(s: string): (r: Option<string>)
    ensures r.Some? <==> '_' in s
  {
    if |s| == 0 then None
    else if s[0] == '_' then Some(UpToUnderscore(s[1..]))
    else
      assert s == [s[0]] + s[1..];
      SecondField(s[1..])
  }

  /** `int(shot.split('_')[1])`, or `None` where Python raises. */
  function Ordinal(s: Shot): (r: Option<int>)
    ensures r.Some? ==> '_' in s
  {
    match SecondField(s)
    case None => None
    case Some(f) => ParseInt(f)
  }

  predicate Numbered(s: Shot)
  {
    Ordinal(s).Some?
  }

  predicate AllNumbered(xs: seq<Shot>)
  {
    forall i :: 0 <= i < |xs| ==> Numbered(xs[i])
  }

  /** The ordinal as a sort key. Only consulted once every shot involved is
      known to be numbered, so the fallback never shows. */
  function Key(s: Shot): int
  {
    match Ordinal(s)
    case Some(n) => n
    case None => 0
  }

  /** `abs(n_a - n_b)`, the body of `calculate_distance` once both parsed. */
  function Gap(a: Shot, b: Shot): nat
  {
    Abs(Key(a) - Key(b))
  }

  /** `calculate_distance`: the gap between two numbered shots, FormatError otherwise. */
  function Distance(a: Shot, b: Shot): (r: Result<nat>)
    ensures r.Failure? <==> !Numbered(a) || !Numbered(b)
    ensures r.Failure? ==> r.error == FormatError
    ensures r.Success? ==> r.value == Abs(Ordinal(a).value - Ordinal(b).value)
  {
    if Numbered(a) && Numbered(b) then Success(Gap(a, b)) else Failure(FormatError)
  }

  /** The comparator of `sorted(..., key=lambda shot: int(shot.split('_')[1]))`. */
  predicate OrdinalLe(a: Shot, b: Shot)
  {
    Key(a) <= Key(b)
  }

  lemma OrdinalLeIsTotalPreorder()
    ensures TotalPreorder(OrdinalLe)
  {
  }

  // ----- Properties of the ordinal parser -----

  lemma {:induction false} SecondFieldOf(prefix: string, field: string, suffix: string)
    requires forall i :: 0 <= i < |prefix| ==> prefix[i] != '_'
    requires forall i :: 0 <= i < |field| ==> field[i] != '_'
    requires |suffix| == 0 || suffix[0] == '_'
    ensures SecondField(prefix + "_" + field + suffix) == Some(field)
  {
    if |prefix| == 0 {
      var s := "_" + field + suffix;
      assert prefix + "_" + field + suffix == s;
      assert s[0] == '_' && s[1..] == field + suffix;
      UpToUnderscoreOf(field, suffix);
    } else {
      assert (prefix + "_" + field + suffix)[1..] == prefix[1..] + "_" + field + suffix;
      SecondFieldOf(prefix[1..], field, suffix);
    }
  }

  lemma {:induction false} UpToUnderscoreOf(field: string, suffix: string)
    requires forall i :: 0 <= i < |field| ==> field[i] != '_'
    requires |suffix| == 0 || suffix[0] == '_'
    ensures UpToUnderscore(field + suffix) == field
  {
    if |field| == 0 {
      assert field + suffix == suffix;
    } else {
      assert (field + suffix)[1..] == field[1..] + suffix;
      UpToUnderscoreOf(field[1..], suffix);
      assert field == [field[0]] + field[1..];
    }
  }

  lemma ParseDigits(d: string, v: nat)
    requires |d| > 0 && AllDigits(d) && DigitsValue(d) == v
    ensures ParseInt(d) == Some(v)
  {
    assert !IsSpace(d[0]) && !IsSpace(d[|d| - 1]);
    assert TrimStart(d) == d;
    assert TrimEnd(d) == d;
  }

  lemma ParseNegativeDigits(u: string, v: nat)
    requires |u| > 1 && u[0] == '-' && AllDigits(u[1..]) && DigitsValue(u[1..]) == v
    ensures ParseInt(u) == Some(-(v as int))
  {
    assert !IsSpace(u[0]) && !IsSpace(u[|u| - 1]);
    assert TrimStart(u) == u;
    assert TrimEnd(u) == u;
  }

  lemma ParseIntString(i: int)
    ensures ParseInt(IntToString(i)) == Some(i)
  {
    if i < 0 {
      ParseNegativeString(-i);
    } else {
      ParseNatString(i);
    }
  }

  lemma ParseNatString(n: nat)
    ensures ParseInt(IntToString(n)) == Some(n)
  {
    var u := NatToString(n);
    NatToStringValue(n);
    ParseDigits(u, n);
  }

  lemma ParseNegativeString(n: nat)
    requires n > 0
    ensures ParseInt(IntToString(-(n as int))) == Some(-(n as int))
  {
    var u := IntToString(-(n as int));
    assert u[1..] == NatToString(n);
    NatToStringValue(n);
    ParseNegativeDigits(u, n);
  }

  /** Reading the ordinal back out of an id built as `<prefix>_<i><suffix>`
      gives `i` (the prefix has no underscore, the suffix starts another field). */
  lemma OrdinalOfId(prefix: string, i: int, suffix: string)
    requires forall k :: 0 <= k < |prefix| ==> prefix[k] != '_'
    requires |suffix| == 0 || suffix[0] == '_'
    ensures Ordinal(prefix + "_" + IntToString(i) + suffix) == Some(i)
  {
    var f := IntToString(i);
    assert forall k :: 0 <= k < |f| ==> f[k] != '_' by {
      if i < 0 {
        assert forall k :: 1 <= k < |f| ==> f[k] == NatToString(-i)[k - 1];
      }
    }
    SecondFieldOf(prefix, f, suffix);
    ParseIntString(i);
  }

  /** An id with no underscore has no ordinal (`split('_')[1]` raises IndexError). */
  lemma {:induction false} NoUnderscoreNoOrdinal(s: string)
    requires forall k :: 0 <= k < |s| ==> s[k] != '_'
    ensures !Numbered(s)
  {
    if |s| > 0 {
      NoUnderscoreNoOrdinal(s[1..]);
    }
  }

  lemma DistanceSymmetric(a: Shot, b: Shot)
    ensures Distance(a, b) == Distance(b, a)
  {
  }

  lemma DistanceToSelf(a: Shot)
    ensures Numbered(a) ==> Distance(a, a) == Success(0)
    ensures !Numbered(a) ==> Distance(a, a) == Failure(FormatError)
  {
  }

  /** The distance of `shot_<m>` and `shot_<n>` is `|m - n|`. */
  lemma DistanceOfShotIds(m: int, n: int)
    ensures Distance("shot_" + IntToString(m), "shot_" + IntToString(n)) == Success(Abs(m - n))
  {
    ShotIdOrdinal(m);
    ShotIdOrdinal(n);
  }

  lemma ShotIdOrdinal(m: int)
    ensures Ordinal("shot_" + IntToString(m)) == Some(m)
  {
    OrdinalOfId("shot", m, "");
    assert "shot" + "_" + IntToString(m) + "" == "shot_" + IntToString(m);
  }

  /** The example of the docstring: `shot_1` and `shot_5` are 4 apart. */
  lemma DistanceExample()
    ensures Distance("shot_1", "shot_5") == Success(4)
  {
    assert NatToString(1) == "1" && NatToString(5) == "5";
    OrdinalOfId("shot", 1, "");
    assert "shot" + "_" + IntToString(1) + "" == "shot_1";
    OrdinalOfId("shot", 5, "");
    assert "shot" + "_" + IntToString(5) + "" == "shot_5";
  }

  /** The ordinals of the shot names the docstrings use. */
  lemma DocShotOrdinals()
    ensures Numbered("shot_1") && Key("shot_1") == 1
    ensures Numbered("shot_2") && Key("shot_2") == 2
    ensures Numbered("shot_10") && Key("shot_10") == 10
    ensures Numbered("shot_15") && Key("shot_15") == 15
  {
    DocShot1();
    DocShot2();
    DocShot10();
    DocShot15();
  }

  lemma DocShot1()
    ensures Numbered("shot_1") && Key("shot_1") == 1
  {
    assert NatToString(1) == "1";
    ShotIdOrdinal(1);
    assert "shot_" + IntToString(1) == "shot_1";
  }

  lemma DocShot2()
    ensures Numbered("shot_2") && Key("shot_2") == 2
  {
    assert NatToString(2) == "2";
    ShotIdOrdinal(2);
    assert "shot_" + IntToString(2) == "shot_2";
  }

  lemma DocShot10()
    ensures Numbered("shot_10") && Key("shot_10") == 10
  {
    assert NatToString(10) == "1" + "0";
    ShotIdOrdinal(10);
    assert "shot_" + IntToString(10) == "shot_10";
  }

  lemma DocShot15()
    ensures Numbered("shot_15") && Key("shot_15") == 15
  {
    assert NatToString(15) == "1" + "5";
    ShotIdOrdinal(15);
    assert "shot_" + IntToString(15) == "shot_15";
  }

  // ----- extract_number -----

  /** `extract_number`: `int(re.search(r'\d+', s).group())`, or infinity. */
  datatype NumKey = Finite(n: nat) | Infinite

  /** The longest prefix of `s` made of digits. */
  function LeadingDigits(s: string): (r: string)
    ensures r <= s && AllDigits(r)
    ensures |r| < |s| ==> !IsDigit(s[|r|])
  {
    if |s| > 0 && IsDigit(s[0]) then [s[0]] + LeadingDigits(s[1..]) else []
  }

  function FirstNumber(s: string): (r: NumKey)
    ensures r.Infinite? <==> forall i :: 0 <= i < |s| ==> !IsDigit(s[i])
  {
    if |s| == 0 then Infinite
    else if IsDigit(s[0]) then Finite(DigitsValue(LeadingDigits(s)))
    else FirstNumber(s[1..])
  }

  lemma {:induction false} LeadingDigitsOf(d: string, q: string)
    requires AllDigits(d)
    requires |q| == 0 || !IsDigit(q[0])
    ensures LeadingDigits(d + q) == d
  {
    if |d| == 0 {
      assert d + q == q;
    } else {
      assert (d + q)[1..] == d[1..] + q;
      LeadingDigitsOf(d[1..], q);
      assert d == [d[0]] + d[1..];
    }
  }

  /** The first digit run of `<p><n><q>` is `n` when `p` has no digit and `q`
      does not continue the run. */
  lemma {:induction false} FirstNumberOf(p: string, n: nat, q: string)
    requires forall i :: 0 <= i < |p| ==> !IsDigit(p[i])
    requires |q| == 0 || !IsDigit(q[0])
    ensures FirstNumber(p + NatToString(n) + q) == Finite(n)
  {
    var d := NatToString(n);
    if |p| == 0 {
      assert p + d + q == d + q;
      LeadingDigitsOf(d, q);
      NatToStringValue(n);
    } else {
      assert (p + d + q)[1..] == p[1..] + d + q;
      FirstNumberOf(p[1..], n, q);
    }
  }

  /** The examples of the `extract_number` docstring. */
  lemma FirstNumberExamples()
    ensures FirstNumber("shot_10") == Finite(10)
    ensures FirstNumber("scene_15_shot_3") == Finite(15)
    ensures FirstNumber("no_number_shot") == Infinite
  {
    FirstNumberShot();
    FirstNumberScene();
  }

  lemma FirstNumberShot()
    ensures FirstNumber("shot_10") == Finite(10)
  {
    assert NatToString(10) == "10";
    FirstNumberOf("shot_", 10, "");
    assert "shot_" + "10" + "" == "shot_10";
  }

  lemma FirstNumberScene()
    ensures FirstNumber("scene_15_shot_3") == Finite(15)
  {
    assert NatToString(15) == "15";
    FirstNumberOf("scene_", 15, "_shot_3");
    assert "scene_" + "15" + "_shot_3" == "scene_15_shot_3";
  }

  /** Python's `<=` between an int and `float('inf')`. */
  predicate NumKeyLe(a: NumKey, b: NumKey)
  {
    match (a, b)
    case (Finite(x), Finite(y)) => x <= y
    case (Finite(_), Infinite) => true
    case (Infinite, Finite(_)) => false
    case (Infinite, Infinite) => true
  }

  /** The comparator of `sort(key=extract_number)`. */
  predicate NumberLe(a: Shot, b: Shot)
  {
    NumKeyLe(FirstNumber(a), FirstNumber(b))
  }

  lemma NumberLeIsTotalPreorder()
    ensures TotalPreorder(NumberLe)
  {
  }

  /** The comparator of `sorted(shots)`: Python string order. */
  lemma StrLeIsTotalPreorder()
    ensures TotalPreorder(StrLe)
  {
    forall a, b ensures StrLe(a, b) || StrLe(b, a) {
      StrLeTotal(a, b);
    }
    forall a, b, c | StrLe(a, b) && StrLe(b, c) ensures StrLe(a, c) {
      StrLeTransitive(a, b, c);
    }
  }
}
