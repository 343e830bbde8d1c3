/**
  The ordering `std::string` uses for `operator<`: lexicographic comparison of
  characters, a proper prefix ordering before its extensions (section
  [string.compare] of ISO/IEC 14882). It is the ordering behind `maximum` on
  strings, the key order of `std::map<std::string, _>`, and `std::sort` /
  `std::binary_search` over titles.
 */
module LexOrder {

  /** `a < b` on strings, one character at a time. */
  predicate LexLess(a: string, b: string)
    // nothing is below the empty string, and first characters never disagree
    // with the order
    ensures LexLess(a, b) ==> |b| > 0 && (|a| > 0 ==> a[0] <= b[0])
    // a proper prefix is below its extensions
    ensures |a| < |b| && a == b[..|a|] ==> LexLess(a, b)
  {
    if |a| == 0 then |b| > 0
    else if |b| == 0 then false
    else if a[0] != b[0] then a[0] < b[0]
    else LexLess(a[1..], b[1..])
  }

  /** `a <= b`. */
  predicate LexLessEq(a: string, b: string)
  {
    a == b || LexLess(a, b)
  }

  /** The closed-form reading of the standard: `a` is a proper prefix of `b`,
      or the two agree on a common prefix and differ first at a smaller
      character of `a`. */
  ghost predicate LexLessSpec(a: string, b: string)
  {
    (|a| < |b| && a == b[..|a|])
    || exists k :: 0 <= k < |a| && k < |b| && a[..k] == b[..k] && a[k] < b[k]
  }

  lemma {:induction false} LexLessMeansSpec(a: string, b: string)
    ensures LexLess(a, b) <==> LexLessSpec(a, b)
    decreases |a|
  {
    if |a| == 0 || |b| == 0 {
      if |a| == 0 && |b| > 0 {
        assert a == b[..|a|];
      }
    } else if a[0] != b[0] {
      if a[0] < b[0] {
        assert a[..0] == b[..0];
      }
    } else {
      LexLessMeansSpec(a[1..], b[1..]);
      if LexLessSpec(a[1..], b[1..]) {
        if |a[1..]| < |b[1..]| && a[1..] == b[1..][..|a[1..]|] {
          assert a == [a[0]] + a[1..];
          assert b[..|a|] == [b[0]] + b[1..][..|a[1..]|];
        } else {
          var k :| 0 <= k < |a[1..]| && k < |b[1..]| && a[1..][..k] == b[1..][..k] && a[1..][k] < b[1..][k];
          assert a[..k + 1] == [a[0]] + a[1..][..k];
          assert b[..k + 1] == [b[0]] + b[1..][..k];
          assert a[k + 1] < b[k + 1];
        }
      }
      if LexLessSpec(a, b) {
        if |a| < |b| && a == b[..|a|] {
          assert a[1..] == b[1..][..|a[1..]|];
        } else {
          var k :| 0 <= k < |a| && k < |b| && a[..k] == b[..k] && a[k] < b[k];
          assert k > 0;
          assert a[1..][..k - 1] == a[..k][1..] == b[..k][1..] == b[1..][..k - 1];
          assert a[1..][k - 1] < b[1..][k - 1];
        }
      }
    }
  }

  lemma {:induction false} LexLessIrreflexive(a: string)
    ensures !LexLess(a, a)
    decreases |a|
  {
    if |a| > 0 {
      LexLessIrreflexive(a[1..]);
    }
  }

  lemma {:induction false} LexLessTransitive(a: string, b: string, c: string)
    requires LexLess(a, b) && LexLess(b, c)
    ensures LexLess(a, c)
    decreases |a|
  {
    if |a| > 0 && a[0] == b[0] && b[0] == c[0] {
      LexLessTransitive(a[1..], b[1..], c[1..]);
    }
  }

  lemma {:induction false} LexLessTotal(a: string, b: string)
    requires a != b
    ensures LexLess(a, b) || LexLess(b, a)
    decreases |a|
  {
    if |a| > 0 && |b| > 0 && a[0] == b[0] {
      assert a == [a[0]] + a[1..] && b == [b[0]] + b[1..];
      LexLessTotal(a[1..], b[1..]);
    }
  }

  lemma LexLessAsymmetric(a: string, b: string)
    requires LexLess(a, b)
    ensures !LexLess(b, a)
  {
    if LexLess(b, a) {
      LexLessTransitive(a, b, a);
      LexLessIrreflexive(a);
    }
  }

  /** `a` and `b` agree before position `k` and differ there at a smaller
      character of `a`. */
  predicate FirstDifferenceBelow(a: string, b: string, k: nat)
  {
    k < |a| && k < |b| && a[..k] == b[..k] && a[k] < b[k]
  }

  /** `a < b` once a first difference is found at a smaller character of `a`. */
  lemma LexLessAtFirstDifference(a: string, b: string, k: nat)
    requires FirstDifferenceBelow(a, b, k)
    ensures LexLess(a, b)
  {
    LexLessMeansSpec(a, b);
  }

  /** Ascending in the sense of `std::sort`: no later element is smaller. */
  ghost predicate Ascending(s: seq<string>)
  {
    forall i, j :: 0 <= i < j < |s| ==> !LexLess(s[j], s[i])
  }

  /** Strictly ascending: the order in which a `std::map` visits its keys. */
  ghost predicate StrictlyAscending(s: seq<string>)
  {
    forall i, j :: 0 <= i < j < |s| ==> LexLess(s[i], s[j])
  }

  /** A sequence whose neighbours are in strictly ascending order is
      strictly ascending throughout. */
  lemma {:induction false} ChainIsStrictlyAscending(s: seq<string>)
    requires forall i :: 0 <= i < |s| - 1 ==> LexLess(s[i], s[i + 1])
    ensures StrictlyAscending(s)
    decreases |s|
  {
    if |s| > 1 {
      ChainIsStrictlyAscending(s[1..]);
      forall i, j | 0 <= i < j < |s|
        ensures LexLess(s[i], s[j])
      {
        if i > 0 {
          assert LexLess(s[1..][i - 1], s[1..][j - 1]);
        } else if j > 1 {
          assert LexLess(s[1..][0], s[1..][j - 1]);
          LexLessTransitive(s[0], s[1], s[j]);
        }
      }
    }
  }

  /** A sequence each of whose neighbours first differ at the position
      `ks` gives, at a smaller character of the earlier one, is strictly
      ascending. */
  lemma ChainByFirstDifferences(s: seq<string>, ks: seq<nat>)
    requires |ks| + 1 == |s|
    requires forall i :: 0 <= i < |ks| ==> FirstDifferenceBelow(s[i], s[i + 1], ks[i])
    ensures StrictlyAscending(s)
  {
    forall i | 0 <= i < |s| - 1
      ensures LexLess(s[i], s[i + 1])
    {
      LexLessAtFirstDifference(s[i], s[i + 1], ks[i]);
    }
    ChainIsStrictlyAscending(s);
  }

  /** Strictly ascending implies ascending. */
  lemma StrictlyAscendingIsAscending(s: seq<string>)
    requires StrictlyAscending(s)
    ensures Ascending(s)
  {
    forall i, j | 0 <= i < j < |s|
      ensures !LexLess(s[j], s[i])
    {
      LexLessAsymmetric(s[i], s[j]);
    }
  }

  /** In an ascending sequence, an element below `x` has only elements below
      `x` before it. */
  lemma AscendingBelow(s: seq<string>, i: nat, j: nat, x: string)
    requires Ascending(s) && i <= j < |s| && LexLess(s[j], x)
    ensures LexLess(s[i], x)
  {
    if s[i] != s[j] {
      LexLessTotal(s[i], s[j]);
      LexLessTransitive(s[i], s[j], x);
    }
  }

  /** No element occurs twice. */
  ghost predicate Distinct(s: seq<string>)
  {
    forall i, j :: 0 <= i < j < |s| ==> s[i] != s[j]
  }

  lemma StrictlyAscendingIsDistinct(s: seq<string>)
    requires StrictlyAscending(s)
    ensures Distinct(s)
  {
    forall i, j | 0 <= i < j < |s|
      ensures s[i] != s[j]
    {
      LexLessIrreflexive(s[i]);
    }
  }

  /** Two ascending arrangements of the same multiset of strings coincide:
      the outcome of a sort is determined by its input. */
  lemma {:induction false} AscendingUnique(a: seq<string>, b: seq<string>)
    requires Ascending(a) && Ascending(b)
    requires multiset(a) == multiset(b)
    ensures a == b
    decreases |a|
  {
    if |a| > 0 {
      assert |b| == |a| by {
        assert |b| == |multiset(b)| == |multiset(a)| == |a|;
      }
      AscendingHeadsAgree(a, b);
      MultisetTail(a);
      MultisetTail(b);
      AscendingUnique(a[1..], b[1..]);
      assert a == [a[0]] + a[1..] && b == [b[0]] + b[1..];
    }
  }

  lemma AscendingHeadsAgree(a: seq<string>, b: seq<string>)
    requires Ascending(a) && Ascending(b)
    requires multiset(a) == multiset(b)
    requires |a| > 0 && |b| > 0
    ensures a[0] == b[0]
  {
    assert a[0] in multiset(b) by { assert a[0] in multiset(a); }
    assert b[0] in multiset(a) by { assert b[0] in multiset(b); }
    var i :| 0 <= i < |a| && a[i] == b[0];
    var j :| 0 <= j < |b| && b[j] == a[0];
    assert !LexLess(a[i], a[0]) by { if i == 0 { LexLessIrreflexive(a[0]); } }
    assert !LexLess(b[j], b[0]) by { if j == 0 { LexLessIrreflexive(b[0]); } }
    if a[0] != b[0] {
      LexLessTotal(a[0], b[0]);
    }
  }

  lemma MultisetTail(a: seq<string>)
    requires |a| > 0
    ensures multiset(a[1..]) == multiset(a) - multiset{a[0]}
  {
    assert a == [a[0]] + a[1..];
    assert multiset(a) == multiset{a[0]} + multiset(a[1..]);
  }

  /** The set of elements of a sequence. */
  ghost function Elements(s: seq<string>): set<string>
  {
    set x | x in s
  }

  /** Two strictly ascending sequences of the same keys coincide: a map's
      traversal order is determined by its key set. */
  lemma {:induction false} StrictlyAscendingUnique(a: seq<string>, b: seq<string>)
    requires StrictlyAscending(a) && StrictlyAscending(b)
    requires Elements(a) == Elements(b)
    ensures a == b
    decreases |a|
  {
    if |a| > 0 {
      assert a[0] in Elements(a);
      assert |b| > 0;
      assert b[0] in Elements(b);
      var i :| 0 <= i < |a| && a[i] == b[0];
      var j :| 0 <= j < |b| && b[j] == a[0];
      if a[0] != b[0] {
        assert i > 0 && j > 0;
        assert LexLess(a[0], b[0]);
        assert LexLess(b[0], a[0]);
        LexLessAsymmetric(a[0], b[0]);
      }
      var sa := Elements(a[1..]);
      var sb := Elements(b[1..]);
      forall x | x in sa
        ensures x in sb
      {
        var k :| 1 <= k < |a| && a[k] == x;
        assert LexLess(a[0], x);
        LexLessIrreflexive(x);
        assert x in Elements(a);
        var m :| 0 <= m < |b| && b[m] == x;
        assert m != 0;
        assert b[1..][m - 1] == x;
      }
      forall x | x in sb
        ensures x in sa
      {
        var k :| 1 <= k < |b| && b[k] == x;
        assert LexLess(b[0], x);
        LexLessIrreflexive(x);
        assert x in Elements(b);
        var m :| 0 <= m < |a| && a[m] == x;
        assert m != 0;
        assert a[1..][m - 1] == x;
      }
      StrictlyAscendingUnique(a[1..], b[1..]);
    } else {
      ElementsEmpty(b);
    }
  }

  lemma ElementsSnoc(s: seq<string>, x: string)
    ensures Elements(s + [x]) == Elements(s) + {x}
  {
    assert forall y :: y in s + [x] <==> y in s || y == x;
  }

  lemma ElementsEmpty(s: seq<string>)
    ensures Elements(s) == {} <==> |s| == 0
  {
    if |s| > 0 {
      assert s[0] in Elements(s);
    }
  }

  /** A sequence has at most as many distinct elements as positions. */
  lemma {:induction false} ElementsBound(s: seq<string>)
    ensures |Elements(s)| <= |s|
    decreases |s|
  {
    if |s| == 0 {
      ElementsEmpty(s);
    } else {
      var init := s[..|s| - 1];
      assert s == init + [s[|s| - 1]];
      ElementsSnoc(init, s[|s| - 1]);
      ElementsBound(init);
    }
  }

  /** A sequence with as many distinct elements as positions repeats none. */
  lemma {:induction false} CardinalityDistinct(s: seq<string>)
    requires |Elements(s)| == |s|
    ensures Distinct(s)
    decreases |s|
  {
    if |s| > 0 {
      var init := s[..|s| - 1];
      var last := s[|s| - 1];
      assert s == init + [last];
      ElementsSnoc(init, last);
      ElementsBound(init);
      CardinalityDistinct(init);
      forall i, j | 0 <= i < j < |s|
        ensures s[i] != s[j]
      {
        if j < |s| - 1 {
          assert s[i] == init[i] && s[j] == init[j];
        } else {
          assert s[i] == init[i];
        }
      }
    }
  }

  /** Without repetitions, ascending is strictly ascending. */
  lemma AscendingDistinctIsStrict(s: seq<string>)
    requires Ascending(s) && Distinct(s)
    ensures StrictlyAscending(s)
  {
    forall i, j | 0 <= i < j < |s|
      ensures LexLess(s[i], s[j])
    {
      LexLessTotal(s[i], s[j]);
    }
  }

  /** Sequences with the same multiset have the same elements. */
  lemma SameMultisetSameElements(a: seq<string>, b: seq<string>)
    requires multiset(a) == multiset(b)
    ensures Elements(a) == Elements(b)
  {
    forall x
      ensures x in a <==> x in b
    {
      assert x in a <==> x in multiset(a);
      assert x in b <==> x in multiset(b);
    }
  }

  /** A sequence without repetitions has as many elements as its set. */
  lemma {:induction false} DistinctCardinality(s: seq<string>)
    requires Distinct(s)
    ensures |Elements(s)| == |s|
    decreases |s|
  {
    if |s| == 0 {
      ElementsEmpty(s);
    } else {
      var init := s[..|s| - 1];
      assert s == init + [s[|s| - 1]];
      ElementsSnoc(init, s[|s| - 1]);
      DistinctCardinality(init);
    }
  }
}
