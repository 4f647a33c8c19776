/**
 * The ordering behind strset_comp (2_strset/src/strset.cc:60-96): strings are ordered
 * lexicographically, a set is read as the ascending sequence of its elements, and two such
 * sequences are compared element by element, a proper prefix being the smaller one.
 */
module SetOrder {
  import opened Wrappers

  /** std::string::compare < 0: the first differing character decides, a proper prefix is smaller. */
  predicate StrLess(a: string, b: string)
    decreases |a|
  {
    if |a| == 0 then |b| > 0
    else if |b| == 0 then false
    else if a[0] != b[0] then a[0] < b[0]
    else StrLess(a[1..], b[1..])
  }

  /** The sign of std::string::compare. */
  function StrCompare(a: string, b: string): (r: int)
    ensures r == 0 <==> a == b
    ensures r == -1 <==> StrLess(a, b)
    ensures r == 1 <==> StrLess(b, a)
  {
    StrLessIrreflexive(a);
    StrLessTotal(a, b);
    StrLessAsymmetric(a, b);
    if a == b then 0 else if StrLess(a, b) then -1 else 1
  }

  lemma {:induction false} StrLessIrreflexive(a: string)
    ensures !StrLess(a, a)
    decreases |a|
  {
    if |a| > 0 {
      StrLessIrreflexive(a[1..]);
    }
  }

  lemma {:induction false} StrLessAsymmetric(a: string, b: string)
    ensures StrLess(a, b) ==> !StrLess(b, a)
    decreases |a|
  {
    if |a| > 0 && |b| > 0 && a[0] == b[0] {
      StrLessAsymmetric(a[1..], b[1..]);
    }
  }

  lemma {:induction false} StrLessTotal(a: string, b: string)
    ensures a == b || StrLess(a, b) || StrLess(b, a)
    decreases |a|
  {
    if |a| > 0 && |b| > 0 && a[0] == b[0] {
      StrLessTotal(a[1..], b[1..]);
      if a[1..] == b[1..] {
        assert a == [a[0]] + a[1..] && b == [b[0]] + b[1..];
      }
    }
  }

  lemma {:induction false} StrLessTransitive(a: string, b: string, c: string)
    requires StrLess(a, b) && StrLess(b, c)
    ensures StrLess(a, c)
    decreases |a|
  {
    if |a| > 0 && a[0] == b[0] && b[0] == c[0] {
      StrLessTransitive(a[1..], b[1..], c[1..]);
    }
  }

  /** Strictly ascending: the order in which a std::set<std::string> is iterated. */
  predicate Ascending(q: seq<string>) {
    forall i, j :: 0 <= i < j < |q| ==> StrLess(q[i], q[j])
  }

  predicate IsMin(m: string, s: set<string>) {
    m in s && forall x :: x in s ==> !StrLess(x, m)
  }

  lemma {:induction false} MinExists(s: set<string>)
    requires s != {}
    ensures exists m :: IsMin(m, s)
    decreases |s|
  {
    var y :| y in s;
    var rest := s - {y};
    if rest == {} {
      assert s == {y};
      StrLessIrreflexive(y);
      assert IsMin(y, s);
    } else {
      MinExists(rest);
      var m :| IsMin(m, rest);
      if StrLess(y, m) {
        StrLessIrreflexive(y);
        forall x | x in rest
          ensures !StrLess(x, y)
        {
          if StrLess(x, y) {
            StrLessTransitive(x, y, m);
          }
        }
        assert IsMin(y, s);
      } else {
        assert IsMin(m, s);
      }
    }
  }

  lemma MinUnique(s: set<string>, m1: string, m2: string)
    requires IsMin(m1, s) && IsMin(m2, s)
    ensures m1 == m2
  {
    StrLessTotal(m1, m2);
  }

  /** The elements of a set in ascending order. */
  function Sorted(s: set<string>): (q: seq<string>)
    ensures |q| == |s|
    ensures forall x :: x in q <==> x in s
    ensures Ascending(q)
    decreases |s|
  {
    if s == {} then []
    else
      MinExists(s);
      assert forall m1, m2 :: IsMin(m1, s) && IsMin(m2, s) ==> m1 == m2 by {
        forall m1, m2 | IsMin(m1, s) && IsMin(m2, s) ensures m1 == m2 {
          MinUnique(s, m1, m2);
        }
      }
      var m :| IsMin(m, s);
      var rest := Sorted(s - {m});
      assert forall j :: 0 <= j < |rest| ==> StrLess(m, rest[j]) by {
        forall j | 0 <= j < |rest| ensures StrLess(m, rest[j]) {
          assert rest[j] in rest;
          StrLessTotal(m, rest[j]);
        }
      }
      [m] + rest
  }

  lemma AscendingHead(q: seq<string>, s: set<string>)
    requires q != [] && Ascending(q) && forall x :: x in q <==> x in s
    ensures IsMin(q[0], s)
  {
    forall x | x in s ensures !StrLess(x, q[0]) {
      var i :| 0 <= i < |q| && q[i] == x;
      if i == 0 {
        StrLessIrreflexive(x);
      } else {
        StrLessAsymmetric(q[0], x);
      }
    }
  }

  lemma AscendingTail(q: seq<string>, s: set<string>)
    requires q != [] && Ascending(q) && forall x :: x in q <==> x in s
    ensures Ascending(q[1..])
    ensures forall x :: x in q[1..] <==> x in s - {q[0]}
  {
    forall x ensures x in q[1..] <==> x in s - {q[0]} {
      if x in q[1..] {
        var i :| 1 <= i < |q| && q[i] == x;
        StrLessIrreflexive(q[0]);
      }
      if x in s - {q[0]} {
        var i :| 0 <= i < |q| && q[i] == x;
        assert i != 0;
        assert q[1..][i - 1] == x;
      }
    }
  }

  /** The ascending sequence of a set is the only ascending sequence with those elements. */
  lemma {:induction false} SortedUnique(s: set<string>, q: seq<string>)
    requires Ascending(q) && forall x :: x in q <==> x in s
    ensures q == Sorted(s)
    decreases |q|
  {
    var sorted := Sorted(s);
    if q == [] {
      assert s == {};
    } else {
      assert q[0] in s;
      AscendingHead(q, s);
      AscendingHead(sorted, s);
      MinUnique(s, q[0], sorted[0]);
      AscendingTail(q, s);
      AscendingTail(sorted, s);
      SortedUnique(s - {q[0]}, q[1..]);
      SortedUnique(s - {q[0]}, sorted[1..]);
      assert q == [q[0]] + q[1..] && sorted == [sorted[0]] + sorted[1..];
    }
  }

  /**
   * compare_two_existing_sets over the ascending sequences: walk while the elements agree; the
   * side that ends first is smaller; otherwise the first mismatching strings decide.
   */
  function CompareSeqs(a: seq<string>, b: seq<string>): (r: int)
    ensures r in {-1, 0, 1}
    decreases |a|
  {
    if |a| == 0 && |b| == 0 then 0
    else if |a| == 0 then -1
    else if |b| == 0 then 1
    else if a[0] != b[0] then StrCompare(a[0], b[0])
    else CompareSeqs(a[1..], b[1..])
  }

  /** strset_comp on two sets, a missing set being passed as the empty set. */
  function CompareSets(s1: set<string>, s2: set<string>): (r: int)
    ensures r in {-1, 0, 1}
  {
    CompareSeqs(Sorted(s1), Sorted(s2))
  }

  lemma {:induction false} CompareSeqsAntisymmetric(a: seq<string>, b: seq<string>)
    ensures CompareSeqs(a, b) == -CompareSeqs(b, a)
    ensures CompareSeqs(a, b) == 0 <==> a == b
    decreases |a|
  {
    if |a| > 0 && |b| > 0 {
      if a[0] == b[0] {
        CompareSeqsAntisymmetric(a[1..], b[1..]);
        if a[1..] == b[1..] {
          assert a == [a[0]] + a[1..] && b == [b[0]] + b[1..];
        }
      }
    }
  }

  /** comp(a, b) == -comp(b, a), and comp is 0 exactly on equal sets (so comp(a, a) == 0). */
  lemma CompareSetsAntisymmetric(s1: set<string>, s2: set<string>)
    ensures CompareSets(s1, s2) == -CompareSets(s2, s1)
    ensures CompareSets(s1, s2) == 0 <==> s1 == s2
  {
    CompareSeqsAntisymmetric(Sorted(s1), Sorted(s2));
    if Sorted(s1) == Sorted(s2) {
      assert forall x :: x in s1 <==> x in s2;
    }
  }

  /** The lexicographic order on sequences of strings: a proper prefix or a smaller first mismatch. */
  predicate LexLess(a: seq<string>, b: seq<string>) {
    (|a| < |b| && a == b[..|a|]) ||
    (exists k :: 0 <= k < |a| && k < |b| && a[..k] == b[..k] && StrLess(a[k], b[k]))
  }

  /** The comparison is -1 exactly when the first ascending sequence is lexicographically smaller. */
  lemma {:induction false} CompareSeqsIsLexicographic(a: seq<string>, b: seq<string>)
    ensures CompareSeqs(a, b) == -1 <==> LexLess(a, b)
    decreases |a|
  {
    if |a| == 0 {
      assert |b| > 0 ==> a == b[..0];
    } else if |b| == 0 {
    } else if a[0] != b[0] {
      assert !(|a| < |b| && a == b[..|a|]) by {
        if |a| < |b| {
          assert b[..|a|][0] == b[0];
        }
      }
      forall k | 0 < k <= |a| && k <= |b|
        ensures a[..k] != b[..k]
      {
        assert a[..k][0] == a[0] && b[..k][0] == b[0];
      }
      assert a[..0] == b[..0];
    } else {
      var a', b' := a[1..], b[1..];
      CompareSeqsIsLexicographic(a', b');
      if LexLess(a', b') {
        if |a'| < |b'| && a' == b'[..|a'|] {
          assert a == [a[0]] + a' && b[..|a|] == [b[0]] + b'[..|a'|];
        } else {
          var k :| 0 <= k < |a'| && k < |b'| && a'[..k] == b'[..k] && StrLess(a'[k], b'[k]);
          assert a[..k + 1] == [a[0]] + a'[..k] && b[..k + 1] == [b[0]] + b'[..k];
        }
      }
      if LexLess(a, b) {
        assert !StrLess(a[0], b[0]) by {
          StrLessIrreflexive(a[0]);
        }
        if |a| < |b| && a == b[..|a|] {
          assert a' == b[..|a|][1..];
        } else {
          var k :| 0 <= k < |a| && k < |b| && a[..k] == b[..k] && StrLess(a[k], b[k]);
          assert k != 0;
          assert a'[..k - 1] == a[..k][1..] && b'[..k - 1] == b[..k][1..];
        }
      }
    }
  }

  // ---------------------------------------------------------------------------------------
  // The comparison as written

  /**
   * compare_two_existing_sets as written: the three-iterator std::mismatch reads the second
   * range without checking its end. None stands for that read past the end, which the source
   * does not define; otherwise the branches at strset.cc:77-95 give the result.
   */
  function CompareAsWritten(a: seq<string>, b: seq<string>): (r: Option<int>)
    ensures r.None? <==> |b| < |a| && b == a[..|b|]
    ensures r.Some? ==> r.value == CompareSeqs(a, b)
    decreases |a|
  {
    if |a| == 0 then Some(if |b| == 0 then 0 else -1)
    else if |b| == 0 then None
    else if a[0] != b[0] then Some(StrCompare(a[0], b[0]))
    else
      var r := CompareAsWritten(a[1..], b[1..]);
      assert |b| < |a| && b == a[..|b|] <==> |b[1..]| < |a[1..]| && b[1..] == a[1..][..|b[1..]|] by {
        if |b| < |a| && b == a[..|b|] {
          assert b[1..] == a[..|b|][1..];
        }
        if |b[1..]| < |a[1..]| && b[1..] == a[1..][..|b[1..]|] {
          assert b == [b[0]] + b[1..] && a[..|b|] == [a[0]] + a[1..][..|b[1..]|];
        }
      }
      r
  }

  /** Comparing {"a", "b"} with {"a"} reads past the end of the second set. */
  lemma CompareAsWrittenReadsPastEnd()
    ensures Sorted({"a", "b"}) == ["a", "b"] && Sorted({"a"}) == ["a"]
    ensures CompareAsWritten(Sorted({"a", "b"}), Sorted({"a"})).None?
    ensures CompareSets({"a", "b"}, {"a"}) == 1
  {
    assert StrLess("a", "b");
    SortedUnique({"a", "b"}, ["a", "b"]);
    SortedUnique({"a"}, ["a"]);
    assert ["a", "b"][1..] == ["b"];
  }
}
