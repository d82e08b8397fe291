/**
 * Python's ordering of `str` values (lexicographic by code point, a proper
 * prefix first) and `sorted(list(s))` of a set of strings.
 */
module Ordering {

  /** `a < b` on Python strings. */
  predicate Less(a: string, b: string)
    decreases |a|
  {
    if |a| == 0 then |b| > 0
    else if |b| == 0 then false
    else if a[0] != b[0] then a[0] < b[0]
    else Less(a[1..], b[1..])
  }

  lemma {:induction false} LessIrreflexive(a: string)
    ensures !Less(a, a)
    decreases |a|
  {
    if |a| > 0 {
      LessIrreflexive(a[1..]);
    }
  }

  lemma {:induction false} LessTransitive(a: string, b: string, c: string)
    requires Less(a, b) && Less(b, c)
    ensures Less(a, c)
    decreases |a|
  {
    if |a| > 0 && a[0] == b[0] && b[0] == c[0] {
      LessTransitive(a[1..], b[1..], c[1..]);
    }
  }

  /** Any two strings are equal or ordered one way or the other. */
  lemma {:induction false} LessTotal(a: string, b: string)
    ensures a == b || Less(a, b) || Less(b, a)
    decreases |a|
  {
    if |a| > 0 && |b| > 0 && a[0] == b[0] {
      LessTotal(a[1..], b[1..]);
      if a[1..] == b[1..] {
        assert a == [a[0]] + a[1..] && b == [b[0]] + b[1..];
      }
    }
  }

  lemma {:induction false} LessAsymmetric(a: string, b: string)
    ensures !(Less(a, b) && Less(b, a))
  {
    if Less(a, b) && Less(b, a) {
      LessTransitive(a, b, a);
      LessIrreflexive(a);
    }
  }

  /** Strictly ascending: every earlier element is Less than every later one. */
  predicate Ascending(r: seq<string>)
  {
    forall i, j :: 0 <= i < j < |r| ==> Less(r[i], r[j])
  }

  predicate IsLeast(m: string, s: set<string>)
  {
    m in s && forall x :: x in s && x != m ==> Less(m, x)
  }

  /** Every non-empty finite set of strings has a least element. */
  lemma {:induction false} LeastExists(s: set<string>)
    requires s != {}
    ensures exists m :: IsLeast(m, s)
    decreases |s|
  {
    var x :| x in s;
    if s == {x} {
      assert IsLeast(x, s);
    } else {
      var rest := s - {x};
      LeastExists(rest);
      var m :| IsLeast(m, rest);
      LessTotal(x, m);
      if Less(x, m) {
        forall y | y in s && y != x
          ensures Less(x, y)
        {
          if y != m { LessTransitive(x, m, y); }
        }
        assert IsLeast(x, s);
      } else {
        assert IsLeast(m, s);
      }
    }
  }

  /** The least element of a non-empty set of strings. */
  function Least(s: set<string>): (m: string)
    requires s != {}
    ensures IsLeast(m, s)
  {
    LeastExists(s);
    assert forall m1, m2 :: IsLeast(m1, s) && IsLeast(m2, s) ==> m1 == m2 by {
      forall m1, m2 | IsLeast(m1, s) && IsLeast(m2, s) ensures m1 == m2 {
        LessAsymmetric(m1, m2);
      }
    }
    var m :| IsLeast(m, s);
    m
  }

  /**
   * `sorted(list(s))`: the elements of `s` in ascending order, each exactly
   * once.
   */
  function SortedWords(s: set<string>): (r: seq<string>)
    ensures Ascending(r)
    ensures forall x :: x in r <==> x in s
    ensures |r| == |s|
    decreases s
  {
    if s == {} then []
    else
      var m := Least(s);
      var rest := SortedWords(s - {m});
      assert forall j :: 0 <= j < |rest| ==> Less(m, rest[j]) by {
        forall j | 0 <= j < |rest| ensures Less(m, rest[j]) {
          assert rest[j] in s - {m};
        }
      }
      [m] + rest
  }

  /** A sequence with no elements is empty. */
  lemma NoMembersEmpty(b: seq<string>)
    requires forall x :: x !in b
    ensures b == []
  {
    if b != [] {
      HeadIsMember(b);
      assert false;
    }
  }

  /** Stated on its own so that NoMembersEmpty's impossible branch ends in a bare `assert false`. */
  lemma HeadIsMember(b: seq<string>)
    requires b != []
    ensures b[0] in b
  {
  }

  /**
   * A strictly ascending sequence is determined by its elements: any
   * ascending arrangement of a set is SortedWords of it.
   */
  lemma {:induction false} AscendingUnique(a: seq<string>, b: seq<string>)
    requires Ascending(a) && Ascending(b)
    requires forall x :: x in a <==> x in b
    ensures a == b
    decreases |a|
  {
    if a == [] {
      NoMembersEmpty(b);
    } else {
      assert b != [] by { assert a[0] in a; }
      if a[0] != b[0] {
        assert a[0] in b;
        var j :| 0 <= j < |b| && b[j] == a[0];
        assert b[0] in a;
        var i :| 0 <= i < |a| && a[i] == b[0];
        LessAsymmetric(a[0], b[0]);
        assert false;
      }
      forall x
        ensures x in a[1..] <==> x in b[1..]
      {
        if x in a[1..] {
          var i :| 0 <= i < |a| - 1 && a[1..][i] == x;
          assert Less(a[0], a[i + 1]);
          LessIrreflexive(a[0]);
          assert x in b;
          var j :| 0 <= j < |b| && b[j] == x;
          assert j != 0;
          assert b[1..][j - 1] == x;
        }
        if x in b[1..] {
          var j :| 0 <= j < |b| - 1 && b[1..][j] == x;
          assert Less(b[0], b[j + 1]);
          LessIrreflexive(b[0]);
          assert x in a;
          var i :| 0 <= i < |a| && a[i] == x;
          assert i != 0;
          assert a[1..][i - 1] == x;
        }
      }
      AscendingUnique(a[1..], b[1..]);
      assert a == [a[0]] + a[1..] && b == [b[0]] + b[1..];
    }
  }

  /** Sorting a set agrees with every strictly ascending listing of it. */
  lemma SortedWordsCharacterised(s: set<string>, r: seq<string>)
    requires Ascending(r)
    requires forall x :: x in r <==> x in s
    ensures SortedWords(s) == r
  {
    AscendingUnique(SortedWords(s), r);
  }
}
