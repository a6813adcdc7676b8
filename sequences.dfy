/**
 * Sequence helpers shared by the recency list and the value model of the
 * cache: sequences without repetitions, cutting an element out, moving an
 * element to the front, and taking a prefix.
 */
module Sequences {
  datatype Option<T> = None | Some(value: T)

  /** No element occurs twice in `s`. */
  ghost predicate Distinct<T>(s: seq<T>) {
    s == [] || (s[0] !in s[1..] && Distinct(s[1..]))
  }

  /** Distinct, stated on positions: no two positions hold the same element. */
  lemma {:induction false} DistinctAt<T>(s: seq<T>)
    ensures Distinct(s) <==> forall i, j :: 0 <= i < j < |s| ==> s[i] != s[j]
  {
    if s != [] {
      var t := s[1..];
      DistinctAt(t);
      if Distinct(s) {
        forall i, j | 0 <= i < j < |s| ensures s[i] != s[j] {
          assert s[j] == t[j - 1];
          if 0 < i {
            assert s[i] == t[i - 1];
          }
        }
      }
      if (forall i, j :: 0 <= i < j < |s| ==> s[i] != s[j]) {
        forall a, b | 0 <= a < b < |t| ensures t[a] != t[b] {
          assert t[a] == s[a + 1] && t[b] == s[b + 1];
        }
        forall a | 0 <= a < |t| ensures t[a] != s[0] {
          assert t[a] == s[a + 1];
        }
      }
    }
  }

  /** In a sequence without repetitions, the element at `k` occurs nowhere else. */
  lemma DistinctOther<T>(s: seq<T>, k: nat)
    requires Distinct(s) && k < |s|
    ensures forall j :: 0 <= j < |s| && j != k ==> s[j] != s[k]
  {
    DistinctAt(s);
  }

  /** A prefix of a sequence without repetitions has none either. */
  lemma {:induction false} DistinctPrefix<T>(s: seq<T>, n: nat)
    requires Distinct(s) && n <= |s|
    ensures Distinct(s[..n])
  {
    if n > 0 {
      DistinctPrefix(s[1..], n - 1);
      assert s[..n][1..] == s[1..][..n - 1];
    }
  }

  /** The last element of a sequence without repetitions is not among the
      others, and the others have no repetitions. */
  lemma {:induction false} DistinctInit<T>(s: seq<T>)
    requires Distinct(s) && s != []
    ensures s[|s| - 1] !in s[..|s| - 1] && Distinct(s[..|s| - 1])
  {
    var t := s[1..];
    if t != [] {
      DistinctInit(t);
      assert s[..|s| - 1] == [s[0]] + t[..|t| - 1];
      assert s[..|s| - 1][1..] == t[..|t| - 1];
      assert s[|s| - 1] == t[|t| - 1];
    }
  }

  /** `s` without any occurrence of `x`; the other elements keep their order. */
  ghost function Remove<T>(s: seq<T>, x: T): (r: seq<T>)
    ensures |r| <= |s|
  {
    if s == [] then []
    else if s[0] == x then Remove(s[1..], x)
    else [s[0]] + Remove(s[1..], x)
  }

  /** Remove of an element that is absent changes nothing. */
  lemma {:induction false} RemoveAbsent<T>(s: seq<T>, x: T)
    requires x !in s
    ensures Remove(s, x) == s
  {
    if s != [] {
      RemoveAbsent(s[1..], x);
    }
  }

  /** In a sequence without repetitions, Remove cuts out exactly one position. */
  lemma {:induction false} RemoveAt<T>(s: seq<T>, i: nat)
    requires Distinct(s) && i < |s|
    ensures Remove(s, s[i]) == s[..i] + s[i + 1..]
  {
    var t := s[1..];
    if i == 0 {
      RemoveAbsent(t, s[0]);
    } else {
      assert t[i - 1] == s[i];
      RemoveAt(t, i - 1);
      assert s[..i] == [s[0]] + t[..i - 1];
      assert s[i + 1..] == t[i..];
    }
  }

  /** What Remove keeps: everything but `x`. */
  lemma {:induction false} RemoveMembers<T>(s: seq<T>, x: T)
    ensures forall y :: y in Remove(s, x) <==> y in s && y != x
  {
    if s != [] {
      RemoveMembers(s[1..], x);
      assert forall y :: y in s <==> y == s[0] || y in s[1..];
    }
  }

  /** Removing one element keeps a sequence free of repetitions, and shortens
      it by one when the element is present. */
  lemma {:induction false} RemoveDistinct<T>(s: seq<T>, x: T)
    requires Distinct(s)
    ensures Distinct(Remove(s, x))
    ensures x in s ==> |Remove(s, x)| == |s| - 1
  {
    if s != [] {
      var t := s[1..];
      RemoveDistinct(t, x);
      if s[0] == x {
        RemoveAbsent(t, x);
      } else {
        RemoveMembers(t, x);
        var r := Remove(s, x);
        assert r[0] == s[0] && r[1..] == Remove(t, x);
        assert x in s ==> x in t;
      }
    }
  }

  /** `x` taken out of its place in `s` and put in front. */
  ghost function MoveToFront<T>(s: seq<T>, x: T): (r: seq<T>)
    ensures |r| > 0 && r[0] == x
  {
    [x] + Remove(s, x)
  }

  /** Putting a new element in front keeps a sequence free of repetitions. */
  lemma DistinctCons<T>(x: T, s: seq<T>)
    requires Distinct(s) && x !in s
    ensures Distinct([x] + s)
  {
    assert ([x] + s)[1..] == s;
  }

  /** Moving a present element to the front keeps the same elements. */
  lemma MoveToFrontMembers<T>(s: seq<T>, x: T)
    requires x in s
    ensures forall y :: y in MoveToFront(s, x) <==> y in s
  {
    RemoveMembers(s, x);
  }

  /** Moving a present element to the front permutes the sequence. */
  lemma MoveToFrontPermutes<T>(s: seq<T>, x: T)
    requires Distinct(s) && x in s
    ensures Distinct(MoveToFront(s, x))
    ensures |MoveToFront(s, x)| == |s|
    ensures multiset(MoveToFront(s, x)) == multiset(s)
    ensures forall y :: y in MoveToFront(s, x) <==> y in s
  {
    MoveToFrontMembers(s, x);
    var i :| 0 <= i < |s| && s[i] == x;
    RemoveAt(s, i);
    RemoveDistinct(s, x);
    RemoveMembers(s, x);
    DistinctCons(x, Remove(s, x));
    MoveOutMultiset(s, i);
  }

  /** Taking the element at `i` out and putting it in front keeps the multiset. */
  lemma MoveOutMultiset<T>(s: seq<T>, i: nat)
    requires i < |s|
    ensures multiset([s[i]] + (s[..i] + s[i + 1..])) == multiset(s)
  {
    var before, after := s[..i], s[i + 1..];
    assert s == before + ([s[i]] + after);
    calc {
      multiset(s);
      multiset(before) + (multiset([s[i]]) + multiset(after));
      multiset([s[i]]) + (multiset(before) + multiset(after));
      multiset([s[i]] + (before + after));
    }
  }

  /** The first `n` elements of `s`, or all of it when it is shorter. */
  ghost function Take<T>(s: seq<T>, n: nat): (r: seq<T>)
    ensures |r| <= n && |r| <= |s|
    ensures |r| == n || r == s
    ensures r == s[..|r|]
  {
    if |s| <= n then s else s[..n]
  }

  /** Moving the first element to the front changes nothing. */
  lemma MoveToFrontOfFront<T>(s: seq<T>)
    requires Distinct(s) && s != []
    ensures MoveToFront(s, s[0]) == s
  {
    var rest := s[1..];
    assert s == [s[0]] + rest;
    RemoveAbsent(rest, s[0]);
  }
}
