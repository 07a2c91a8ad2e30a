/** Facts about sequences that the tables, the log and the codec share: the search of the
    standard `find_if`, filtering, reversal and suffixes. */
module Sequences {

  function Min(a: nat, b: nat): nat {
    if a < b then a else b
  }

  /** The position of the first element at or after `from` that satisfies `p`, or |s| when
      there is none: what `std::find_if` returns, with |s| for the end iterator. */
  function FindIf<T>(s: seq<T>, p: T -> bool, from: nat): (k: nat)
    requires from <= |s|
    ensures from <= k <= |s|
    ensures forall j :: from <= j < k ==> !p(s[j])
    ensures k < |s| ==> p(s[k])
    decreases |s| - from
  {
    if from == |s| || p(s[from]) then from else FindIf(s, p, from + 1)
  }

  /** The elements that satisfy `p`, in order. */
  function Filter<T>(s: seq<T>, p: T -> bool): seq<T> {
    if s == [] then []
    else if p(s[0]) then [s[0]] + Filter(s[1..], p)
    else Filter(s[1..], p)
  }

  lemma {:induction false} FilterConcat<T>(a: seq<T>, b: seq<T>, p: T -> bool)
    ensures Filter(a + b, p) == Filter(a, p) + Filter(b, p)
  {
    if a == [] {
      assert a + b == b;
    } else {
      assert (a + b)[1..] == a[1..] + b;
      FilterConcat(a[1..], b, p);
    }
  }

  lemma {:induction false} FilterNone<T>(s: seq<T>, p: T -> bool)
    requires forall k :: 0 <= k < |s| ==> !p(s[k])
    ensures Filter(s, p) == []
  {
    if s != [] {
      FilterNone(s[1..], p);
    }
  }

  lemma {:induction false} FilterNonEmpty<T>(s: seq<T>, p: T -> bool, k: nat)
    requires k < |s| && p(s[k])
    ensures Filter(s, p) != []
  {
    if !p(s[0]) {
      FilterNonEmpty(s[1..], p, k - 1);
    }
  }

  /** Every element that a filter keeps satisfies it and comes from the sequence. */
  lemma {:induction false} FilterMembers<T>(s: seq<T>, p: T -> bool, k: nat)
    requires k < |Filter(s, p)|
    ensures p(Filter(s, p)[k]) && Filter(s, p)[k] in s
  {
    if p(s[0]) && k == 0 {
    } else {
      FilterMembers(s[1..], p, if p(s[0]) then k - 1 else k);
    }
  }

  /** Splitting a filtered sequence around one position. */
  lemma {:induction false} FilterAround<T>(s: seq<T>, p: T -> bool, k: nat)
    requires k < |s|
    ensures Filter(s, p) == Filter(s[..k], p) + (if p(s[k]) then [s[k]] else []) + Filter(s[k + 1..], p)
  {
    var front, one, back := s[..k], [s[k]], s[k + 1..];
    assert s == (front + one) + back;
    FilterConcat(front + one, back, p);
    FilterConcat(front, one, p);
    FilterOne(s[k], p);
  }

  lemma {:induction false} FilterOne<T>(x: T, p: T -> bool)
    ensures Filter([x], p) == if p(x) then [x] else []
  {
  }

  lemma {:induction false} FilterUpdated<T>(s: seq<T>, p: T -> bool, k: nat, x: T)
    requires k < |s|
    ensures Filter(s[k := x], p) == Filter(s[..k], p) + (if p(x) then [x] else []) + Filter(s[k + 1..], p)
  {
    var t := s[k := x];
    FilterAround(t, p, k);
    assert t[..k] == s[..k] && t[k + 1..] == s[k + 1..];
  }

  lemma {:induction false} FilterCongruent<T>(s: seq<T>, p: T -> bool, q: T -> bool)
    requires forall k :: 0 <= k < |s| ==> p(s[k]) == q(s[k])
    ensures Filter(s, p) == Filter(s, q)
  {
    if s != [] {
      assert p(s[0]) == q(s[0]);
      forall k | 0 <= k < |s[1..]| ensures p(s[1..][k]) == q(s[1..][k]) {
        assert s[1..][k] == s[k + 1];
      }
      FilterCongruent(s[1..], p, q);
    }
  }

  /** Filtering twice, when the second filter refines the first, is filtering once. */
  lemma {:induction false} FilterTwice<T>(s: seq<T>, p: T -> bool, q: T -> bool, r: T -> bool)
    requires forall x :: x in s ==> r(x) == (p(x) && q(x))
    ensures Filter(Filter(s, p), q) == Filter(s, r)
  {
    if s != [] {
      assert s[0] in s;
      forall x | x in s[1..] ensures r(x) == (p(x) && q(x)) {
        assert x in s;
      }
      FilterTwice(s[1..], p, q, r);
      if p(s[0]) {
        assert ([s[0]] + Filter(s[1..], p))[1..] == Filter(s[1..], p);
      }
    }
  }

  /** `a` is `b` with some elements left out. */
  ghost predicate Subsequence<T(!new)>(a: seq<T>, b: seq<T>) {
    if a == [] then true
    else if b == [] then false
    else (a[0] == b[0] && Subsequence(a[1..], b[1..])) || Subsequence(a, b[1..])
  }

  /** A stronger filter keeps a subsequence of what a weaker one keeps. */
  lemma {:induction false} FilterSubsequence<T(!new)>(s: seq<T>, strong: T -> bool, weak: T -> bool)
    requires forall x :: strong(x) ==> weak(x)
    ensures Subsequence(Filter(s, strong), Filter(s, weak))
  {
    if s != [] {
      FilterSubsequence(s[1..], strong, weak);
      if weak(s[0]) {
        assert ([s[0]] + Filter(s[1..], weak))[1..] == Filter(s[1..], weak);
      }
      if strong(s[0]) {
        assert ([s[0]] + Filter(s[1..], strong))[1..] == Filter(s[1..], strong);
      }
    }
  }

  function Reverse<T>(s: seq<T>): (r: seq<T>)
    ensures |r| == |s|
    ensures forall k :: 0 <= k < |s| ==> r[k] == s[|s| - 1 - k]
  {
    if s == [] then [] else Reverse(s[1..]) + [s[0]]
  }

  lemma {:induction false} FirstNMeans<T>(s: seq<T>, n: nat)
    ensures |FirstN(s, n)| == if |s| < n then |s| else n
    ensures forall k :: 0 <= k < |FirstN(s, n)| ==> FirstN(s, n)[k] == s[k]
  {
  }

  lemma {:induction false} ReversedLastNMeans<T>(s: seq<T>, n: nat)
    ensures |Reverse(LastN(s, n))| == if |s| < n then |s| else n
    ensures forall k :: 0 <= k < |Reverse(LastN(s, n))| ==> Reverse(LastN(s, n))[k] == s[|s| - 1 - k]
  {
  }

  /** The last `n` elements, or all of them when there are fewer. */
  function LastN<T>(s: seq<T>, n: nat): seq<T> {
    s[|s| - Min(|s|, n)..]
  }

  /** The first `n` elements, or all of them when there are fewer. */
  function FirstN<T>(s: seq<T>, n: nat): seq<T> {
    s[..Min(|s|, n)]
  }
}
