/**
 * `most_common`: the share, as a whole percentage, of a group's complaints
 * that name its most frequent company. Python's `round` on the quotient is
 * modelled exactly, as round-half-to-even of the rational 100*max/len.
 */
module Share {

  function Dist(a: int, b: int): nat
  {
    if a >= b then a - b else b - a
  }

  /**
   * The integer nearest to num/den, ties going to the even neighbour:
   * `round(num / den)` in Python 3 without floating-point error.
   */
  function RoundHalfEven(num: nat, den: nat): (r: nat)
    requires den > 0
    ensures 2 * Dist(r * den, num) <= den
    ensures 2 * Dist(r * den, num) == den ==> r % 2 == 0
  {
    var q, rem := num / den, num % den;
    Neighbours(num, den);
    if 2 * rem < den then q
    else if 2 * rem > den || q % 2 == 1 then q + 1
    else q
  }

  /** num/den lies rem/den above its floor q and (den-rem)/den below q+1. */
  lemma Neighbours(num: nat, den: nat)
    requires den > 0
    ensures Dist((num / den) * den, num) == num % den
    ensures Dist((num / den + 1) * den, num) == den - num % den
  {
    var q, rem := num / den, num % den;
    assert num == q * den + rem;
    NextMultiple(q, den);
  }

  lemma MulMonotone(k: int, den: nat, j: int)
    requires k >= j
    ensures k * den >= j * den
  {
    assert k * den - j * den == (k - j) * den;
  }

  /** `r` is a nearest integer to num/den, and an even one when num/den lies halfway. */
  predicate NearestEven(num: int, den: nat, r: int)
  {
    && 2 * Dist(r * den, num) <= den
    && (2 * Dist(r * den, num) == den ==> r % 2 == 0)
  }

  lemma NearestEvenUnique(num: int, den: nat, r: int, r0: int)
    requires den > 0 && NearestEven(num, den, r) && NearestEven(num, den, r0)
    ensures r == r0
  {
    if r >= r0 + 2 {
      FarApart(r, r0, den);
    } else if r0 >= r + 2 {
      FarApart(r0, r, den);
    } else if r == r0 + 1 {
      NextMultiple(r0, den);
    } else if r0 == r + 1 {
      NextMultiple(r, den);
    }
  }

  lemma FarApart(k: int, j: int, den: nat)
    requires k >= j + 2
    ensures k * den >= j * den + 2 * den
  {
    MulMonotone(k, den, j + 2);
    NextMultiple(j, den);
    NextMultiple(j + 1, den);
  }

  lemma NextMultiple(k: int, den: nat)
    ensures (k + 1) * den == k * den + den
  {
  }

  /** The two conditions on RoundHalfEven pin the result down: there is only one such integer. */
  lemma RoundHalfEvenUnique(num: nat, den: nat, r: int)
    requires den > 0 && NearestEven(num, den, r)
    ensures r == RoundHalfEven(num, den)
  {
    NearestEvenUnique(num, den, r, RoundHalfEven(num, den));
  }

  /** Occurrences of the most frequent element among s[..k], counted over all of s. */
  function HighestCountIn<T(==)>(s: seq<T>, k: nat): (m: nat)
    requires 0 < k <= |s|
    ensures exists i :: 0 <= i < k && m == multiset(s)[s[i]]
    ensures forall i :: 0 <= i < k ==> multiset(s)[s[i]] <= m
  {
    if k == 1 then multiset(s)[s[0]]
    else
      var m := HighestCountIn(s, k - 1);
      if multiset(s)[s[k - 1]] > m then multiset(s)[s[k - 1]] else m
  }

  lemma {:induction false} CountAtMostLength<T>(s: seq<T>, x: T)
    ensures multiset(s)[x] <= |s|
  {
    if s != [] {
      assert s == [s[0]] + s[1..];
      CountAtMostLength(s[1..], x);
    }
  }

  /** `Counter(lst).most_common()[0][1]`: the occurrence count of the most frequent element. */
  function HighestCount<T(==)>(s: seq<T>): (m: nat)
    requires |s| > 0
    ensures forall x :: x in s ==> multiset(s)[x] <= m
    ensures exists x :: x in s && multiset(s)[x] == m
    ensures 1 <= m <= |s|
  {
    var m := HighestCountIn(s, |s|);
    var i :| 0 <= i < |s| && m == multiset(s)[s[i]];
    CountAtMostLength(s, s[i]);
    m
  }

  /** Reordering a list does not change its highest count. */
  lemma HighestCountOfPermutation<T>(a: seq<T>, b: seq<T>)
    requires |a| > 0 && multiset(a) == multiset(b)
    ensures |b| > 0 && HighestCount(a) == HighestCount(b)
  {
    assert |a| == |multiset(a)| == |multiset(b)| == |b|;
    var x :| x in a && multiset(a)[x] == HighestCount(a);
    assert x in multiset(b);
    var y :| y in b && multiset(b)[y] == HighestCount(b);
    assert y in multiset(a);
  }

  /**
   * `most_common(lst)`: the whole percentage nearest to 100*max/len (ties to
   * even). An empty list raises IndexError in the source, hence the requires.
   */
  function MostCommon<T(==)>(lst: seq<T>): (pct: nat)
    requires |lst| > 0
    ensures pct <= 100
    ensures 2 * Dist(pct * |lst|, 100 * HighestCount(lst)) <= |lst|
    ensures 2 * Dist(pct * |lst|, 100 * HighestCount(lst)) == |lst| ==> pct % 2 == 0
  {
    var m, n := HighestCount(lst), |lst|;
    RoundAtMostHundred(100 * m, n);
    RoundHalfEven(100 * m, n)
  }

  lemma RoundAtMostHundred(num: nat, den: nat)
    requires den > 0 && num <= 100 * den
    ensures RoundHalfEven(num, den) <= 100
  {
    var r := RoundHalfEven(num, den);
    if r >= 101 {
      MulMonotone(r, den, 101);
    }
  }

  /** A group whose every complaint names the same company has share 100. */
  lemma {:induction false} AllSameIsHundred<T>(lst: seq<T>)
    requires |lst| > 0
    requires forall i :: 0 <= i < |lst| ==> lst[i] == lst[0]
    ensures MostCommon(lst) == 100
  {
    AllSameCount(lst);
    assert HighestCount(lst) == |lst|;
    RoundHalfEvenUnique(100 * |lst|, |lst|, 100);
  }

  lemma {:induction false} AllSameCount<T>(lst: seq<T>)
    requires |lst| > 0
    requires forall i :: 0 <= i < |lst| ==> lst[i] == lst[0]
    ensures multiset(lst)[lst[0]] == |lst|
  {
    if |lst| > 1 {
      var t := lst[1..];
      assert forall i :: 0 <= i < |t| ==> t[i] == t[0];
      AllSameCount(t);
      assert lst == [lst[0]] + t;
    }
  }

  /** The share can be 0: 200 or more all-distinct complaints; at 200, 0.5 rounds to the even 0. */
  lemma ShareCanBeZero<T>(lst: seq<T>)
    requires |lst| >= 200
    requires HighestCount(lst) == 1
    ensures MostCommon(lst) == 0
  {
    RoundHalfEvenUnique(100, |lst|, 0);
  }

  /** Only the multiset of names matters. */
  lemma MostCommonOfPermutation<T>(a: seq<T>, b: seq<T>)
    requires |a| > 0 && multiset(a) == multiset(b)
    ensures |b| > 0 && MostCommon(a) == MostCommon(b)
  {
    HighestCountOfPermutation(a, b);
  }
}
