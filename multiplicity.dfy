/**
 * Multiset views of a sequence: how often a value occurs, its distinct values in
 * order of first appearance, and the fact that the counts of the distinct values
 * add up to the length. A genotype (a sequence of haplotypes) and a DNA string
 * (a sequence of bases) are both read this way.
 */
module Multiplicity {

  /** Number of occurrences of `x` in `s` (Genotype::count, ++result[base]). */
  function Count<T(==)>(s: seq<T>, x: T): nat
  {
    multiset(s)[x]
  }

  lemma {:induction false} CountAtMostLength<T>(s: seq<T>)
    ensures forall x :: Count(s, x) <= |s|
  {
    if |s| > 0 {
      CountAtMostLength(s[..|s| - 1]);
      assert s == s[..|s| - 1] + [s[|s| - 1]];
      assert multiset(s) == multiset(s[..|s| - 1]) + multiset{s[|s| - 1]};
    }
  }

  /** No value occurs twice. */
  predicate Distinct<T(==)>(s: seq<T>)
  {
    forall i, j | 0 <= i < j < |s| :: s[i] != s[j]
  }

  /**
   * The distinct values of `s` in order of first appearance
   * (Genotype::copy_unique_ref, Genotype::get_unique).
   */
  function Unique<T(==)>(s: seq<T>): (u: seq<T>)
    ensures forall i | 0 <= i < |u| :: u[i] in s
    ensures Distinct(u)
    ensures |u| <= |s|
    ensures |s| > 0 ==> |u| > 0 && u[0] == s[0]
  {
    assert s[..|s|] == s;
    UniqueOf(s, |s|)
  }

  /** The distinct values among the first n elements of `s`. */
  function UniqueOf<T(==)>(s: seq<T>, n: nat): (u: seq<T>)
    requires n <= |s|
    ensures forall i | 0 <= i < |u| :: u[i] in s[..n]
    ensures Distinct(u)
    ensures |u| <= n
    ensures n > 0 ==> |u| > 0 && u[0] == s[0]
  {
    if n == 0 then []
    else
      var u := UniqueOf(s, n - 1);
      assert forall i | 0 <= i < |u| :: u[i] in s[..n] by {
        assert forall k | 0 <= k < n - 1 :: s[..n - 1][k] == s[..n][k];
      }
      if s[n - 1] in u then u else u + [s[n - 1]]
  }

  /** UniqueOf looks only at the first n elements. */
  lemma {:induction false} UniqueOfPrefix<T>(s: seq<T>, t: seq<T>, n: nat)
    requires n <= |s| && n <= |t| && s[..n] == t[..n]
    ensures UniqueOf(s, n) == UniqueOf(t, n)
  {
    if n > 0 {
      assert s[..n - 1] == s[..n][..n - 1];
      assert t[..n - 1] == t[..n][..n - 1];
      UniqueOfPrefix(s, t, n - 1);
      assert s[n - 1] == s[..n][n - 1];
      assert t[n - 1] == t[..n][n - 1];
    }
  }

  /** Unique grows by the last element exactly when that element is new. */
  lemma UniqueSnoc<T>(s: seq<T>)
    requires |s| > 0
    ensures var p, x := s[..|s| - 1], s[|s| - 1];
      Unique(s) == if x in Unique(p) then Unique(p) else Unique(p) + [x]
  {
    var p := s[..|s| - 1];
    assert p[..|p|] == s[..|p|];
    UniqueOfPrefix(s, p, |p|);
  }

  /** Every value of `s` is listed in `Unique(s)`. */
  lemma {:induction false} UniqueCovers<T>(s: seq<T>)
    ensures forall i | 0 <= i < |s| :: s[i] in Unique(s)
  {
    if |s| > 0 {
      var p := s[..|s| - 1];
      UniqueCovers(p);
      UniqueSnoc(s);
      assert forall i | 0 <= i < |p| :: s[i] == p[i];
    }
  }

  /** Every value listed in `Unique(s)` occurs in `s` at least once. */
  lemma UniqueCounted<T>(s: seq<T>)
    ensures forall i | 0 <= i < |Unique(s)| :: Count(s, Unique(s)[i]) >= 1
  {
  }

  /** Sum of the counts in `s` of the values listed in `u`. */
  function SumCounts<T(==)>(s: seq<T>, u: seq<T>): nat
  {
    if |u| == 0 then 0 else SumCounts(s, u[..|u| - 1]) + Count(s, u[|u| - 1])
  }

  /** The multiplicities of a sequence's distinct values, in order of first appearance. */
  function Multiplicities<T(==)>(s: seq<T>): (m: seq<nat>)
    ensures |m| == |Unique(s)|
    ensures forall i | 0 <= i < |m| :: m[i] == Count(s, Unique(s)[i]) && 0 < m[i] <= |s|
  {
    var u := Unique(s);
    CountAtMostLength(s);
    seq(|u|, i requires 0 <= i < |u| => Count(s, u[i]))
  }

  /** Sum of a sequence of naturals. */
  function NatSum(m: seq<nat>): nat
  {
    if |m| == 0 then 0 else NatSum(m[..|m| - 1]) + m[|m| - 1]
  }

  /** All copies are the same value (Genotype::is_homozygous). */
  predicate IsHomozygous<T(==)>(s: seq<T>)
  {
    forall i, j | 0 <= i < |s| && 0 <= j < |s| :: s[i] == s[j]
  }

  /** Equal values sit next to each other, as in a sorted genotype. */
  predicate Adjacent<T(==)>(s: seq<T>)
  {
    forall i, j, k | 0 <= i < j < k < |s| && s[i] == s[k] :: s[j] == s[i]
  }

  lemma {:induction false} SumCountsSnoc<T>(p: seq<T>, x: T, u: seq<T>)
    requires Distinct(u)
    ensures SumCounts(p + [x], u) == SumCounts(p, u) + (if x in u then 1 else 0)
  {
    if |u| > 0 {
      var r := u[..|u| - 1];
      assert Distinct(r);
      assert u == r + [u[|u| - 1]];
      assert x in u <==> x in r || x == u[|u| - 1];
      SumCountsSnoc(p, x, r);
      assert multiset(p + [x]) == multiset(p) + multiset{x};
    }
  }

  lemma {:induction false} SumCountsAppend<T>(s: seq<T>, u: seq<T>, x: T)
    ensures SumCounts(s, u + [x]) == SumCounts(s, u) + Count(s, x)
  {
    assert (u + [x])[..|u + [x]| - 1] == u;
  }

  /** The multiplicities of the distinct values add up to the length (ploidy). */
  lemma {:induction false} CountsSumToLength<T>(s: seq<T>)
    ensures SumCounts(s, Unique(s)) == |s|
  {
    if |s| > 0 {
      var p, x := s[..|s| - 1], s[|s| - 1];
      assert s == p + [x];
      CountsSumToLength(p);
      var u := Unique(p);
      SumCountsSnoc(p, x, u);
      UniqueCovers(p);
      UniqueSnoc(s);
      if x !in u {
        SumCountsAppend(s, u, x);
        assert x !in p;
        assert Count(s, x) == 1 by {
          assert multiset(s) == multiset(p) + multiset{x};
        }
      }
    }
  }

  lemma {:induction false} NatSumMultiplicities<T>(s: seq<T>, k: nat)
    requires k <= |Unique(s)|
    ensures NatSum(Multiplicities(s)[..k]) == SumCounts(s, Unique(s)[..k])
  {
    if k > 0 {
      NatSumMultiplicities(s, k - 1);
      assert Multiplicities(s)[..k][..k - 1] == Multiplicities(s)[..k - 1];
      assert Unique(s)[..k][..k - 1] == Unique(s)[..k - 1];
    }
  }

  /** The multiplicities passed to the multinomial coefficient add up to the ploidy. */
  lemma MultiplicitiesSumToLength<T>(s: seq<T>)
    ensures NatSum(Multiplicities(s)) == |s|
  {
    var m, u := Multiplicities(s), Unique(s);
    NatSumMultiplicities(s, |u|);
    assert m[..|u|] == m;
    assert u[..|u|] == u;
    CountsSumToLength(s);
  }

  /** A non-empty sequence is homozygous exactly when it has one distinct value. */
  lemma HomozygousIffZygosityOne<T>(s: seq<T>)
    requires |s| > 0
    ensures IsHomozygous(s) <==> |Unique(s)| == 1
  {
    var u := Unique(s);
    UniqueCovers(s);
    if IsHomozygous(s) {
      assert forall i | 0 <= i < |u| :: u[i] == s[0];
      assert u[0] == u[|u| - 1];
    } else {
      var i, j :| 0 <= i < |s| && 0 <= j < |s| && s[i] != s[j];
      assert s[i] in u && s[j] in u;
    }
  }

  /** A sequence without repeats is its own list of distinct values. */
  lemma {:induction false} DistinctIsUnique<T>(s: seq<T>)
    requires Distinct(s)
    ensures Unique(s) == s
  {
    if |s| > 0 {
      var p := s[..|s| - 1];
      assert Distinct(p);
      DistinctIsUnique(p);
      UniqueSnoc(s);
      assert s[|s| - 1] !in p;
      assert s == p + [s[|s| - 1]];
    }
  }

  /** When every value is distinct, `s` has as many distinct values as elements, and conversely. */
  lemma UniqueIsSelf<T>(s: seq<T>)
    ensures |Unique(s)| == |s| <==> Distinct(s)
  {
    if Distinct(s) {
      DistinctIsUnique(s);
    } else {
      var i, j :| 0 <= i < j < |s| && s[i] == s[j];
      UniqueShorter(s, i, j);
    }
  }

  /** A repeated value makes the list of distinct values shorter than the sequence. */
  lemma {:induction false} UniqueShorter<T>(s: seq<T>, i: nat, j: nat)
    requires i < j < |s| && s[i] == s[j]
    ensures |Unique(s)| < |s|
  {
    var p := s[..|s| - 1];
    UniqueSnoc(s);
    if j == |s| - 1 {
      UniqueCovers(p);
      assert s[j] == p[i];
    } else {
      assert p[i] == p[j];
      UniqueShorter(p, i, j);
    }
  }

  /** One distinct value: it occurs length times. */
  lemma OneDistinct<T>(s: seq<T>)
    requires |s| > 0 && |Unique(s)| == 1
    ensures Unique(s) == [s[0]] && Count(s, s[0]) == |s|
  {
    var u := Unique(s);
    CountsSumToLength(s);
    assert u[..0] == [];
  }

  /** Two distinct values: the first is s[0], and the two counts add up to length. */
  lemma TwoDistinct<T>(s: seq<T>)
    requires |Unique(s)| == 2
    ensures Unique(s)[0] == s[0] && Unique(s)[1] != s[0]
    ensures Count(s, s[0]) + Count(s, Unique(s)[1]) == |s|
  {
    var u := Unique(s);
    CountsSumToLength(s);
    assert u[..1][..0] == [];
    assert SumCounts(s, u) == SumCounts(s, u[..1]) + Count(s, u[1]);
    assert SumCounts(s, u[..1]) == Count(s, u[0]);
  }
}
