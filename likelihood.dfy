/**
 * GermlineLikelihoodModel::evaluate: the log-likelihood of one sample's reads
 * given a genotype. Reads are independent and each read comes from one of the
 * genotype's copies chosen uniformly, so per read
 *   ln p(read | g) = ln sum over copies h of p(read | h) - ln ploidy
 * and the total is the sum over reads. The code has fast paths per ploidy and
 * zygosity; each is modelled as written and compared with the general,
 * multiplicity-weighted formula (`General`).
 *
 * A genotype is a sequence of haplotypes in which equal haplotypes are adjacent
 * (the genotype's own sorted order). The likelihood cache maps each haplotype
 * to its per-read log-likelihoods, read i at index i of every vector.
 */
module GermlineLikelihood {
  import opened Maths
  import opened Multiplicity

  /** An entry of the ln lookup table: entry 0 holds +infinity. */
  datatype LnValue = Infinity | Finite(value: real)

  /** The 11-entry table `ln<>(n)`; the code reads past its end for n > 10. */
  function LnTable(n: nat): (r: LnValue)
    requires n <= 10
    ensures r.Infinity? <==> n == 0
    ensures n == 1 ==> r == Finite(0.0)
  {
    if n == 0 then Infinity
    else if n == 1 then Finite(0.0)
    else if n == 2 then Finite(0.693147180559945309417232121458176568075500134360255254120)
    else if n == 3 then Finite(1.098612288668109691395245236922525704647490557822749451734)
    else if n == 4 then Finite(1.386294361119890618834464242916353136151000268720510508241)
    else if n == 5 then Finite(1.609437912434100374600759333226187639525601354268517721912)
    else if n == 6 then Finite(1.791759469228055000812477358380702272722990692183004705855)
    else if n == 7 then Finite(1.945910149055313305105352743443179729637084729581861188459)
    else if n == 8 then Finite(2.079441541679835928251696364374529704226500403080765762362)
    else if n == 9 then Finite(2.197224577336219382790490473845051409294981115645498903469)
    else Finite(2.302585092994045684017991454684364207601101488628772976033)
  }

  /** A finite table entry. */
  function Ln(n: nat): real
    requires 1 <= n <= 10
  {
    LnTable(n).value
  }

  /** The table is strictly increasing over its finite entries, as ln is. */
  lemma LnTableIncreasing(m: nat, n: nat)
    requires 1 <= m < n <= 10
    ensures Ln(m) < Ln(n)
  {
  }

  /**
   * Hypothesis, for one n: std::log agrees with the table at n. Lemmas assume it
   * for n = 1 (log 1 = 0) and for at most one other n at a time, since the
   * rounded entries are not exactly additive (Ln(2) + Ln(2) != Ln(4)).
   */
  predicate LogMatchesTable(ops: LogOps, n: nat)
    requires 1 <= n <= 10
  {
    ops.log(n as real) == Ln(n)
  }

  /** Hypothesis: log-sum-exp of a single term is that term. */
  ghost predicate LseSingleton(ops: LogOps)
  {
    forall x: real :: LseOfOne(ops, x)
  }

  /** Hypothesis, for one pair of term lists: the order of the terms does not matter. */
  predicate LsePermutes(ops: LogOps, s: seq<real>, t: seq<real>)
  {
    multiset(s) == multiset(t) ==> ops.logSumExp(s) == ops.logSumExp(t)
  }

  /** Hypothesis: log-sum-exp depends only on the multiset of its terms. */
  ghost predicate LseOrderFree(ops: LogOps)
  {
    forall s: seq<real>, t: seq<real> :: LsePermutes(ops, s, t)
  }

  /**
   * Hypothesis, for one list: the terms log k + a and a merge into log(k + 1) + a,
   * as exp(log k + a) + exp(a) = (k + 1) exp(a). The logarithm here is std::log
   * (`ops.log`), never the rounded table, whose entries do not add up exactly.
   */
  predicate LseMerges(ops: LogOps, s: seq<real>, a: real, k: nat)
  {
    ops.logSumExp(s + [ops.log(k as real) + a, a]) == ops.logSumExp(s + [ops.log((k + 1) as real) + a])
  }

  /** Hypothesis: equal copies may be merged into one weighted term, for every count. */
  ghost predicate LseMergesCopies(ops: LogOps)
  {
    forall s: seq<real>, a: real, k: nat | k >= 1 :: LseMerges(ops, s, a, k)
  }

  /** The cache is primed: every haplotype has a value for every read. */
  predicate Primed<H>(cache: map<H, seq<real>>)
  {
    forall h1, h2 | h1 in cache && h2 in cache :: |cache[h1]| == |cache[h2]|
  }

  /** Every haplotype of the genotype is in the cache. */
  predicate Covers<H>(cache: map<H, seq<real>>, g: seq<H>)
  {
    forall i | 0 <= i < |g| :: g[i] in cache
  }

  predicate Ready<H>(cache: map<H, seq<real>>, g: seq<H>)
  {
    Primed(cache) && Covers(cache, g)
  }

  /** Per read: lse(wa + a[i], wb + b[i]) - lnp (std::inner_product with a binary lambda). */
  function Pairs(ops: LogOps, a: seq<real>, b: seq<real>, wa: real, wb: real, lnp: real): seq<real>
    requires |a| == |b|
  {
    seq(|a|, i requires 0 <= i < |a| => ops.logSumExp([wa + a[i], wb + b[i]]) - lnp)
  }

  /** Per read: lse(a[i], b[i], c[i]) - lnp. */
  function Triples(ops: LogOps, a: seq<real>, b: seq<real>, c: seq<real>, lnp: real): seq<real>
    requires |a| == |b| == |c|
  {
    seq(|a|, i requires 0 <= i < |a| => ops.logSumExp([a[i], b[i], c[i]]) - lnp)
  }

  /** Per read: lse(a[i], b[i], c[i], d[i]) - lnp. */
  function Quads(ops: LogOps, a: seq<real>, b: seq<real>, c: seq<real>, d: seq<real>, lnp: real): seq<real>
    requires |a| == |b| == |c| == |d|
  {
    seq(|a|, i requires 0 <= i < |a| => ops.logSumExp([a[i], b[i], c[i], d[i]]) - lnp)
  }

  /** Read i of every copy of the genotype, duplicates included (the `tmp` buffer). */
  function Column<H>(cache: map<H, seq<real>>, g: seq<H>, i: nat): (col: seq<real>)
    requires Ready(cache, g) && |g| > 0 && i < |cache[g[0]]|
    ensures |col| == |g|
  {
    seq(|g|, j requires 0 <= j < |g| => cache[g[j]][i])
  }

  function EvaluateHaploid<H>(cache: map<H, seq<real>>, g: seq<H>): real
    requires Ready(cache, g) && |g| == 1
  {
    Sum(cache[g[0]])
  }

  function EvaluateDiploid<H>(ops: LogOps, cache: map<H, seq<real>>, g: seq<H>): real
    requires Ready(cache, g) && |g| == 2
  {
    var a := cache[g[0]];
    if IsHomozygous(g) then Sum(a)
    else Sum(Pairs(ops, a, cache[g[1]], 0.0, 0.0, Ln(2)))
  }

  function EvaluateTriploid<H>(ops: LogOps, cache: map<H, seq<real>>, g: seq<H>): real
    requires Ready(cache, g) && |g| == 3
  {
    var a := cache[g[0]];
    if IsHomozygous(g) then Sum(a)
    else if |Unique(g)| == 3 then Sum(Triples(ops, a, cache[g[1]], cache[g[2]], Ln(3)))
    else if g[0] != g[1] then Sum(Pairs(ops, a, cache[g[1]], 0.0, Ln(2), Ln(3)))
    else Sum(Pairs(ops, a, cache[g[2]], Ln(2), 0.0, Ln(3)))
  }

  /** The tetraploid fast path; `evaluate` never calls it. */
  function EvaluateTetraploid<H>(ops: LogOps, cache: map<H, seq<real>>, g: seq<H>): real
    requires Ready(cache, g) && |g| == 4
  {
    var z := |Unique(g)|;
    var a := cache[g[0]];
    if z == 1 then Sum(a)
    else if z == 4 then Sum(Quads(ops, a, cache[g[1]], cache[g[2]], cache[g[3]], Ln(4)))
    else 0.0
  }

  /** Zygosity >= 3 branch of evaluate_polyploid: every copy weighted once. */
  function AllCopies<H>(ops: LogOps, cache: map<H, seq<real>>, g: seq<H>): real
    requires Ready(cache, g) && 1 <= |g| <= 10
  {
    var n := |cache[g[0]]|;
    Sum(seq(n, i requires 0 <= i < n => CopiesTerm(ops, cache, g, i)))
  }

  /** One read's term in the zygosity >= 3 branch: lse over every copy, minus ln(ploidy). */
  function CopiesTerm<H>(ops: LogOps, cache: map<H, seq<real>>, g: seq<H>, i: nat): real
    requires Ready(cache, g) && 1 <= |g| <= 10 && i < |cache[g[0]]|
  {
    ops.logSumExp(Column(cache, g, i)) - Ln(|g|)
  }

  /**
   * The loop of evaluate_polyploid for zygosity >= 3: per read, gather the
   * read's value for every copy into `tmp`, then add lse(tmp) - ln(ploidy).
   */
  method AllCopiesLoop<H>(ops: LogOps, cache: map<H, seq<real>>, g: seq<H>) returns (r: real)
    requires Ready(cache, g) && 1 <= |g| <= 10
    ensures r == AllCopies(ops, cache, g)
  {
    var n := |cache[g[0]]|;
    ghost var terms := seq(n, i requires 0 <= i < n => CopiesTerm(ops, cache, g, i));
    var tmp := new real[|g|];
    r := 0.0;
    var i := 0;
    while i < n
      invariant 0 <= i <= n
      invariant r == Sum(terms[..i])
    {
      var j := 0;
      while j < |g|
        invariant 0 <= j <= |g|
        invariant forall k | 0 <= k < j :: tmp[k] == cache[g[k]][i]
      {
        tmp[j] := cache[g[j]][i];
        j := j + 1;
      }
      assert tmp[..] == Column(cache, g, i);
      assert terms[..i + 1][..i] == terms[..i];
      r := r + (ops.logSumExp(tmp[..]) - Ln(|g|));
      i := i + 1;
    }
    assert terms[..n] == terms;
  }

  /** evaluate_polyploid as written. */
  function EvaluatePolyploid<H>(ops: LogOps, cache: map<H, seq<real>>, g: seq<H>): real
    requires Ready(cache, g) && |g| >= 1
    requires |g| <= 10 || |Unique(g)| == 1
  {
    var z := |Unique(g)|;
    var a := cache[g[0]];
    if z == 1 then Sum(a)
    else if z == 2 then
      var lnpm1 := ops.log((|g| - 1) as real);
      var u := Unique(g);
      var b := cache[u[1]];
      if Count(g, u[0]) == 1 then Sum(Pairs(ops, a, b, 0.0, lnpm1, Ln(|g|)))
      else Sum(Pairs(ops, a, b, lnpm1, 0.0, Ln(|g|)))
    else AllCopies(ops, cache, g)
  }

  /** GermlineLikelihoodModel::evaluate: dispatch on ploidy. */
  function Evaluate<H>(ops: LogOps, cache: map<H, seq<real>>, g: seq<H>): real
    requires Ready(cache, g)
    requires |g| <= 10 || IsHomozygous(g)
  {
    if |g| == 0 then 0.0
    else if |g| == 1 then EvaluateHaploid(cache, g)
    else if |g| == 2 then EvaluateDiploid(ops, cache, g)
    else if |g| == 3 then EvaluateTriploid(ops, cache, g)
    else
      HomozygousIffZygosityOne(g);
      EvaluatePolyploid(ops, cache, g)
  }

  /**
   * The general algorithm: per read, lse over the distinct haplotypes h_j of
   * log(m_j) + ln p(read | h_j), minus ln(ploidy). The weight log(m_j) is
   * std::log; ln(ploidy) is the table entry every fast path subtracts.
   */
  function GeneralTerm<H>(ops: LogOps, cache: map<H, seq<real>>, g: seq<H>, i: nat): real
    requires Ready(cache, g) && 1 <= |g| <= 10 && i < |cache[g[0]]|
  {
    ops.logSumExp(WeightedColumn(ops, cache, g, i)) - Ln(|g|)
  }

  /** Read i of each distinct haplotype, shifted by std::log of its multiplicity. */
  function WeightedColumn<H>(ops: LogOps, cache: map<H, seq<real>>, g: seq<H>, i: nat): (w: seq<real>)
    requires Ready(cache, g) && 1 <= |g| <= 10 && i < |cache[g[0]]|
    ensures |w| == |Unique(g)|
  {
    CountAtMostLength(g);
    UniqueCounted(g);
    Weighted(ops, cache, g, Unique(g), i)
  }

  /** Read i of each haplotype listed in u, shifted by std::log of its count in g. */
  function Weighted<H>(ops: LogOps, cache: map<H, seq<real>>, g: seq<H>, u: seq<H>, i: nat): (w: seq<real>)
    requires forall j | 0 <= j < |u| :: u[j] in cache && i < |cache[u[j]]|
    ensures |w| == |u|
  {
    seq(|u|, j requires 0 <= j < |u| => ops.log(Count(g, u[j]) as real) + cache[u[j]][i])
  }

  function General<H>(ops: LogOps, cache: map<H, seq<real>>, g: seq<H>): real
    requires Ready(cache, g) && 1 <= |g| <= 10
  {
    var n := |cache[g[0]]|;
    Sum(seq(n, i requires 0 <= i < n => GeneralTerm(ops, cache, g, i)))
  }

  // ---------------------------------------------------------------------
  // Weighted columns of small genotypes

  lemma WeightedOne<H>(ops: LogOps, cache: map<H, seq<real>>, g: seq<H>, x: H, i: nat)
    requires x in cache && i < |cache[x]| && 1 <= Count(g, x) <= 10
    ensures Weighted(ops, cache, g, [x], i) == [ops.log(Count(g, x) as real) + cache[x][i]]
  {
  }

  lemma WeightedTwo<H>(ops: LogOps, cache: map<H, seq<real>>, g: seq<H>, x: H, y: H, i: nat)
    requires x in cache && i < |cache[x]| && 1 <= Count(g, x) <= 10
    requires y in cache && i < |cache[y]| && 1 <= Count(g, y) <= 10
    ensures Weighted(ops, cache, g, [x, y], i) == [ops.log(Count(g, x) as real) + cache[x][i], ops.log(Count(g, y) as real) + cache[y][i]]
  {
  }

  lemma WeightedColumnOne<H>(ops: LogOps, cache: map<H, seq<real>>, g: seq<H>, i: nat)
    requires Ready(cache, g) && 1 <= |g| <= 10 && i < |cache[g[0]]| && |Unique(g)| == 1
    ensures WeightedColumn(ops, cache, g, i) == [ops.log(|g| as real) + cache[g[0]][i]]
  {
    OneDistinct(g);
    WeightedOne(ops, cache, g, g[0], i);
    assert WeightedColumn(ops, cache, g, i) == Weighted(ops, cache, g, [g[0]], i);
  }

  lemma WeightedColumnTwo<H>(ops: LogOps, cache: map<H, seq<real>>, g: seq<H>, i: nat)
    requires Ready(cache, g) && 1 <= |g| <= 10 && i < |cache[g[0]]| && |Unique(g)| == 2
    ensures 1 <= Count(g, g[0]) <= 10 && 1 <= Count(g, Unique(g)[1]) <= 10
    ensures Unique(g)[1] in cache && |cache[Unique(g)[1]]| == |cache[g[0]]|
    ensures WeightedColumn(ops, cache, g, i)
         == [ops.log(Count(g, g[0]) as real) + cache[g[0]][i], ops.log(Count(g, Unique(g)[1]) as real) + cache[Unique(g)[1]][i]]
  {
    TwoDistinct(g);
    UniqueCounted(g);
    CountAtMostLength(g);
    var u := Unique(g);
    assert u == [g[0], u[1]];
    WeightedTwo(ops, cache, g, g[0], u[1], i);
  }

  lemma WeightedColumnDistinct<H>(ops: LogOps, cache: map<H, seq<real>>, g: seq<H>, i: nat)
    requires Ready(cache, g) && 1 <= |g| <= 10 && i < |cache[g[0]]|
    requires Unique(g) == g && LogMatchesTable(ops, 1)
    ensures WeightedColumn(ops, cache, g, i) == Column(cache, g, i)
  {
    OnesWhenDistinct(g);
  }

  /** When every value is distinct, every multiplicity is 1. */
  lemma {:induction false} OnesWhenDistinct<H>(g: seq<H>)
    requires Distinct(g)
    ensures forall j | 0 <= j < |g| :: Count(g, g[j]) == 1
  {
    if |g| > 0 {
      var p, x := g[..|g| - 1], g[|g| - 1];
      assert g == p + [x];
      assert Distinct(p);
      OnesWhenDistinct(p);
      assert x !in p;
      assert multiset(g) == multiset(p) + multiset{x};
      forall j | 0 <= j < |g|
        ensures Count(g, g[j]) == 1
      {
        if j < |p| {
          assert g[j] == p[j];
          assert p[j] != x;
        }
      }
    }
  }

  /** The general algorithm for a homozygous genotype, given lse of one term is that term. */
  lemma GeneralHomozygous<H>(ops: LogOps, cache: map<H, seq<real>>, g: seq<H>)
    requires Ready(cache, g) && 1 <= |g| <= 10 && IsHomozygous(g)
    requires LseSingleton(ops) && LogMatchesTable(ops, |g|)
    ensures General(ops, cache, g) == Sum(cache[g[0]])
  {
    HomozygousIffZygosityOne(g);
    var a := cache[g[0]];
    var terms := seq(|a|, i requires 0 <= i < |a| => GeneralTerm(ops, cache, g, i));
    forall i | 0 <= i < |a|
      ensures terms[i] == a[i]
    {
      WeightedColumnOne(ops, cache, g, i);
      assert LseOfOne(ops, ops.log(|g| as real) + a[i]);
    }
    assert terms == a;
  }

  /** The general algorithm for two distinct haplotypes, as a weighted pair per read. */
  lemma GeneralZygosityTwo<H>(ops: LogOps, cache: map<H, seq<real>>, g: seq<H>)
    requires Ready(cache, g) && 2 <= |g| <= 10 && |Unique(g)| == 2
    ensures Count(g, g[0]) <= 10 && Count(g, Unique(g)[1]) <= 10
    ensures Count(g, g[0]) >= 1 && Count(g, Unique(g)[1]) >= 1
    ensures General(ops, cache, g)
         == Sum(Pairs(ops, cache[g[0]], cache[Unique(g)[1]],
                      ops.log(Count(g, g[0]) as real), ops.log(Count(g, Unique(g)[1]) as real), Ln(|g|)))
  {
    TwoDistinct(g);
    var u := Unique(g);
    assert u[1] in g;
    var a, b := cache[g[0]], cache[u[1]];
    var c0, c1 := Count(g, g[0]), Count(g, u[1]);
    var pairs := Pairs(ops, a, b, ops.log(c0 as real), ops.log(c1 as real), Ln(|g|));
    var terms := seq(|a|, i requires 0 <= i < |a| => GeneralTerm(ops, cache, g, i));
    forall i | 0 <= i < |a|
      ensures terms[i] == pairs[i]
    {
      WeightedColumnTwo(ops, cache, g, i);
    }
    assert terms == pairs;
  }

  /** The general algorithm for three distinct haplotypes. */
  lemma GeneralTriploidDistinct<H>(ops: LogOps, cache: map<H, seq<real>>, g: seq<H>)
    requires Ready(cache, g) && |g| == 3 && |Unique(g)| == 3
    requires LogMatchesTable(ops, 1)
    ensures General(ops, cache, g) == Sum(Triples(ops, cache[g[0]], cache[g[1]], cache[g[2]], Ln(3)))
  {
    assert Unique(g) == g by {
      assert g[..2][..1] == [g[0]];
      assert |Unique(g[..2])| <= 2;
    }
    var a, b, c := cache[g[0]], cache[g[1]], cache[g[2]];
    var triples := Triples(ops, a, b, c, Ln(3));
    var terms := seq(|a|, i requires 0 <= i < |a| => GeneralTerm(ops, cache, g, i));
    forall i | 0 <= i < |a|
      ensures terms[i] == triples[i]
    {
      WeightedColumnDistinct(ops, cache, g, i);
      assert Column(cache, g, i) == [a[i], b[i], c[i]];
    }
    assert terms == triples;
  }

  // ---------------------------------------------------------------------
  // Properties of evaluate

  /** A ploidy-0 genotype has log-likelihood 0, whatever the cache holds. */
  lemma EvaluateEmpty<H>(ops: LogOps, cache: map<H, seq<real>>, g: seq<H>)
    requires |g| == 0
    ensures Ready(cache, g) ==> Evaluate(ops, cache, g) == 0.0
  {
  }

  /**
   * A homozygous genotype of any ploidy >= 1 evaluates to the plain sum of its
   * haplotype's per-read values, with no ln(ploidy) term.
   */
  lemma {:induction false} HomozygousIsPlainSum<H>(ops: LogOps, cache: map<H, seq<real>>, g: seq<H>)
    requires Ready(cache, g) && |g| >= 1 && IsHomozygous(g)
    ensures Evaluate(ops, cache, g) == Sum(cache[g[0]])
  {
    HomozygousIffZygosityOne(g);
  }

  /** The homozygous shortcut agrees with the general algorithm. */
  lemma HomozygousAgreesWithGeneral<H>(ops: LogOps, cache: map<H, seq<real>>, g: seq<H>)
    requires Ready(cache, g) && 1 <= |g| <= 10 && IsHomozygous(g)
    requires LseSingleton(ops) && LogMatchesTable(ops, |g|)
    ensures Evaluate(ops, cache, g) == General(ops, cache, g)
  {
    HomozygousIsPlainSum(ops, cache, g);
    GeneralHomozygous(ops, cache, g);
  }

  /**
   * A heterozygous diploid gives, per read, lse(a, b) - ln 2 with a from
   * genotype[0] and b from genotype[1]; this is the general algorithm.
   */
  lemma DiploidHeterozygous<H>(ops: LogOps, cache: map<H, seq<real>>, g: seq<H>)
    requires Ready(cache, g) && |g| == 2 && g[0] != g[1]
    requires LogMatchesTable(ops, 1)
    ensures Evaluate(ops, cache, g) == Sum(Pairs(ops, cache[g[0]], cache[g[1]], 0.0, 0.0, Ln(2)))
    ensures Evaluate(ops, cache, g) == General(ops, cache, g)
  {
    assert g[..1] == [g[0]];
    assert Unique(g) == [g[0], g[1]];
    GeneralZygosityTwo(ops, cache, g);
    assert Count(g, g[0]) == 1 && Count(g, g[1]) == 1 by {
      assert g == [g[0], g[1]];
      assert multiset(g) == multiset{g[0], g[1]};
    }
  }

  /**
   * Triploid: three distinct haplotypes give lse(a, b, c) - ln 3; with one
   * haplotype doubled the ln 2 weight lands on the doubled one (the genotype
   * keeps equal copies adjacent). Every heterozygous triploid agrees with the
   * general algorithm.
   */
  lemma TriploidAgreesWithGeneral<H>(ops: LogOps, cache: map<H, seq<real>>, g: seq<H>)
    requires Ready(cache, g) && |g| == 3 && Adjacent(g) && !IsHomozygous(g)
    requires LogMatchesTable(ops, 1) && LogMatchesTable(ops, 2)
    ensures Evaluate(ops, cache, g) == General(ops, cache, g)
  {
    var u := Unique(g);
    HomozygousIffZygosityOne(g);
    UniqueCovers(g);
    if |u| == 3 {
      GeneralTriploidDistinct(ops, cache, g);
    } else {
      TriploidTwoDistinct(g);
      GeneralZygosityTwo(ops, cache, g);
    }
  }

  /** A triploid with two distinct haplotypes, equal copies adjacent: which is doubled. */
  lemma TriploidTwoDistinct<H>(g: seq<H>)
    requires |g| == 3 && Adjacent(g) && |Unique(g)| == 2
    ensures g[0] != g[1] ==> Unique(g)[1] == g[1] && Count(g, g[0]) == 1 && Count(g, g[1]) == 2
    ensures g[0] == g[1] ==> Unique(g)[1] == g[2] && Count(g, g[0]) == 2 && Count(g, g[2]) == 1
  {
    if g[0] != g[1] {
      TriploidSingleFirst(g);
    } else {
      TriploidDoubledFirst(g);
    }
  }

  /** Triploid a b b: the second distinct haplotype is b, counted twice. */
  lemma TriploidSingleFirst<H>(g: seq<H>)
    requires |g| == 3 && Adjacent(g) && |Unique(g)| == 2 && g[0] != g[1]
    ensures Unique(g)[1] == g[1] && Count(g, g[0]) == 1 && Count(g, g[1]) == 2
  {
    var u := Unique(g);
    TwoDistinct(g);
    UniqueCovers(g);
    assert g[1] in u && g[2] in u;
    assert u[1] == g[1];
    assert g[2] == g[1];
    assert g == [g[0], g[1], g[1]];
    assert multiset(g) == multiset{g[0], g[1], g[1]};
  }

  /** Triploid a a c: the second distinct haplotype is c, counted once. */
  lemma TriploidDoubledFirst<H>(g: seq<H>)
    requires |g| == 3 && |Unique(g)| == 2 && g[0] == g[1]
    ensures Unique(g)[1] == g[2] && Count(g, g[0]) == 2 && Count(g, g[2]) == 1
  {
    var u := Unique(g);
    TwoDistinct(g);
    UniqueCovers(g);
    assert g[2] in u;
    assert u[1] == g[2];
    assert g == [g[0], g[0], g[2]];
    assert multiset(g) == multiset{g[0], g[0], g[2]};
  }

  /** For a genotype of distinct haplotypes the all-copies loop is the general algorithm. */
  lemma AllCopiesDistinct<H>(ops: LogOps, cache: map<H, seq<real>>, g: seq<H>)
    requires Ready(cache, g) && 1 <= |g| <= 10 && Distinct(g)
    requires LogMatchesTable(ops, 1)
    ensures AllCopies(ops, cache, g) == General(ops, cache, g)
  {
    DistinctIsUnique(g);
    var n := |cache[g[0]]|;
    var copies := seq(n, i requires 0 <= i < n => CopiesTerm(ops, cache, g, i));
    var general := seq(n, i requires 0 <= i < n => GeneralTerm(ops, cache, g, i));
    forall i | 0 <= i < n
      ensures copies[i] == general[i]
    {
      WeightedColumnDistinct(ops, cache, g, i);
    }
    assert copies == general;
  }

  /** Counting in a sequence with one more element at the end. */
  lemma CountSnoc<H>(q: seq<H>, x: H, y: H)
    ensures Count(q + [x], y) == if y == x then Count(q, y) + 1 else Count(q, y)
  {
    assert multiset(q + [x]) == multiset(q) + multiset{x};
  }

  /** Unique of a sequence with one more element at the end. */
  lemma UniqueSnocOf<H>(q: seq<H>, x: H)
    ensures Unique(q + [x]) == if x in Unique(q) then Unique(q) else Unique(q) + [x]
  {
    var p := q + [x];
    assert p[..|p| - 1] == q;
    UniqueSnoc(p);
  }

  /** A new haplotype at the end adds an entry of weight ln 1 = 0 to the weighted column. */
  lemma WeightedColumnSnocNew<H>(ops: LogOps, cache: map<H, seq<real>>, q: seq<H>, x: H, i: nat)
    requires Ready(cache, q) && Ready(cache, q + [x]) && x in cache && 1 <= |q| <= 9 && i < |cache[q[0]]|
    requires x !in Unique(q) && LogMatchesTable(ops, 1)
    ensures WeightedColumn(ops, cache, q + [x], i) == WeightedColumn(ops, cache, q, i) + [cache[x][i]]
  {
    var u := Unique(q);
    FreshCounts(q, x);
    UniqueInCache(cache, q, i);
    UniqueSnocOf(q, x);
    WeightedColumnIsWeighted(ops, cache, q + [x], i);
    WeightedAddOne(ops, cache, q, q + [x], u, x, i);
  }

  /** A value not yet seen at the end: it occurs once, the others as often as before. */
  lemma FreshCounts<H>(q: seq<H>, x: H)
    requires |q| <= 9 && x !in Unique(q)
    ensures Count(q + [x], x) == 1
    ensures forall k | 0 <= k < |Unique(q)| ::
              1 <= Count(q, Unique(q)[k]) <= 10 && Count(q + [x], Unique(q)[k]) == Count(q, Unique(q)[k])
  {
    var u := Unique(q);
    UniqueCovers(q);
    UniqueCounted(q);
    CountAtMostLength(q);
    CountSnoc(q, x, x);
    assert x !in q;
    forall k | 0 <= k < |u|
      ensures Count(q + [x], u[k]) == Count(q, u[k])
    {
      CountSnoc(q, x, u[k]);
    }
  }

  /** Listing one more value, counted once, appends its read value with weight ln 1 = 0. */
  lemma WeightedAddOne<H>(ops: LogOps, cache: map<H, seq<real>>, g: seq<H>, g': seq<H>, u: seq<H>, y: H, i: nat)
    requires forall k | 0 <= k < |u| :: u[k] in cache && i < |cache[u[k]]|
    requires forall k | 0 <= k < |u| :: 1 <= Count(g, u[k]) <= 10 && Count(g', u[k]) == Count(g, u[k])
    requires y in cache && i < |cache[y]| && Count(g', y) == 1 && LogMatchesTable(ops, 1)
    ensures Weighted(ops, cache, g', u + [y], i) == Weighted(ops, cache, g, u, i) + [cache[y][i]]
  {
  }

  /** Raising one count by one raises that entry's weight from ln c to ln(c + 1). */
  lemma WeightedBump<H>(ops: LogOps, cache: map<H, seq<real>>, g: seq<H>, g': seq<H>, u: seq<H>, i: nat, j: nat)
    requires forall k | 0 <= k < |u| :: u[k] in cache && i < |cache[u[k]]|
    requires forall k | 0 <= k < |u| :: 1 <= Count(g, u[k]) <= 10 && 1 <= Count(g', u[k]) <= 10
    requires j < |u| && Count(g', u[j]) == Count(g, u[j]) + 1
    requires forall k | 0 <= k < |u| && k != j :: Count(g', u[k]) == Count(g, u[k])
    ensures Weighted(ops, cache, g', u, i) == Weighted(ops, cache, g, u, i)[j := ops.log(Count(g', u[j]) as real) + cache[u[j]][i]]
  {
  }

  /** Every distinct haplotype of a ready genotype has a value for read i. */
  lemma UniqueInCache<H>(cache: map<H, seq<real>>, q: seq<H>, i: nat)
    requires Ready(cache, q) && |q| >= 1 && i < |cache[q[0]]|
    ensures forall k | 0 <= k < |Unique(q)| :: Unique(q)[k] in cache && i < |cache[Unique(q)[k]]|
  {
  }

  /** A repeated value at the end: its count one higher, the others unchanged. */
  lemma RepeatCounts<H>(q: seq<H>, x: H, j: nat)
    requires |q| <= 9 && j < |Unique(q)| && Unique(q)[j] == x
    ensures 1 <= Count(q, x) <= 9 && Count(q + [x], x) == Count(q, x) + 1
    ensures forall k | 0 <= k < |Unique(q)| ::
              1 <= Count(q, Unique(q)[k]) <= 10 && 1 <= Count(q + [x], Unique(q)[k]) <= 10
    ensures forall k | 0 <= k < |Unique(q)| && k != j :: Count(q + [x], Unique(q)[k]) == Count(q, Unique(q)[k])
  {
    var u := Unique(q);
    UniqueCounted(q);
    CountAtMostLength(q);
    CountSnoc(q, x, x);
    forall k | 0 <= k < |u|
      ensures 1 <= Count(q, u[k]) <= 10 && 1 <= Count(q + [x], u[k]) <= 10
      ensures k != j ==> Count(q + [x], u[k]) == Count(q, u[k])
    {
      CountSnoc(q, x, u[k]);
    }
  }

  /**
   * A repeated haplotype at the end raises the weight of its entry in the
   * weighted column from ln c to ln(c + 1).
   */
  lemma WeightedColumnSnocOld<H>(ops: LogOps, cache: map<H, seq<real>>, q: seq<H>, x: H, i: nat, j: nat)
    requires Ready(cache, q) && Ready(cache, q + [x]) && x in cache && 1 <= |q| <= 9 && i < |cache[q[0]]|
    requires j < |Unique(q)| && Unique(q)[j] == x
    ensures 1 <= Count(q, x) <= 9 && Count(q + [x], x) == Count(q, x) + 1
    ensures WeightedColumn(ops, cache, q, i)[j] == ops.log(Count(q, x) as real) + cache[x][i]
    ensures WeightedColumn(ops, cache, q + [x], i)
         == WeightedColumn(ops, cache, q, i)[j := ops.log(Count(q + [x], x) as real) + cache[x][i]]
  {
    var u := Unique(q);
    RepeatCounts(q, x, j);
    UniqueSnocOf(q, x);
    WeightedColumnIsWeighted(ops, cache, q + [x], i);
    WeightedBump(ops, cache, q, q + [x], u, i, j);
  }

  /** The weighted column lists the distinct haplotypes, each in the cache and counted 1 to 10 times. */
  lemma WeightedColumnIsWeighted<H>(ops: LogOps, cache: map<H, seq<real>>, g: seq<H>, i: nat)
    requires Ready(cache, g) && 1 <= |g| <= 10 && i < |cache[g[0]]|
    ensures forall k | 0 <= k < |Unique(g)| ::
              Unique(g)[k] in cache && i < |cache[Unique(g)[k]]| && 1 <= Count(g, Unique(g)[k]) <= 10
    ensures WeightedColumn(ops, cache, g, i) == Weighted(ops, cache, g, Unique(g), i)
  {
    CountAtMostLength(g);
    UniqueCounted(g);
  }

  /** Entry j of w and the value y, moved behind the rest: the same multiset. */
  lemma MoveToEnd<T>(w: seq<T>, j: nat, y: T, t: seq<T>)
    requires j < |w|
    ensures multiset(w + ([y] + t)) == multiset(w[..j] + w[j + 1..] + t + [w[j], y])
  {
    assert w == w[..j] + [w[j]] + w[j + 1..];
  }

  /** Entry j of w replaced by x, or x placed behind the rest: the same multiset. */
  lemma MoveBack<T>(w: seq<T>, j: nat, x: T, t: seq<T>)
    requires j < |w|
    ensures multiset(w[..j] + w[j + 1..] + t + [x]) == multiset(w[j := x] + t)
  {
    assert w[j := x] == w[..j] + [x] + w[j + 1..];
  }

  /**
   * Appending a copy v to w gives the same log-sum-exp as replacing entry j of
   * w by e', when the two terms w[j] and v merge into e'.
   */
  lemma LseMergeAt(ops: LogOps, w: seq<real>, j: nat, v: real, e': real, t: seq<real>)
    requires LseOrderFree(ops)
    requires j < |w|
    requires ops.logSumExp(w[..j] + w[j + 1..] + t + [w[j], v]) == ops.logSumExp(w[..j] + w[j + 1..] + t + [e'])
    ensures ops.logSumExp(w + ([v] + t)) == ops.logSumExp(w[j := e'] + t)
  {
    var rest := w[..j] + w[j + 1..] + t;
    MoveToEnd(w, j, v, t);
    MoveBack(w, j, e', t);
    assert LsePermutes(ops, w + ([v] + t), rest + [w[j], v]);
    assert LsePermutes(ops, rest + [e'], w[j := e'] + t);
  }

  /** A copy v appended to w merges into entry j = ln c + v, which becomes ln(c + 1) + v. */
  lemma LseMergeRepeat(ops: LogOps, w: seq<real>, j: nat, c: nat, v: real, e': real, t: seq<real>)
    requires LseOrderFree(ops) && LseMergesCopies(ops)
    requires j < |w| && c >= 1 && w[j] == ops.log(c as real) + v && e' == ops.log((c + 1) as real) + v
    ensures ops.logSumExp(w + ([v] + t)) == ops.logSumExp(w[j := e'] + t)
  {
    assert LseMerges(ops, w[..j] + w[j + 1..] + t, v, c);
    LseMergeAt(ops, w, j, v, e', t);
  }

  /**
   * One more copy at the end: if the copies of q and the weighted column of q
   * agree whatever follows them, so do those of q + [x].
   */
  lemma CopiesMergeStep<H>(ops: LogOps, cache: map<H, seq<real>>, q: seq<H>, x: H, i: nat, t: seq<real>)
    requires LseOrderFree(ops) && LseMergesCopies(ops) && LogMatchesTable(ops, 1)
    requires Ready(cache, q) && Ready(cache, q + [x]) && x in cache && 1 <= |q| <= 9 && i < |cache[q[0]]|
    requires ops.logSumExp(Column(cache, q, i) + ([cache[x][i]] + t))
          == ops.logSumExp(WeightedColumn(ops, cache, q, i) + ([cache[x][i]] + t))
    ensures ops.logSumExp(Column(cache, q + [x], i) + t)
         == ops.logSumExp(WeightedColumn(ops, cache, q + [x], i) + t)
  {
    var v := cache[x][i];
    var w := WeightedColumn(ops, cache, q, i);
    assert Column(cache, q + [x], i) + t == Column(cache, q, i) + ([v] + t);
    if x in Unique(q) {
      var j :| 0 <= j < |Unique(q)| && Unique(q)[j] == x;
      WeightedColumnSnocOld(ops, cache, q, x, i, j);
      LseMergeRepeat(ops, w, j, Count(q, x), v, ops.log(Count(q + [x], x) as real) + v, t);
    } else {
      WeightedColumnSnocNew(ops, cache, q, x, i);
      assert w + ([v] + t) == (w + [v]) + t;
    }
  }

  /**
   * The copies of a genotype and its weighted column have the same log-sum-exp,
   * whatever terms follow them.
   */
  lemma {:induction false} CopiesMergeIntoWeights<H>(ops: LogOps, cache: map<H, seq<real>>, p: seq<H>, i: nat, t: seq<real>)
    requires LseOrderFree(ops) && LseMergesCopies(ops) && LogMatchesTable(ops, 1)
    requires Ready(cache, p) && 1 <= |p| <= 10 && i < |cache[p[0]]|
    ensures ops.logSumExp(Column(cache, p, i) + t) == ops.logSumExp(WeightedColumn(ops, cache, p, i) + t)
  {
    if |p| == 1 {
      OneDistinct(p);
      WeightedColumnOne(ops, cache, p, i);
      assert Column(cache, p, i) == WeightedColumn(ops, cache, p, i);
    } else {
      var q, x := p[..|p| - 1], p[|p| - 1];
      assert p == q + [x];
      assert Ready(cache, q);
      CopiesMergeIntoWeights(ops, cache, q, i, [cache[x][i]] + t);
      assert x in cache;
      CopiesMergeStep(ops, cache, q, x, i, t);
    }
  }

  /**
   * For every genotype the all-copies loop is the general algorithm, given that
   * log-sum-exp ignores the order of its terms and merges equal copies.
   */
  lemma AllCopiesAgreesWithGeneral<H>(ops: LogOps, cache: map<H, seq<real>>, g: seq<H>)
    requires LseOrderFree(ops) && LseMergesCopies(ops) && LogMatchesTable(ops, 1)
    requires Ready(cache, g) && 1 <= |g| <= 10
    ensures AllCopies(ops, cache, g) == General(ops, cache, g)
  {
    var n := |cache[g[0]]|;
    var copies := seq(n, i requires 0 <= i < n => CopiesTerm(ops, cache, g, i));
    var general := seq(n, i requires 0 <= i < n => GeneralTerm(ops, cache, g, i));
    forall i | 0 <= i < n
      ensures copies[i] == general[i]
    {
      CopiesMergeIntoWeights(ops, cache, g, i, []);
      assert Column(cache, g, i) + [] == Column(cache, g, i);
      assert WeightedColumn(ops, cache, g, i) + [] == WeightedColumn(ops, cache, g, i);
    }
    assert copies == general;
  }

  /** Ploidy 4 to 10 with at least three distinct haplotypes: evaluate is the general algorithm. */
  lemma PolyploidManyAgreesWithGeneral<H>(ops: LogOps, cache: map<H, seq<real>>, g: seq<H>)
    requires LseOrderFree(ops) && LseMergesCopies(ops) && LogMatchesTable(ops, 1)
    requires Ready(cache, g) && 4 <= |g| <= 10 && |Unique(g)| >= 3
    ensures Evaluate(ops, cache, g) == General(ops, cache, g)
  {
    HomozygousIffZygosityOne(g);
    AllCopiesAgreesWithGeneral(ops, cache, g);
  }

  /**
   * Ploidy >= 4 with two distinct haplotypes, one of them once: the weight
   * log(ploidy - 1) goes on the other, which is what the general algorithm gives
   * (given std::log 1 = 0, the weight of the single copy).
   */
  lemma PolyploidSingletonAgreesWithGeneral<H>(ops: LogOps, cache: map<H, seq<real>>, g: seq<H>)
    requires Ready(cache, g) && 4 <= |g| <= 10 && |Unique(g)| == 2
    requires Count(g, g[0]) == 1 || Count(g, Unique(g)[1]) == 1
    requires LogMatchesTable(ops, 1)
    ensures Evaluate(ops, cache, g) == General(ops, cache, g)
  {
    TwoDistinct(g);
    GeneralZygosityTwo(ops, cache, g);
    HomozygousIffZygosityOne(g);
  }

  /**
   * As written, ploidy 4 with two haplotypes twice each, [x, x, y, y], is
   * weighted as if x were carried three times and y once: ln 3 on x and 0 on
   * y, where the general algorithm puts ln 2 on each.
   */
  lemma PolyploidTwoByTwo<H>(ops: LogOps, cache: map<H, seq<real>>, x: H, y: H)
    requires Primed(cache) && x in cache && y in cache && x != y
    requires LogMatchesTable(ops, 2) && LogMatchesTable(ops, 3)
    ensures Ready(cache, [x, x, y, y])
    ensures Evaluate(ops, cache, [x, x, y, y])
         == Sum(Pairs(ops, cache[x], cache[y], ops.log(3.0), 0.0, Ln(4)))
    ensures General(ops, cache, [x, x, y, y])
         == Sum(Pairs(ops, cache[x], cache[y], ops.log(2.0), ops.log(2.0), Ln(4)))
    ensures ops.log(3.0) != ops.log(2.0)
  {
    var g := [x, x, y, y];
    TwoByTwo(x, y);
    GeneralZygosityTwo(ops, cache, g);
    HomozygousIffZygosityOne(g);
    LnTableIncreasing(2, 3);
  }

  /** [x, x, y, y] has distinct values [x, y], each twice. */
  lemma TwoByTwo<H>(x: H, y: H)
    requires x != y
    ensures Unique([x, x, y, y]) == [x, y]
    ensures Count([x, x, y, y], x) == 2 && Count([x, x, y, y], y) == 2
  {
    var g := [x, x, y, y];
    assert Unique([x, x]) == [x] by {
      UniqueSnoc([x, x]);
      assert [x, x][..1] == [x];
    }
    assert Unique([x, x, y]) == [x, y] by {
      UniqueSnoc([x, x, y]);
      assert [x, x, y][..2] == [x, x];
    }
    assert Unique(g) == [x, y] by {
      UniqueSnoc(g);
      assert g[..3] == [x, x, y];
    }
    assert multiset(g) == multiset{x, x, y, y};
  }

  /**
   * evaluate_polyploid with the zygosity-2 branch weighting each haplotype by
   * the log of its own count, as the general algorithm does.
   */
  function EvaluatePolyploidCorrected<H>(ops: LogOps, cache: map<H, seq<real>>, g: seq<H>): real
    requires Ready(cache, g) && |g| >= 1
    requires |g| <= 10 || |Unique(g)| == 1
  {
    var z := |Unique(g)|;
    var a := cache[g[0]];
    if z == 1 then Sum(a)
    else if z == 2 then
      TwoDistinct(g);
      CountAtMostLength(g);
      var u := Unique(g);
      Sum(Pairs(ops, a, cache[u[1]], ops.log(Count(g, u[0]) as real), ops.log(Count(g, u[1]) as real), Ln(|g|)))
    else AllCopies(ops, cache, g)
  }

  /**
   * The corrected branch agrees with the general algorithm for every genotype
   * with two distinct haplotypes, whatever their counts.
   */
  lemma PolyploidCorrectedAgreesWithGeneral<H>(ops: LogOps, cache: map<H, seq<real>>, g: seq<H>)
    requires Ready(cache, g) && 1 <= |g| <= 10
    requires |Unique(g)| <= 2
    requires LseSingleton(ops) && (|Unique(g)| == 1 ==> LogMatchesTable(ops, |g|))
    ensures EvaluatePolyploidCorrected(ops, cache, g) == General(ops, cache, g)
  {
    if |Unique(g)| == 1 {
      HomozygousIffZygosityOne(g);
      GeneralHomozygous(ops, cache, g);
    } else {
      GeneralZygosityTwo(ops, cache, g);
    }
  }

  /**
   * The unused tetraploid fast path: right for homozygous genotypes and for
   * four distinct haplotypes, and 0 (its unfinished branch) otherwise.
   */
  lemma TetraploidFastPath<H>(ops: LogOps, cache: map<H, seq<real>>, g: seq<H>)
    requires Ready(cache, g) && |g| == 4
    requires LseSingleton(ops) && LogMatchesTable(ops, 1) && LogMatchesTable(ops, 4)
    ensures |Unique(g)| == 1 || |Unique(g)| == 4 ==> EvaluateTetraploid(ops, cache, g) == General(ops, cache, g)
    ensures |Unique(g)| == 1 || |Unique(g)| == 4 ==> EvaluateTetraploid(ops, cache, g) == Evaluate(ops, cache, g)
    ensures 1 < |Unique(g)| < 4 ==> EvaluateTetraploid(ops, cache, g) == 0.0
  {
    var u := Unique(g);
    if |u| == 1 {
      HomozygousIffZygosityOne(g);
      HomozygousAgreesWithGeneral(ops, cache, g);
    } else if |u| == 4 {
      UniqueIsSelf(g);
      AllCopiesDistinct(ops, cache, g);
      QuadsAreCopies(ops, cache, g);
      HomozygousIffZygosityOne(g);
    }
  }

  /** Four distinct haplotypes: the tetraploid fast path is the all-copies loop. */
  lemma QuadsAreCopies<H>(ops: LogOps, cache: map<H, seq<real>>, g: seq<H>)
    requires Ready(cache, g) && |g| == 4
    ensures Sum(Quads(ops, cache[g[0]], cache[g[1]], cache[g[2]], cache[g[3]], Ln(4))) == AllCopies(ops, cache, g)
  {
    var a := cache[g[0]];
    var quads := Quads(ops, a, cache[g[1]], cache[g[2]], cache[g[3]], Ln(4));
    var copies := seq(|a|, i requires 0 <= i < |a| => CopiesTerm(ops, cache, g, i));
    forall i | 0 <= i < |a|
      ensures quads[i] == copies[i]
    {
      assert Column(cache, g, i) == [a[i], cache[g[1]][i], cache[g[2]][i], cache[g[3]][i]];
    }
    assert quads == copies;
  }

  // ---------------------------------------------------------------------
  // The log-sum-exp hypotheses can hold together

  /** The largest term, 0 for no terms: the max-plus limit of log-sum-exp. */
  function MaxOf(s: seq<real>): (m: real)
    ensures |s| > 0 ==> m in s && forall x | x in s :: x <= m
  {
    if |s| == 0 then 0.0
    else if |s| == 1 then s[0]
    else
      var m := MaxOf(s[..|s| - 1]);
      assert forall x | x in s :: x in s[..|s| - 1] || x == s[|s| - 1];
      if s[|s| - 1] > m then s[|s| - 1] else m
  }

  /** Two non-empty term lists with the same members have the same largest term. */
  lemma MaxOfMembers(s: seq<real>, t: seq<real>)
    requires |s| > 0 && |t| > 0
    requires forall x | x in s :: x in t
    requires forall x | x in t :: x in s
    ensures MaxOf(s) == MaxOf(t)
  {
    assert MaxOf(s) in t && MaxOf(t) in s;
  }

  /**
   * Log-sum-exp, order-free and merging copies, with log 1 = 0, is a consistent
   * set of hypotheses: std::log constantly 0 with the maximum as log-sum-exp
   * meets all four, so no lemma assuming them holds vacuously.
   */
  lemma MergeHypothesesSatisfiable()
    ensures exists ops: LogOps :: LseSingleton(ops) && LseOrderFree(ops) && LseMergesCopies(ops) && LogMatchesTable(ops, 1)
  {
    var ops := LogOps(x => 0.0, s => MaxOf(s), m => 0.0);
    forall x: real
      ensures LseOfOne(ops, x)
    {
      assert MaxOf([x]) == x;
    }
    forall s: seq<real>, t: seq<real>
      ensures LsePermutes(ops, s, t)
    {
      if multiset(s) == multiset(t) && |s| > 0 {
        assert |t| == |multiset(t)| == |multiset(s)| == |s|;
        forall x | x in s
          ensures x in t
        {
          assert x in multiset(s);
        }
        forall x | x in t
          ensures x in s
        {
          assert x in multiset(t);
        }
        MaxOfMembers(s, t);
      } else if multiset(s) == multiset(t) {
        assert |t| == |multiset(t)| == |multiset(s)| == |s|;
        assert s == t == [];
      }
    }
    forall s: seq<real>, a: real, k: nat | k >= 1
      ensures LseMerges(ops, s, a, k)
    {
      MaxOfMembers(s + [0.0 + a, a], s + [0.0 + a]);
    }
    assert LogMatchesTable(ops, 1);
  }
}
