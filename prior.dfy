/**
 * The Hardy-Weinberg genotype prior and the haplotype-frequency maps it reads
 * (GenotypeModel in genotype_model.hpp). A frequency map is a `map<H, real>`;
 * `.at` on a missing haplotype throws std::out_of_range, modelled as `Err`.
 */
module GenotypePrior {
  import opened Maths
  import opened Multiplicity
  import opened Outcome

  /** std::out_of_range from HaplotypeFrequencies::at. */
  datatype LookupError = OutOfRange

  /** Every haplotype of the genotype has a frequency. */
  predicate Covered<H>(f: map<H, real>, g: seq<H>)
  {
    forall i | 0 <= i < |g| :: g[i] in f
  }

  /** count(h) * ln f(h): one haplotype's share of the prior. */
  function LogTerm<H>(ops: LogOps, f: map<H, real>, g: seq<H>, h: H): real
    requires h in f
  {
    (Count(g, h) as real) * ops.log(f[h])
  }

  /** Sum over the haplotypes listed in u of count(h) * ln f(h), left to right. */
  function WeightedLogSum<H>(ops: LogOps, f: map<H, real>, g: seq<H>, u: seq<H>): real
    requires forall k | 0 <= k < |u| :: u[k] in f
  {
    if |u| == 0 then 0.0
    else WeightedLogSum(ops, f, g, u[..|u| - 1]) + LogTerm(ops, f, g, u[|u| - 1])
  }

  lemma WeightedLogSumOne<H>(ops: LogOps, f: map<H, real>, g: seq<H>, x: H)
    requires x in f
    ensures WeightedLogSum(ops, f, g, [x]) == (Count(g, x) as real) * ops.log(f[x])
  {
    assert [x][..0] == [];
  }

  lemma WeightedLogSumTwo<H>(ops: LogOps, f: map<H, real>, g: seq<H>, x: H, y: H)
    requires x in f && y in f
    ensures WeightedLogSum(ops, f, g, [x, y])
         == (Count(g, x) as real) * ops.log(f[x]) + (Count(g, y) as real) * ops.log(f[y])
  {
    assert [x, y][..1] == [x];
    WeightedLogSumOne(ops, f, g, x);
  }

  /** log_hardy_weinberg_triploid / _polyploid: ln multinomial(m) + sum of m_i ln f(h_i). */
  function HardyWeinbergPolyploid<H>(ops: LogOps, f: map<H, real>, g: seq<H>): (r: Result<real, LookupError>)
    ensures r.Ok? <==> Covered(f, g)
  {
    UniqueCovers(g);
    if Covered(f, g) then Ok(ops.logMultinomial(Multiplicities(g)) + WeightedLogSum(ops, f, g, Unique(g)))
    else Err(OutOfRange)
  }

  /** log_hardy_weinberg_haploid. */
  function HardyWeinbergHaploid<H>(ops: LogOps, f: map<H, real>, g: seq<H>): Result<real, LookupError>
    requires |g| == 1
  {
    if g[0] in f then Ok(ops.log(f[g[0]])) else Err(OutOfRange)
  }

  /** log_hardy_weinberg_diploid; ln_2 is std::log(2.0). */
  function HardyWeinbergDiploid<H>(ops: LogOps, f: map<H, real>, g: seq<H>): Result<real, LookupError>
    requires |g| == 2
  {
    if IsHomozygous(g) then
      if g[0] in f then Ok(2.0 * ops.log(f[g[0]])) else Err(OutOfRange)
    else if g[0] in f && g[1] in f then Ok(ops.log(f[g[0]]) + ops.log(f[g[1]]) + ops.log(2.0))
    else Err(OutOfRange)
  }

  /** log_hardy_weinberg: dispatch on ploidy; 0 and 3 and above take the multinomial form. */
  function LogHardyWeinberg<H>(ops: LogOps, f: map<H, real>, g: seq<H>): (r: Result<real, LookupError>)
    ensures r.Ok? <==> Covered(f, g)
  {
    if |g| == 1 then HardyWeinbergHaploid(ops, f, g)
    else if |g| == 2 then HardyWeinbergDiploid(ops, f, g)
    else HardyWeinbergPolyploid(ops, f, g)
  }

  /**
   * The loop of log_hardy_weinberg_triploid and _polyploid (the two bodies are
   * the same): push each distinct haplotype's count and add count * ln f(h);
   * `.at` throws at the first haplotype without a frequency.
   */
  method HardyWeinbergLoop<H>(ops: LogOps, f: map<H, real>, g: seq<H>) returns (r: Result<real, LookupError>)
    ensures r == HardyWeinbergPolyploid(ops, f, g)
  {
    var unique := Unique(g);
    var occurrences: seq<nat> := [];
    var acc := 0.0;
    var j := 0;
    while j < |unique|
      invariant 0 <= j <= |unique|
      invariant forall k | 0 <= k < j :: unique[k] in f
      invariant occurrences == Multiplicities(g)[..j]
      invariant acc == WeightedLogSum(ops, f, g, unique[..j])
    {
      var h := unique[j];
      if h !in f {
        LookupFails(ops, f, g, j);
        return Err(OutOfRange);
      }
      LoopStep(ops, f, g, j);
      occurrences := occurrences + [Count(g, h)];
      acc := acc + LogTerm(ops, f, g, h);
      j := j + 1;
    }
    LoopEnd(ops, f, g);
    return Ok(ops.logMultinomial(occurrences) + acc);
  }

  /** One more distinct haplotype: one more count pushed, one more term added. */
  lemma LoopStep<H>(ops: LogOps, f: map<H, real>, g: seq<H>, j: nat)
    requires j < |Unique(g)|
    requires forall k | 0 <= k <= j :: Unique(g)[k] in f
    ensures Multiplicities(g)[..j + 1] == Multiplicities(g)[..j] + [Count(g, Unique(g)[j])]
    ensures WeightedLogSum(ops, f, g, Unique(g)[..j + 1])
         == WeightedLogSum(ops, f, g, Unique(g)[..j])
          + LogTerm(ops, f, g, Unique(g)[j])
  {
    var u := Unique(g);
    assert u[..j + 1][..j] == u[..j];
  }

  /** A distinct haplotype without a frequency makes the whole prior fail. */
  lemma LookupFails<H>(ops: LogOps, f: map<H, real>, g: seq<H>, j: nat)
    requires j < |Unique(g)| && Unique(g)[j] !in f
    ensures HardyWeinbergPolyploid(ops, f, g) == Err(OutOfRange)
  {
    var h := Unique(g)[j];
    var i :| 0 <= i < |g| && g[i] == h;
  }

  /** Every distinct haplotype has a frequency: the loop's counts and sum are the prior's. */
  lemma LoopEnd<H>(ops: LogOps, f: map<H, real>, g: seq<H>)
    requires forall k | 0 <= k < |Unique(g)| :: Unique(g)[k] in f
    ensures HardyWeinbergPolyploid(ops, f, g)
         == Ok(ops.logMultinomial(Multiplicities(g)[..|Unique(g)|])
               + WeightedLogSum(ops, f, g, Unique(g)[..|Unique(g)|]))
  {
    CoveredByUnique(f, g);
    var u, m := Unique(g), Multiplicities(g);
    assert u[..|u|] == u;
    assert m[..|u|] == m;
  }

  /** Frequencies for the distinct haplotypes cover the whole genotype. */
  lemma CoveredByUnique<H>(f: map<H, real>, g: seq<H>)
    requires forall k | 0 <= k < |Unique(g)| :: Unique(g)[k] in f
    ensures Covered(f, g)
  {
    UniqueCovers(g);
    forall i | 0 <= i < |g|
      ensures g[i] in f
    {
      var k :| 0 <= k < |Unique(g)| && Unique(g)[k] == g[i];
    }
  }

  // ---------------------------------------------------------------------
  // Properties of the prior

  /**
   * A homozygous genotype of ploidy p gets p * ln f(h), given that the
   * multinomial coefficient of a single class is 1 (its log 0).
   */
  lemma HomozygousPrior<H>(ops: LogOps, f: map<H, real>, g: seq<H>)
    requires |g| >= 1 && IsHomozygous(g) && g[0] in f
    requires |g| >= 3 ==> ops.logMultinomial([|g|]) == 0.0
    ensures LogHardyWeinberg(ops, f, g) == Ok((|g| as real) * ops.log(f[g[0]]))
  {
    if |g| >= 3 {
      HomozygousMultinomial(ops, f, g);
    } else if |g| == 2 {
      assert (|g| as real) * ops.log(f[g[0]]) == 2.0 * ops.log(f[g[0]]);
    } else {
      assert (|g| as real) * ops.log(f[g[0]]) == 1.0 * ops.log(f[g[0]]);
    }
  }

  /** The multinomial form for a homozygous genotype. */
  lemma HomozygousMultinomial<H>(ops: LogOps, f: map<H, real>, g: seq<H>)
    requires |g| >= 1 && IsHomozygous(g) && g[0] in f
    requires ops.logMultinomial([|g|]) == 0.0
    ensures HardyWeinbergPolyploid(ops, f, g) == Ok((|g| as real) * ops.log(f[g[0]]))
  {
    assert Covered(f, g);
    HomozygousIffZygosityOne(g);
    OneDistinct(g);
    assert Multiplicities(g) == [|g|];
    WeightedLogSumOne(ops, f, g, g[0]);
    assert WeightedLogSum(ops, f, g, Unique(g)) == (|g| as real) * ops.log(f[g[0]]);
  }

  /**
   * The haploid and diploid closed forms are the multinomial form, given the
   * values of the multinomial coefficient they build in: 1 for (1) and (2),
   * and 2 for (1, 1), with ln 2 computed by std::log.
   */
  lemma ClosedFormsAreMultinomial<H>(ops: LogOps, f: map<H, real>, g: seq<H>)
    requires |g| == 1 || |g| == 2
    requires ops.logMultinomial([1]) == 0.0 && ops.logMultinomial([2]) == 0.0
    requires ops.logMultinomial([1, 1]) == ops.log(2.0)
    ensures LogHardyWeinberg(ops, f, g) == HardyWeinbergPolyploid(ops, f, g)
  {
    if Covered(f, g) {
      if |g| == 1 || g[0] == g[1] {
        assert IsHomozygous(g);
        HomozygousPrior(ops, f, g);
        HomozygousMultinomial(ops, f, g);
      } else {
        HeterozygousDiploidMultinomial(ops, f, g);
      }
    }
  }

  /** The multinomial form for a heterozygous diploid: counts (1, 1). */
  lemma HeterozygousDiploidMultinomial<H>(ops: LogOps, f: map<H, real>, g: seq<H>)
    requires |g| == 2 && g[0] != g[1] && g[0] in f && g[1] in f
    ensures HardyWeinbergPolyploid(ops, f, g)
         == Ok(ops.logMultinomial([1, 1]) + (ops.log(f[g[0]]) + ops.log(f[g[1]])))
  {
    assert Covered(f, g);
    HeterozygousPair(g);
    WeightedLogSumTwo(ops, f, g, g[0], g[1]);
    assert WeightedLogSum(ops, f, g, Unique(g)) == 1.0 * ops.log(f[g[0]]) + 1.0 * ops.log(f[g[1]]);
  }

  /** Two different haplotypes: both distinct, each counted once. */
  lemma HeterozygousPair<H>(g: seq<H>)
    requires |g| == 2 && g[0] != g[1]
    ensures Unique(g) == [g[0], g[1]]
    ensures Multiplicities(g) == [1, 1]
  {
    UniquePair(g);
    CountsPair(g);
    var m := Multiplicities(g);
    assert m[0] == 1 && m[1] == 1;
  }

  lemma UniquePair<H>(g: seq<H>)
    requires |g| == 2 && g[0] != g[1]
    ensures Unique(g) == [g[0], g[1]]
  {
    assert g[..1] == [g[0]];
    UniqueSnoc(g);
  }

  lemma CountsPair<H>(g: seq<H>)
    requires |g| == 2 && g[0] != g[1]
    ensures Count(g, g[0]) == 1 && Count(g, g[1]) == 1
  {
    assert g == [g[0]] + [g[1]];
    assert multiset(g) == multiset{g[0]} + multiset{g[1]};
  }

  // ---------------------------------------------------------------------
  // Haplotype frequency maps

  /** Sum of m[k] over the keys listed in `keys`, left to right. */
  function ValueSum<H>(m: map<H, real>, keys: seq<H>): real
    requires forall i | 0 <= i < |keys| :: keys[i] in m
  {
    if |keys| == 0 then 0.0 else ValueSum(m, keys[..|keys| - 1]) + m[keys[|keys| - 1]]
  }

  /** `keys` lists every key of m exactly once (an iteration order of the unordered_map). */
  predicate Enumerates<H>(m: map<H, real>, keys: seq<H>)
  {
    Distinct(keys) && (forall i | 0 <= i < |keys| :: keys[i] in m) && (forall k | k in m :: k in keys)
  }

  /** The map init_haplotype_frequencies(vector) builds: each haplotype to 1/n. */
  function Uniform<H>(haps: seq<H>): (m: map<H, real>)
    ensures m.Keys == set i | 0 <= i < |haps| :: haps[i]
  {
    if |haps| == 0 then map[]
    else map h | h in haps :: 1.0 / (|haps| as real)
  }

  /**
   * init_haplotype_frequencies(vector): emplace each haplotype with 1/n, n the
   * number of haplotypes counting duplicates; emplace keeps the first value.
   */
  method InitUniform<H>(haps: seq<H>) returns (result: map<H, real>)
    ensures result == Uniform(haps)
  {
    result := map[];
    if |haps| == 0 {
      return;
    }
    var uniform := 1.0 / (|haps| as real);
    var i := 0;
    while i < |haps|
      invariant 0 <= i <= |haps|
      invariant result.Keys == set k | 0 <= k < i :: haps[k]
      invariant forall h | h in result :: result[h] == uniform
    {
      if haps[i] !in result {
        result := result[haps[i] := uniform];
      }
      i := i + 1;
    }
  }

  /** A sum over keys whose values are all c is the number of keys times c. */
  lemma {:induction false} ValueSumConstant<H>(m: map<H, real>, keys: seq<H>, c: real)
    requires forall i | 0 <= i < |keys| :: keys[i] in m && m[keys[i]] == c
    ensures ValueSum(m, keys) == (|keys| as real) * c
  {
    if |keys| > 0 {
      ValueSumConstant(m, keys[..|keys| - 1], c);
    }
  }

  /**
   * The uniform frequencies sum to 1 exactly when no haplotype is repeated;
   * with repeats the sum is (distinct haplotypes) / n < 1. The sum runs over
   * the map's keys, listed once each by Unique.
   */
  lemma UniformSumsToOneIffDistinct<H>(haps: seq<H>)
    requires |haps| > 0
    ensures Enumerates(Uniform(haps), Unique(haps))
    ensures ValueSum(Uniform(haps), Unique(haps)) == 1.0 <==> Distinct(haps)
  {
    UniformSum(haps);
    UniqueIsSelf(haps);
    ShareIsOne(|Unique(haps)|, |haps|);
  }

  /** Unique lists the keys of the uniform map once each. */
  lemma UniformEnumeratedByUnique<H>(haps: seq<H>)
    ensures Enumerates(Uniform(haps), Unique(haps))
  {
    UniqueCovers(haps);
  }

  /** a copies of 1/n. */
  function Share(a: nat, n: nat): real
    requires n > 0
  {
    (a as real) * (1.0 / (n as real))
  }

  /** Summed over its keys, the uniform map gives (distinct haplotypes) copies of 1/n. */
  lemma UniformSum<H>(haps: seq<H>)
    requires |haps| > 0
    ensures Enumerates(Uniform(haps), Unique(haps))
    ensures ValueSum(Uniform(haps), Unique(haps)) == Share(|Unique(haps)|, |haps|)
  {
    UniformEnumeratedByUnique(haps);
    var m, u := Uniform(haps), Unique(haps);
    var c := 1.0 / (|haps| as real);
    forall i | 0 <= i < |u|
      ensures u[i] in m && m[u[i]] == c
    {
    }
    ValueSumShare(m, u, |haps|);
  }

  /** A sum over keys whose values are all 1/n is |keys| copies of 1/n. */
  lemma ValueSumShare<H>(m: map<H, real>, keys: seq<H>, n: nat)
    requires n > 0
    requires forall i | 0 <= i < |keys| :: keys[i] in m && m[keys[i]] == 1.0 / (n as real)
    ensures ValueSum(m, keys) == Share(|keys|, n)
  {
    ValueSumConstant(m, keys, 1.0 / (n as real));
  }

  /** a copies of 1/n make 1 exactly when a == n. */
  lemma ShareIsOne(a: nat, n: nat)
    requires n > 0
    ensures Share(a, n) == 1.0 <==> a == n
  {
    assert Share(a, n) == (a as real) / (n as real);
  }

  /** The map init_haplotype_frequencies(counts) builds: each key to count / total. */
  function Normalised<H>(counts: map<H, real>, order: seq<H>): (m: map<H, real>)
    requires Enumerates(counts, order)
    requires |order| > 0 ==> ValueSum(counts, order) != 0.0
    ensures m.Keys == counts.Keys
  {
    if |order| == 0 then map[]
    else map k | k in counts :: counts[k] / ValueSum(counts, order)
  }

  /**
   * init_haplotype_frequencies(counts): total the counts (Maths::sum_values),
   * then emplace each key, in the map's iteration order, with count / total.
   */
  method InitFromCounts<H>(counts: map<H, real>, order: seq<H>) returns (result: map<H, real>)
    requires Enumerates(counts, order)
    requires |order| > 0 ==> ValueSum(counts, order) != 0.0
    ensures result == Normalised(counts, order)
  {
    result := map[];
    var n := ValueSum(counts, order);
    var i := 0;
    while i < |order|
      invariant 0 <= i <= |order|
      invariant Emplaced(result, counts, order, i, n)
    {
      EmplaceStep(result, counts, order, i, n);
      result := result[order[i] := counts[order[i]] / n];
      i := i + 1;
    }
    EmplacedAll(result, counts, order, n);
  }

  /** The first i keys of the order are in `result`, each with its count divided by n. */
  predicate Emplaced<H>(result: map<H, real>, counts: map<H, real>, order: seq<H>, i: nat, n: real)
    requires Enumerates(counts, order) && i <= |order|
  {
    && result.Keys == (set k | 0 <= k < i :: order[k])
    && (forall h | h in result :: n != 0.0 && result[h] == counts[h] / n)
  }

  lemma EmplaceStep<H>(result: map<H, real>, counts: map<H, real>, order: seq<H>, i: nat, n: real)
    requires Enumerates(counts, order) && i < |order| && n != 0.0
    requires Emplaced(result, counts, order, i, n)
    ensures Emplaced(result[order[i] := counts[order[i]] / n], counts, order, i + 1, n)
  {
    var next := result[order[i] := counts[order[i]] / n];
    assert (set k | 0 <= k < i + 1 :: order[k]) == (set k | 0 <= k < i :: order[k]) + {order[i]};
  }

  lemma EmplacedAll<H>(result: map<H, real>, counts: map<H, real>, order: seq<H>, n: real)
    requires Enumerates(counts, order)
    requires |order| > 0 ==> ValueSum(counts, order) != 0.0
    requires n == ValueSum(counts, order)
    requires Emplaced(result, counts, order, |order|, n)
    ensures result == Normalised(counts, order)
  {
    assert result.Keys == counts.Keys by {
      forall h | h in counts
        ensures h in result
      {
        var k :| 0 <= k < |order| && order[k] == h;
      }
    }
  }

  /** Dividing every listed value by n divides their sum by n. */
  lemma {:induction false} ValueSumDivided<H>(m: map<H, real>, d: map<H, real>, keys: seq<H>, n: real)
    requires n != 0.0
    requires forall i | 0 <= i < |keys| :: keys[i] in m && keys[i] in d && d[keys[i]] == m[keys[i]] / n
    ensures ValueSum(d, keys) == ValueSum(m, keys) / n
  {
    if |keys| > 0 {
      ValueSumDivided(m, d, keys[..|keys| - 1], n);
    }
  }

  /** Count-based frequencies sum to 1 whenever the counts do not sum to 0. */
  lemma NormalisedSumsToOne<H>(counts: map<H, real>, order: seq<H>)
    requires Enumerates(counts, order) && |order| > 0
    requires ValueSum(counts, order) != 0.0
    ensures ValueSum(Normalised(counts, order), order) == 1.0
  {
    var n := ValueSum(counts, order);
    ValueSumDivided(counts, Normalised(counts, order), order, n);
    assert n / n == 1.0;
  }

  /** Every count multiplied by c. */
  function Scaled<H>(counts: map<H, real>, c: real): (m: map<H, real>)
    ensures m.Keys == counts.Keys
  {
    map k | k in counts :: c * counts[k]
  }

  /** Scaling every count by c != 0 does not change the frequencies built from them. */
  lemma NormalisedScaleInvariant<H>(counts: map<H, real>, order: seq<H>, c: real)
    requires Enumerates(counts, order) && |order| > 0 && c != 0.0
    requires ValueSum(counts, order) != 0.0
    ensures Enumerates(Scaled(counts, c), order)
    ensures ValueSum(Scaled(counts, c), order) != 0.0
    ensures Normalised(Scaled(counts, c), order) == Normalised(counts, order)
  {
    var s := Scaled(counts, c);
    ValueSumScaled(counts, order, c);
    var n, v := ValueSum(counts, order), ValueSum(s, order);
    NonZeroProduct(c, n);
    forall k | k in counts
      ensures s[k] / v == counts[k] / n
    {
      Ratio(c, counts[k], n, s[k], v);
    }
    SameProportions(s, counts, order);
  }

  /** Two count maps whose values are in the same proportions give the same frequencies. */
  lemma SameProportions<H>(s: map<H, real>, counts: map<H, real>, order: seq<H>)
    requires Enumerates(counts, order) && Enumerates(s, order) && |order| > 0
    requires ValueSum(counts, order) != 0.0 && ValueSum(s, order) != 0.0
    requires forall k | k in counts :: s[k] / ValueSum(s, order) == counts[k] / ValueSum(counts, order)
    ensures Normalised(s, order) == Normalised(counts, order)
  {
  }

  /** Scaling every count by c scales their sum by c. */
  lemma {:induction false} ValueSumScaled<H>(counts: map<H, real>, keys: seq<H>, c: real)
    requires forall i | 0 <= i < |keys| :: keys[i] in counts
    ensures ValueSum(Scaled(counts, c), keys) == c * ValueSum(counts, keys)
  {
    if |keys| > 0 {
      var init, last := keys[..|keys| - 1], keys[|keys| - 1];
      ValueSumScaled(counts, init, c);
      assert c * ValueSum(counts, init) + c * counts[last] == c * (ValueSum(counts, init) + counts[last]);
    }
  }

  lemma NonZeroProduct(c: real, n: real)
    requires c != 0.0 && n != 0.0
    ensures c * n != 0.0
  {
  }

  lemma Ratio(c: real, x: real, n: real, a: real, b: real)
    requires c != 0.0 && n != 0.0 && a == c * x && b == c * n
    ensures a / b == x / n
  {
  }

  // ---------------------------------------------------------------------
  // Prior pseudo-counts

  /**
   * compute_haplotype_prior_counts: empty for no haplotypes; otherwise each
   * haplotype maps to 100 * score(h, ref), ref being the reference over the
   * first haplotype's region. The scores are also normalised into a vector
   * that is then discarded, so the counts are raw scores, not normalised.
   */
  function PriorCounts<H>(haps: seq<H>, referenceOver: H -> H, score: (H, H) -> real): (m: map<H, real>)
    ensures m.Keys == set i | 0 <= i < |haps| :: haps[i]
    ensures forall i | 0 <= i < |haps| :: m[haps[i]] == 100.0 * score(haps[i], referenceOver(haps[0]))
  {
    if |haps| == 0 then map[]
    else
      var reference := referenceOver(haps[0]);
      map h | h in haps :: 100.0 * score(h, reference)
  }

  /**
   * Normalising the scores first, as the discarded vector does, would give the
   * same count-based frequencies: those depend only on the counts' proportions.
   */
  lemma DiscardedNormalisationIsHarmless<H>(haps: seq<H>, referenceOver: H -> H, score: (H, H) -> real,
                                           order: seq<H>, norm: real)
    requires Enumerates(PriorCounts(haps, referenceOver, score), order) && |order| > 0 && norm != 0.0
    requires ValueSum(PriorCounts(haps, referenceOver, score), order) != 0.0
    ensures Enumerates(Scaled(PriorCounts(haps, referenceOver, score), 1.0 / norm), order)
    ensures ValueSum(Scaled(PriorCounts(haps, referenceOver, score), 1.0 / norm), order) != 0.0
    ensures Normalised(Scaled(PriorCounts(haps, referenceOver, score), 1.0 / norm), order)
         == Normalised(PriorCounts(haps, referenceOver, score), order)
  {
    NormalisedScaleInvariant(PriorCounts(haps, referenceOver, score), order, 1.0 / norm);
  }
}
