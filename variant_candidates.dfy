/**
 * Candidate variants read from an external VCF file (section 1.4.1 of the
 * VCF 4.2 specification, REF and ALT fields). Each record contributes one
 * variant per ALT allele; a REF/ALT pair of different lengths loses its longest
 * common prefix, and its position moves past it. The reader is abstracted as two
 * functions of a region: the number of records in it and the records themselves.
 */
module VariantCandidates {

  type Region(==)

  datatype Record = Record(chrom: string, pos: nat, ref: string, alts: seq<string>)

  datatype Variant = Variant(chrom: string, pos: nat, ref: string, alt: string)

  /** The largest number of records a region may hold and still be read. */
  const MaxBatchSize: nat := 10000

  /**
   * get_batch_regions: the region itself is the only batch, unless it holds
   * more than maxBatchSize records, in which case there is no batch at all.
   */
  method GetBatchRegions(region: Region, recordCount: nat, maxBatchSize: nat) returns (batches: seq<Region>)
    ensures |batches| <= 1
    ensures batches == [] <==> recordCount > maxBatchSize
    ensures forall b | b in batches :: b == region
  {
    batches := [];
    if recordCount > maxBatchSize {
    } else {
      batches := batches + [region];
    }
  }

  /**
   * std::mismatch over two ranges: the length of the longest common prefix of
   * a and b.
   */
  function CommonPrefixLength(a: string, b: string): (n: nat)
    ensures n <= |a| && n <= |b|
    ensures a[..n] == b[..n]
    ensures n == |a| || n == |b| || a[n] != b[n]
  {
    if |a| == 0 || |b| == 0 || a[0] != b[0] then 0
    else
      var m := CommonPrefixLength(a[1..], b[1..]);
      assert a[1..][..m] == a[1..m + 1] && b[1..][..m] == b[1..m + 1];
      assert a[..m + 1] == [a[0]] + a[1..m + 1];
      assert b[..m + 1] == [b[0]] + b[1..m + 1];
      1 + m
  }

  /**
   * The variant made from one record and one of its ALT alleles: an equal-length
   * pair is kept whole at the record's position; otherwise the common prefix is
   * dropped and the position advances by its length.
   */
  function Trimmed(r: Record, alt: string): Variant
  {
    if |r.ref| != |alt| then
      var n := CommonPrefixLength(r.ref, alt);
      Variant(r.chrom, r.pos + n, r.ref[n..], alt[n..])
    else
      Variant(r.chrom, r.pos, r.ref, alt)
  }

  /**
   * A trimmed variant keeps the chromosome; an equal-length pair is unchanged;
   * otherwise the position advances past a common prefix of REF and ALT, the new
   * alleles are what follows it, and they do not start with the same character.
   */
  lemma TrimmedAlleles(r: Record, alt: string)
    ensures var v := Trimmed(r, alt);
      && v.chrom == r.chrom
      && (|r.ref| == |alt| ==> v == Variant(r.chrom, r.pos, r.ref, alt))
      && r.pos <= v.pos
      && (var n := v.pos - r.pos;
          n <= |r.ref| && n <= |alt| && r.ref[..n] == alt[..n]
          && v.ref == r.ref[n..] && v.alt == alt[n..])
      && (|r.ref| != |alt| ==> v.ref == [] || v.alt == [] || v.ref[0] != v.alt[0])
  {
  }

  /** The trimmed prefix put back in front of the trimmed alleles gives the record's alleles. */
  lemma TrimmedRestores(r: Record, alt: string)
    ensures var v := Trimmed(r, alt); var prefix := r.ref[..v.pos - r.pos];
      prefix + v.ref == r.ref && prefix + v.alt == alt
  {
    var v := Trimmed(r, alt);
    TrimmedAlleles(r, alt);
    var n := v.pos - r.pos;
    assert r.ref[..n] + r.ref[n..] == r.ref;
    assert alt[..n] + alt[n..] == alt;
  }

  /** The variants of one record for a list of its ALT alleles, in allele order. */
  function AlleleVariants(r: Record, alts: seq<string>): seq<Variant>
  {
    if |alts| == 0 then [] else AlleleVariants(r, alts[..|alts| - 1]) + [Trimmed(r, alts[|alts| - 1])]
  }

  /** The variants of a list of records, in record order and then ALT order. */
  function VariantsOf(records: seq<Record>): seq<Variant>
  {
    if |records| == 0 then []
    else VariantsOf(records[..|records| - 1]) + AlleleVariants(records[|records| - 1], records[|records| - 1].alts)
  }

  /** The number of ALT alleles over a list of records. */
  function AltCount(records: seq<Record>): nat
  {
    if |records| == 0 then 0 else AltCount(records[..|records| - 1]) + |records[|records| - 1].alts|
  }

  lemma {:induction false} AlleleVariantAt(r: Record, alts: seq<string>, j: nat)
    requires j < |alts|
    ensures |AlleleVariants(r, alts)| == |alts|
    ensures AlleleVariants(r, alts)[j] == Trimmed(r, alts[j])
  {
    if j < |alts| - 1 {
      AlleleVariantAt(r, alts[..|alts| - 1], j);
    } else {
      AlleleVariantsLength(r, alts[..|alts| - 1]);
    }
  }

  lemma {:induction false} AlleleVariantsLength(r: Record, alts: seq<string>)
    ensures |AlleleVariants(r, alts)| == |alts|
  {
    if |alts| > 0 {
      AlleleVariantsLength(r, alts[..|alts| - 1]);
    }
  }

  lemma {:induction false} VariantsLength(records: seq<Record>)
    ensures |VariantsOf(records)| == AltCount(records)
  {
    if |records| > 0 {
      var last := records[|records| - 1];
      VariantsLength(records[..|records| - 1]);
      AlleleVariantsLength(last, last.alts);
    }
  }

  lemma {:induction false} VariantAt(records: seq<Record>, i: nat, j: nat)
    requires i < |records| && j < |records[i].alts|
    ensures AltCount(records[..i]) + j < |VariantsOf(records)|
    ensures VariantsOf(records)[AltCount(records[..i]) + j] == Trimmed(records[i], records[i].alts[j])
  {
    var init, last := records[..|records| - 1], records[|records| - 1];
    var front, back := VariantsOf(init), AlleleVariants(last, last.alts);
    assert VariantsOf(records) == front + back;
    VariantsLength(init);
    if i < |records| - 1 {
      InitPrefix(records, i);
      VariantAt(init, i, j);
    } else {
      assert init == records[..i];
      AlleleVariantAt(last, last.alts, j);
    }
  }

  lemma InitPrefix(records: seq<Record>, i: nat)
    requires i < |records| - 1
    ensures records[..|records| - 1][..i] == records[..i]
    ensures records[..|records| - 1][i] == records[i]
  {
  }

  /**
   * One variant per (record, ALT allele) pair, in record order and then ALT
   * order: allele j of record i is at index AltCount(records[..i]) + j.
   */
  lemma VariantsInOrder(records: seq<Record>)
    ensures |VariantsOf(records)| == AltCount(records)
    ensures forall i, j | 0 <= i < |records| && 0 <= j < |records[i].alts| ::
      AltCount(records[..i]) + j < |VariantsOf(records)|
      && VariantsOf(records)[AltCount(records[..i]) + j] == Trimmed(records[i], records[i].alts[j])
  {
    VariantsLength(records);
    forall i, j | 0 <= i < |records| && 0 <= j < |records[i].alts|
      ensures AltCount(records[..i]) + j < |VariantsOf(records)|
      ensures VariantsOf(records)[AltCount(records[..i]) + j] == Trimmed(records[i], records[i].alts[j])
    {
      VariantAt(records, i, j);
    }
  }

  lemma VariantsOfSnoc(records: seq<Record>, i: nat)
    requires i < |records|
    ensures VariantsOf(records[..i + 1]) == VariantsOf(records[..i]) + AlleleVariants(records[i], records[i].alts)
  {
    assert records[..i + 1][..i] == records[..i];
  }

  lemma AlleleVariantsSnoc(r: Record, alts: seq<string>, j: nat)
    requires j < |alts|
    ensures AlleleVariants(r, alts[..j + 1]) == AlleleVariants(r, alts[..j]) + [Trimmed(r, alts[j])]
  {
    assert alts[..j + 1][..j] == alts[..j];
  }

  /** The alleles of `record` before index j have been emitted after `before`. */
  predicate EmittedAlleles(result: seq<Variant>, before: seq<Variant>, record: Record, j: nat)
    requires j <= |record.alts|
  {
    result == before + AlleleVariants(record, record.alts[..j])
  }

  lemma EmitAllele(result: seq<Variant>, before: seq<Variant>, record: Record, j: nat, v: Variant)
    requires j < |record.alts| && EmittedAlleles(result, before, record, j)
    requires v == Trimmed(record, record.alts[j])
    ensures EmittedAlleles(result + [v], before, record, j + 1)
  {
    AlleleVariantsSnoc(record, record.alts, j);
  }

  /** The records before index i have been emitted after `done`. */
  predicate EmittedRecords(result: seq<Variant>, done: seq<Variant>, records: seq<Record>, i: nat)
    requires i <= |records|
  {
    result == done + VariantsOf(records[..i])
  }

  lemma EmitRecord(result: seq<Variant>, before: seq<Variant>, done: seq<Variant>, records: seq<Record>, i: nat)
    requires i < |records| && EmittedRecords(before, done, records, i)
    requires EmittedAlleles(result, before, records[i], |records[i].alts|)
    ensures EmittedRecords(result, done, records, i + 1)
  {
    assert records[i].alts[..|records[i].alts|] == records[i].alts;
    VariantsOfSnoc(records, i);
  }

  lemma EmittedAll(result: seq<Variant>, records: seq<Record>)
    requires EmittedRecords(result, [], records, |records|)
    ensures result == VariantsOf(records)
  {
    assert records[..|records|] == records;
  }

  /**
   * fetch_variants: the variants of every record of every batch of the region.
   * A region holding more than MaxBatchSize records has no batch and so yields
   * no variant.
   */
  method FetchVariants(region: Region, countRecords: Region -> nat, fetchRecords: Region -> seq<Record>)
    returns (result: seq<Variant>)
    ensures countRecords(region) > MaxBatchSize ==> result == []
    ensures countRecords(region) <= MaxBatchSize ==> result == VariantsOf(fetchRecords(region))
  {
    result := [];
    var batches := GetBatchRegions(region, countRecords(region), MaxBatchSize);
    for k := 0 to |batches|
      invariant k == 0 ==> result == []
      invariant k > 0 ==> result == VariantsOf(fetchRecords(region))
    {
      assert batches[k] in batches;
      var records := fetchRecords(batches[k]);
      var done := result;
      for i := 0 to |records|
        invariant EmittedRecords(result, done, records, i)
      {
        var record := records[i];
        var before := result;
        for j := 0 to |record.alts|
          invariant EmittedAlleles(result, before, record, j)
        {
          var alt := record.alts[j];
          var ref := record.ref;
          var v;
          if |ref| != |alt| {
            var n := CommonPrefixLength(ref, alt);
            v := Variant(record.chrom, record.pos + n, ref[n..], alt[n..]);
          } else {
            v := Variant(record.chrom, record.pos, ref, alt);
          }
          EmitAllele(result, before, record, j, v);
          result := result + [v];
        }
        EmitRecord(result, before, done, records, i);
      }
      EmittedAll(result, records);
    }
  }
}
