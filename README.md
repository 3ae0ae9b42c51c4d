# octopus core in Dafny

A model of the core of the octopus germline/somatic variant caller. It covers:

- **Genotype likelihood** (`GermlineLikelihood`): the per-ploidy, per-zygosity fast paths of
  `GermlineLikelihoodModel::evaluate`, compared with the general formula. The general formula
  weights each distinct haplotype by std::log of its copy number, takes log-sum-exp over them
  for each read, subtracts the table's ln(ploidy), and sums over the reads.
- **Hardy-Weinberg genotype prior** (`GenotypePrior`): `log_hardy_weinberg` with its helpers,
  both `init_haplotype_frequencies` overloads, and `compute_haplotype_prior_counts`.
- **CIGAR strings** (`Cigar`), the operation list of the SAMv1 format (section 1.4, field 6):
  - the flag predicates;
  - the parser and printer;
  - validity, minimality and soft-clip sizes;
  - run-length expansion (`decompose`) and merging of match runs (`collapse_matches`);
  - the offset/size sub-copy guided by predicates.
- **Sequence utilities** (`SequenceUtils`): the complement table, in-place reverse complement,
  palindromes, the DNA/RNA alphabet checks, transcription, capitalisation, base counting, and
  the collapsing of runs of N.
- **External variant candidates** (`VariantCandidates`): the batch rule and the REF/ALT
  prefix trimming applied to VCF records (section 1.4.1 of the VCF 4.2 specification).
- **Option parsing** (`Options`): the enum and `ContigPloidy` token readers and writers, and
  the validation checks that `validate` chains.

Shared modules:

- `Multiplicity`: counts and distinct values of a sequence (`Genotype::count`, `get_unique`).
- `Decimal`: decimal digit strings.
- `Maths`: sums, and the uninterpreted `log`, `log_sum_exp` and `log_multinomial_coefficient`
  passed as a record of functions.
- `Outcome`: `Result` and `Option`.

Thrown exceptions are modelled as `Err` values.

Operations the source writes as loops over mutable state are methods. Each is proved equal to
a specification function, and the functions carry the lemmas:

- `AllCopiesLoop`, `HardyWeinbergLoop`, `InitUniform`, `InitFromCounts`;
- `ParseCigar`, `Decompose`, `CollapseMatches`, `Copy`;
- `ReverseComplement` and `Capitalise`, which work in place on an `array<char>`;
- `IsPalindromic`, `CountBases`, `CollapseNs`;
- `GetBatchRegions`, `FetchVariants`;
- `CheckNumbers`, `Validate`.

## Model

| member | source | states |
|---|---|---|
| GermlineLikelihood.Evaluate | src/core/models/genotype/germline_likelihood_model.cpp:25-44 | no contract of its own; dispatches on ploidy 0, 1, 2, 3 and above; EvaluateEmpty, HomozygousIsPlainSum, DiploidHeterozygous, TriploidAgreesWithGeneral, PolyploidSingletonAgreesWithGeneral and PolyploidManyAgreesWithGeneral state its value |
| GermlineLikelihood.EvaluateHaploid | src/core/models/genotype/germline_likelihood_model.cpp:71-75 | no contract of its own; the sum of the one haplotype's per-read values, which HomozygousAgreesWithGeneral equates with the general formula |
| GermlineLikelihood.EvaluateDiploid | src/core/models/genotype/germline_likelihood_model.cpp:77-89 | no contract of its own; plain sum when homozygous, else per read lse(a, b) - ln 2; DiploidHeterozygous equates it with the general formula |
| GermlineLikelihood.EvaluateTriploid | src/core/models/genotype/germline_likelihood_model.cpp:91-123 | no contract of its own; the three zygosity cases as written, equated with the general formula by TriploidAgreesWithGeneral |
| GermlineLikelihood.EvaluateTetraploid | src/core/models/genotype/germline_likelihood_model.cpp:125-147 | no contract of its own; sums for zygosity 1, lse of four copies for zygosity 4, and 0 otherwise, as TetraploidFastPath states |
| GermlineLikelihood.EvaluatePolyploid | src/core/models/genotype/germline_likelihood_model.cpp:149-199 | no contract of its own; the zygosity 1, 2 and 3+ branches as written, compared with the general formula by PolyploidSingletonAgreesWithGeneral, PolyploidTwoByTwo and PolyploidManyAgreesWithGeneral |
| GermlineLikelihood.AllCopies | src/core/models/genotype/germline_likelihood_model.cpp:177-198 | no contract of its own; the sum over reads of lse over every copy minus ln(ploidy); AllCopiesLoop computes it and AllCopiesAgreesWithGeneral equates it with the general formula |
| GermlineLikelihood.LnTable | src/core/models/genotype/germline_likelihood_model.cpp:50-67 | the ln table is +infinity exactly at 0 and 0 at 1 |
| GermlineLikelihood.LnTableIncreasing | src/core/models/genotype/germline_likelihood_model.cpp:50-67 | the finite table entries strictly increase, as ln does |
| GermlineLikelihood.EvaluateEmpty | src/core/models/genotype/germline_likelihood_model.cpp:25-31 | a ploidy-0 genotype evaluates to 0 whatever the cache holds |
| GermlineLikelihood.HomozygousIsPlainSum | src/core/models/genotype/germline_likelihood_model.cpp:25-44 | a homozygous genotype of any ploidy evaluates to the plain sum of its haplotype's per-read values, with no ln(ploidy) term |
| GermlineLikelihood.HomozygousAgreesWithGeneral | src/core/models/genotype/germline_likelihood_model.cpp:71-82 | the homozygous shortcut equals the general formula, given that lse of one value is that value and that std::log agrees with the table at the ploidy |
| GermlineLikelihood.DiploidHeterozygous | src/core/models/genotype/germline_likelihood_model.cpp:77-89 | a heterozygous diploid gives the sum over reads of lse(a_i, b_i) - ln 2, which is the general formula |
| GermlineLikelihood.TriploidTwoDistinct | src/core/models/genotype/germline_likelihood_model.cpp:108-122 | with equal copies adjacent, the triploid branch's ln 2 goes on the haplotype that occurs twice |
| GermlineLikelihood.TriploidAgreesWithGeneral | src/core/models/genotype/germline_likelihood_model.cpp:91-123 | every heterozygous triploid with equal copies adjacent evaluates to the general formula, given that std::log agrees with the table at 1 and 2 (the code's ln<>(2) weight) |
| GermlineLikelihood.GeneralTriploidDistinct | src/core/models/genotype/germline_likelihood_model.cpp:99-107 | with three distinct haplotypes the general formula is the sum of lse(a_i, b_i, c_i) - ln 3 |
| GermlineLikelihood.GeneralZygosityTwo | src/core/models/genotype/germline_likelihood_model.cpp:158-175 | with two distinct haplotypes the general formula weights each by std::log of its own count |
| GermlineLikelihood.TetraploidFastPath | src/core/models/genotype/germline_likelihood_model.cpp:125-147 | evaluate_tetraploid agrees with evaluate and with the general formula for zygosity 1 and 4 and returns 0 for zygosity 2 and 3 |
| GermlineLikelihood.QuadsAreCopies | src/core/models/genotype/germline_likelihood_model.cpp:133-141 | the tetraploid zygosity-4 fold equals the all-copies loop |
| GermlineLikelihood.AllCopiesLoop | src/core/models/genotype/germline_likelihood_model.cpp:177-198 | the zygosity >= 3 loop adds, per read, lse over every copy minus ln(ploidy) |
| GermlineLikelihood.AllCopiesDistinct | src/core/models/genotype/germline_likelihood_model.cpp:177-198 | when all copies are distinct the all-copies loop is the general formula |
| GermlineLikelihood.CopiesMergeIntoWeights | src/core/models/genotype/germline_likelihood_model.cpp:188-196 | given that log-sum-exp ignores term order and merges log k + a with a into log(k+1) + a (std::log, with log 1 = 0), lse over every copy of a read equals lse over the distinct haplotypes weighted by the log of their counts, whatever terms follow |
| GermlineLikelihood.AllCopiesAgreesWithGeneral | src/core/models/genotype/germline_likelihood_model.cpp:177-198 | under the same hypotheses, which MergeHypothesesSatisfiable shows can hold together with lse of one value being that value, the all-copies loop equals the general formula for every genotype of ploidy 1 to 10, repeated copies included |
| GermlineLikelihood.PolyploidManyAgreesWithGeneral | src/core/models/genotype/germline_likelihood_model.cpp:149-199 | under the same hypotheses, evaluate equals the general formula for ploidy 4 to 10 with at least three distinct haplotypes |
| GermlineLikelihood.PolyploidSingletonAgreesWithGeneral | src/core/models/genotype/germline_likelihood_model.cpp:158-175 | for ploidy 4 to 10 with counts {1, ploidy-1} the zygosity-2 branch, weighting by std::log(ploidy - 1), equals the general formula, given log 1 = 0 |
| GermlineLikelihood.PolyploidTwoByTwo | src/core/models/genotype/germline_likelihood_model.cpp:158-175 | for [x, x, y, y] the code weights x by log 3 and y by 0, while the general formula weights both by log 2, and log 3 differs from log 2 |
| GermlineLikelihood.PolyploidCorrectedAgreesWithGeneral | src/core/models/genotype/germline_likelihood_model.cpp:158-175 | the zygosity-2 branch weighted by std::log of each haplotype's own count equals the general formula |
| Multiplicity.MultiplicitiesSumToLength | src/genotype_model.hpp:98-102 | the occurrence counts of the distinct haplotypes add up to the ploidy |
| Multiplicity.HomozygousIffZygosityOne | src/core/models/genotype/germline_likelihood_model.cpp:151-157 | a genotype is homozygous exactly when it has one distinct haplotype |
| Multiplicity.UniqueIsSelf | src/core/models/genotype/germline_likelihood_model.cpp:99-107 | the distinct haplotypes are the genotype itself exactly when no haplotype repeats |
| Multiplicity.TwoDistinct | src/core/models/genotype/germline_likelihood_model.cpp:158-175 | with two distinct haplotypes the first is genotype[0] and the two counts add up to the ploidy |
| GenotypePrior.HardyWeinbergHaploid | src/genotype_model.hpp:41-46 | no contract of its own; ln f(h) of the one haplotype, or the lookup error; ClosedFormsAreMultinomial equates it with the multinomial form |
| GenotypePrior.HardyWeinbergDiploid | src/genotype_model.hpp:48-59 | no contract of its own; 2 ln f(h) when homozygous, else ln 2 + ln f(a) + ln f(b); ClosedFormsAreMultinomial and HeterozygousDiploidMultinomial state its value |
| GenotypePrior.Uniform | src/genotype_model.hpp:120-132 | the keys are exactly the input haplotypes; InitUniform and UniformSumsToOneIffDistinct state the values |
| GenotypePrior.Normalised | src/genotype_model.hpp:134-146 | the keys are the keys of the counts; NormalisedSumsToOne and NormalisedScaleInvariant state the values |
| GenotypePrior.LogHardyWeinberg | src/genotype_model.hpp:110-118 | the prior is defined exactly when every haplotype of the genotype has a frequency; otherwise `.at` throws |
| GenotypePrior.HardyWeinbergPolyploid | src/genotype_model.hpp:88-105 | the multinomial form is defined exactly when every haplotype has a frequency |
| GenotypePrior.HardyWeinbergLoop | src/genotype_model.hpp:91-104 | the loop pushes each distinct haplotype's count and adds count * ln f, then adds the log multinomial coefficient |
| GenotypePrior.LookupFails | src/genotype_model.hpp:101 | a distinct haplotype missing from the frequencies makes the prior fail |
| GenotypePrior.HomozygousPrior | src/genotype_model.hpp:41-59 | a homozygous genotype of ploidy p gets p * ln f(h) |
| GenotypePrior.ClosedFormsAreMultinomial | src/genotype_model.hpp:41-59 | the haploid and diploid closed forms equal the multinomial form |
| GenotypePrior.HeterozygousDiploidMultinomial | src/genotype_model.hpp:54-58 | for a heterozygous diploid the multinomial form is ln(2!/(1!1!)) + ln f(a) + ln f(b) |
| GenotypePrior.InitUniform | src/genotype_model.hpp:120-132 | the loop maps every input haplotype to 1/n, n counting duplicates; empty input gives an empty map |
| GenotypePrior.UniformSumsToOneIffDistinct | src/genotype_model.hpp:120-132 | the uniform frequencies sum to 1 exactly when no haplotype is repeated |
| GenotypePrior.InitFromCounts | src/genotype_model.hpp:134-146 | each key maps to its count over the sum of the counts, and the key set is kept |
| GenotypePrior.NormalisedSumsToOne | src/genotype_model.hpp:134-146 | the count-based frequencies sum to 1 when the counts do not sum to 0 |
| GenotypePrior.NormalisedScaleInvariant | src/genotype_model.hpp:134-146 | scaling every count by a non-zero constant leaves the frequencies unchanged |
| GenotypePrior.PriorCounts | src/genotype_model.hpp:148-184 | empty input gives an empty map; otherwise each haplotype maps to 100 * score against the reference over the first haplotype's region |
| GenotypePrior.DiscardedNormalisationIsHarmless | src/genotype_model.hpp:160-184 | normalising the scores first, as the discarded vector does, would not change the frequencies built from the counts |
| Cigar.IsValidFlag | src/basics/cigar_string.cpp:35-50 | no contract of its own; the nine SAM operation characters MIDNSHP=X |
| Cigar.IsValidOp | src/basics/cigar_string.cpp:52-55 | no contract of its own; a valid flag and a positive size |
| Cigar.AdvancesReference | src/basics/cigar_string.cpp:57-66 | no contract of its own; AdvanceTable states for which flags it holds |
| Cigar.AdvancesSequence | src/basics/cigar_string.cpp:68-77 | no contract of its own; AdvanceTable states for which flags it holds |
| Cigar.IsMatch | src/basics/cigar_string.cpp:79-93 | no contract of its own; M, = or X; FlagClasses relates it to the other classes |
| Cigar.IsIndel | src/basics/cigar_string.cpp:95-104 | no contract of its own; I or D; FlagClasses relates it to the other classes |
| Cigar.IsClipping | src/basics/cigar_string.cpp:106-115 | no contract of its own; S or H; FlagClasses relates it to the other classes |
| Cigar.Parse | src/basics/cigar_string.cpp:119-143 | no contract of its own; ParseCigar computes it, and ParseDigitsThenFlag, ParsePrint and ValidParsePrint state what it reads |
| Cigar.Print | src/basics/cigar_string.cpp:324-340 | no contract of its own; size then flag for each operation; ParsePrint and ValidParsePrint show that parsing undoes it |
| Cigar.IsValid | src/basics/cigar_string.cpp:145-149 | no contract of its own; non-empty, and every operation has a valid flag and a positive size; ValidParsePrint and ValidSoftClipped hold for every such CIGAR |
| Cigar.IsMinimal | src/basics/cigar_string.cpp:151-157 | no contract of its own; no two adjacent operations share a flag; MinimalDecomposeInjective shows it makes decompose injective |
| Cigar.SoftClippedSizes | src/basics/cigar_string.cpp:159-179 | no contract of its own; SoftClippedSizesBounds and ValidSoftClipped state its bounds and its link to is_soft_clipped |
| Cigar.Expand | src/basics/cigar_string.cpp:287-295 | no contract of its own; Decompose computes it and ExpandAppend shows it distributes over concatenation |
| Cigar.Collapse | src/basics/cigar_string.cpp:297-312 | never longer than its input, and the first operation keeps its match class; CollapseShape, CollapseExpand and CollapseKeepsNonMatches state the rest |
| Cigar.CopyOps | src/basics/cigar_string.cpp:186-220 | no contract of its own; Copy computes it, and CopyCounted, CopyBothIsWindow, CopyZeroSize and FillVerbatim state what it keeps |
| Cigar.FlagClasses | src/basics/cigar_string.cpp:79-115 | every valid flag is exactly one of match, indel, clipping, or N/P |
| Cigar.AdvanceTable | src/basics/cigar_string.cpp:57-77 | advances_reference fails exactly for I, H and P; advances_sequence fails exactly for D and H |
| Cigar.SameOpIsEquality | src/basics/cigar_string.cpp:314-317 | operation equality compares size and flag |
| Cigar.LessIsStrictTotalOrder | src/basics/cigar_string.cpp:319-322 | the operation ordering is a strict total order |
| Cigar.ParseCigar | src/basics/cigar_string.cpp:119-143 | the loop computes the parse function: digits accumulate, each non-digit closes one operation, and trailing digits fail |
| Cigar.ParseDigitsThenFlag | src/basics/cigar_string.cpp:126-134 | a run of digits followed by a flag yields one operation of that decimal size, before the rest |
| Cigar.ParsePrint | src/basics/cigar_string.cpp:324-340 | parsing the printed form gives back the operations when no flag is a digit |
| Cigar.ValidParsePrint | src/basics/cigar_string.cpp:145-149 | every valid CIGAR survives printing and parsing |
| Cigar.SoftClippedSizesBounds | src/basics/cigar_string.cpp:159-179 | the clipped sizes are bounded by the total; a single S counts on both sides |
| Cigar.ValidSoftClipped | src/basics/cigar_string.cpp:159-179 | a valid CIGAR is soft-clipped exactly when a clipped size is non-zero |
| Cigar.Decompose | src/basics/cigar_string.cpp:287-295 | the flags are each operation's flag repeated size times, in order; their number is the total size |
| Cigar.ExpandAppend | src/basics/cigar_string.cpp:287-295 | decompose distributes over concatenation |
| Cigar.MinimalDecomposeInjective | src/basics/cigar_string.cpp:151-157 | two minimal CIGARs with positive sizes and the same decomposition are equal |
| Cigar.CollapseMatches | src/basics/cigar_string.cpp:297-312 | the loop computes the collapse function |
| Cigar.CollapseShape | src/basics/cigar_string.cpp:297-312 | after collapsing no two adjacent operations are matches, and every match is M |
| Cigar.CollapseExpand | src/basics/cigar_string.cpp:297-312 | collapsing only renames =/X to M in the decomposition and keeps the total size |
| Cigar.CollapseKeepsNonMatches | src/basics/cigar_string.cpp:297-312 | every non-match operation is kept, in order |
| Cigar.Copy | src/basics/cigar_string.cpp:186-220 | the loop computes the copy function: skip whole operations while offset allows, cut the first, then fill up to size |
| Cigar.CopyReference | src/basics/cigar_string.cpp:277-280 | copy_reference is copy with the advances-reference predicate for both phases |
| Cigar.CopySequence | src/basics/cigar_string.cpp:282-285 | copy_sequence is copy with the advances-sequence predicate for both phases |
| Cigar.CopyBothIsWindow | src/basics/cigar_string.cpp:262-275 | with the "both" policy the copy decomposes to the window [o, min(o + s, total)) of the decomposition |
| Cigar.CopyZeroSize | src/basics/cigar_string.cpp:193-218 | a size-0 copy inside the CIGAR yields one zero-size operation |
| Cigar.CopyCounted | src/basics/cigar_string.cpp:186-220 | under a predicate the copied counted size is min(s, counted total - o), or 0 past the end |
| Cigar.FillVerbatim | src/basics/cigar_string.cpp:205-218 | operations failing the predicate are copied whole; only the last copied operation may be cut |
| SequenceUtils.Complement | src/sequence_utils.h:101-116 | no contract of its own; the 128-entry table; ComplementInvolution, ComplementKnown and ComplementIgnoresCase state it |
| SequenceUtils.ReverseComplemented | src/sequence_utils.h:118-135 | keeps the length; ReverseComplement computes it in place and ReverseComplementInvolution shows it undoes itself over ACGTN |
| SequenceUtils.Palindromic | src/sequence_utils.h:137-147 | no contract of its own; IsPalindromic decides it and PalindromicIffOwnReverseComplement characterises it |
| SequenceUtils.IsDna | src/sequence_utils.h:39-43 | no contract of its own; every character is one of ACGTN |
| SequenceUtils.IsRna | src/sequence_utils.h:45-49 | no contract of its own; every character is one of ACGUN |
| SequenceUtils.IsDnaRnaAmbiguousAsWritten | src/sequence_utils.h:51-55 | no contract of its own; the check as written, which AmbiguousAsWrittenIsNegation and AmbiguousAsWrittenCounterexample compare with its meaning |
| SequenceUtils.Transcribe | src/sequence_utils.h:57-62 | keeps the length; TranscriptionRoundTrips and TranscriptionAlphabets state what it does |
| SequenceUtils.ReverseTranscribe | src/sequence_utils.h:64-69 | keeps the length; TranscriptionRoundTrips and TranscriptionAlphabets state what it does |
| SequenceUtils.Capitalised | src/sequence_utils.h:77-91 | keeps the length; Capitalise computes it in place and CapitaliseProperties states what it changes |
| SequenceUtils.Squeeze | src/sequence_utils.h:187-191 | the collapsed sequence is shorter by the number of NN pairs and ends with the input's last character; SqueezeLeavesNoPair and SqueezeKeepsNonNs state the rest |
| SequenceUtils.Shifts | src/sequence_utils.h:167-186 | no contract of its own; the shift map at corrected positions, which ShiftsLocateNs, ShiftsCoverRuns, ShiftsIncrease, ShiftsLastIsRemoved and ShiftsEmptyIff describe |
| SequenceUtils.ShiftsAsWritten | src/sequence_utils.h:167-186 | no contract of its own; the shift map as written, which ShiftsAsWrittenCounterexample shows misplaces the second run |
| SequenceUtils.ComplementInvolution | src/sequence_utils.h:101-116 | complement maps ACGTN to ACGTN and is its own inverse there |
| SequenceUtils.ComplementKnown | src/sequence_utils.h:101-116 | a 7-bit character has a base complement exactly when it is one of ACGTNU or acgtu |
| SequenceUtils.ComplementIgnoresCase | src/sequence_utils.h:101-116 | a lower-case base complements like its upper-case form |
| SequenceUtils.ReverseComplement | src/sequence_utils.h:118-135 | the in-place two-pointer swap leaves out[i] = complement(in[n-1-i]) for non-empty input |
| SequenceUtils.ReverseComplementInvolution | src/sequence_utils.h:118-135 | reverse complementing twice is the identity over ACGTN |
| SequenceUtils.IsPalindromic | src/sequence_utils.h:137-147 | the loop decides the palindrome predicate: non-empty, even length, s[i] = complement(s[n-1-i]) |
| SequenceUtils.PalindromicIffOwnReverseComplement | src/sequence_utils.h:137-147 | over ACGTN a sequence is palindromic exactly when it is non-empty, even and its own reverse complement |
| SequenceUtils.DnaRnaAmbiguousIff | src/sequence_utils.h:39-55 | being both DNA and RNA means every character is in ACGN |
| SequenceUtils.AmbiguousAsWrittenIsNegation | src/sequence_utils.h:51-55 | over DNA or RNA input, is_dna_rna_ambiguous as written is the negation of its documented meaning |
| SequenceUtils.AmbiguousAsWrittenCounterexample | src/sequence_utils.h:51-55 | "ACG" is both DNA and RNA, yet is_dna_rna_ambiguous as written is false for it |
| SequenceUtils.TranscriptionRoundTrips | src/sequence_utils.h:57-69 | reverse_transcribe undoes transcribe on input without U, and the converse without T |
| SequenceUtils.TranscriptionAlphabets | src/sequence_utils.h:57-69 | transcribing DNA gives RNA and reverse transcribing RNA gives DNA |
| SequenceUtils.Capitalise | src/sequence_utils.h:77-91 | the in-place transform leaves the capitalised sequence |
| SequenceUtils.CapitaliseProperties | src/sequence_utils.h:77-91 | no lower-case base remains, every other character is unchanged, and capitalising is idempotent |
| SequenceUtils.CountBases | src/sequence_utils.h:149-160 | the keys are exactly the characters present and each maps to its number of occurrences |
| SequenceUtils.BaseCountsSumToLength | src/sequence_utils.h:149-160 | the counts add up to the length |
| SequenceUtils.CollapseNs | src/sequence_utils.h:167-196 | the loop builds the shift map and the erase leaves the sequence with each run of N squeezed to one N |
| SequenceUtils.SqueezeLeavesNoPair | src/sequence_utils.h:187-191 | afterwards no two adjacent characters are both N |
| SequenceUtils.SqueezeKeepsNonNs | src/sequence_utils.h:187-191 | the non-N characters keep their order |
| SequenceUtils.ShiftsLocateNs | src/sequence_utils.h:165-186 | each key is the position of an N in the collapsed sequence, and its value is the number of Ns removed up to the first non-N base past it |
| SequenceUtils.ShiftsCoverRuns | src/sequence_utils.h:164-186 | every run of two or more Ns has a key: its first position less the Ns removed before it, with the Ns removed up to the run's end as value |
| SequenceUtils.ShiftsIncrease | src/sequence_utils.h:175-186 | values increase with keys |
| SequenceUtils.ShiftsLastIsRemoved | src/sequence_utils.h:175-191 | the value at the last key is the number of characters removed |
| SequenceUtils.ShiftsEmptyIff | src/sequence_utils.h:175-186 | the map is empty exactly when the input has no NN |
| SequenceUtils.ShiftsAsWrittenCounterexample | src/sequence_utils.h:181-182 | for "ANNANNA" the position as written puts the second run at 2, where the collapsed "ANANA" has an A; the N is at 3 |
| VariantCandidates.Trimmed | src/external_variant_candidates.cpp:62-77 | no contract of its own; TrimmedAlleles and TrimmedRestores state what the trimming keeps and drops |
| VariantCandidates.VariantsOf | src/external_variant_candidates.cpp:58-81 | no contract of its own; VariantsInOrder states its order and FetchVariants computes it |
| VariantCandidates.GetBatchRegions | src/external_variant_candidates.cpp:35-47 | the region is the only batch, and there is none when it holds more than the maximum number of records |
| VariantCandidates.CommonPrefixLength | src/external_variant_candidates.cpp:64-65 | the mismatch point is the length of the longest common prefix |
| VariantCandidates.TrimmedAlleles | src/external_variant_candidates.cpp:62-77 | equal-length pairs are kept; otherwise the common prefix is dropped, the position advances by its length, and the new alleles are suffixes that are empty or start differently |
| VariantCandidates.TrimmedRestores | src/external_variant_candidates.cpp:62-74 | the dropped prefix put back in front gives the original REF and ALT |
| VariantCandidates.VariantsInOrder | src/external_variant_candidates.cpp:58-81 | one variant per record and ALT allele, in record order and then ALT order |
| VariantCandidates.FetchVariants | src/external_variant_candidates.cpp:49-84 | a region over 10000 records yields nothing; otherwise the result is the trimmed variants of its records, in order |
| Options.PrintRefCallType | src/config/option_parser.cpp:876-887 | no contract of its own; ParseRefCallType and RefCallTypeRoundTrip show the reader accepts what it prints |
| Options.PrintPhasingLevel | src/config/option_parser.cpp:955-969 | no contract of its own; PhasingLevelRoundTrip shows every printed level reads back |
| Options.PrintContigOutputOrderAsWritten | src/config/option_parser.cpp:912-938 | no contract of its own; ContigOutputOrderAsWritten shows two of its names are rejected by the reader |
| Options.CheckRegionFilesAsWritten | src/config/option_parser.cpp:749-759 | no contract of its own; RegionFilesAsWrittenAlwaysFails shows it fails whenever both files are given |
| Options.ParseRefCallType | src/config/option_parser.cpp:863-874 | an accepted token is the printed name of the result; anything else is an invalid value for refcalls |
| Options.RefCallTypeRoundTrip | src/config/option_parser.cpp:863-887 | positional and blocked read back as themselves |
| Options.ParsePhasingLevel | src/config/option_parser.cpp:940-953 | the accepted tokens are exactly minimal, conservative and aggressive; anything else is an invalid phasing-level |
| Options.PhasingLevelRoundTrip | src/config/option_parser.cpp:940-969 | every phasing level reads back as itself |
| Options.ParseContigOutputOrder | src/config/option_parser.cpp:889-910 | an accepted token is the corrected name of the result; anything else is an invalid contig-output-order |
| Options.ContigOutputOrderAsWritten | src/config/option_parser.cpp:889-938 | five orders round-trip; asInReferenceIndex and asInReferenceIndexReversed print names the reader rejects |
| Options.ContigOutputOrderRoundTrip | src/config/option_parser.cpp:889-938 | with the printer using the reader's names, every order reads back as itself |
| Options.ContigPloidyParts | src/config/option_parser.cpp:834-854 | a token splits as [sample:]contig=digits, with the sample before the first ':' and a non-empty contig free of '=' |
| Options.ReadContigPloidy | src/config/option_parser.cpp:834-854 | the token is rejected exactly when it does not split; an accepted token's contig is the text between ':' and '=', its ploidy the decimal value of the digits, and its sample the text before ':' when that is non-empty, the previous sample otherwise |
| Options.ContigPloidyWriteBack | src/config/option_parser.cpp:834-861 | a token `sample:contig=N` with a non-empty sample and no leading zero in N is read and written back unchanged |
| Options.WriteContigPloidy | src/config/option_parser.cpp:856-861 | no contract of its own; writes `sample:` when there is a sample, then `contig=ploidy`; ContigPloidyRoundTrip and ContigPloidyWriteBack relate it to the reader |
| Options.ContigPloidyRoundTrip | src/config/option_parser.cpp:834-861 | writing then reading gives back the contig ploidy when the sample has no ':' and the contig has no ':' or '=' |
| Options.CheckPositive | src/config/option_parser.cpp:707-715 | fails exactly when the option is present and below 0, naming the option and value |
| Options.CheckStrictlyPositive | src/config/option_parser.cpp:717-725 | fails exactly when the option is present and below 1 |
| Options.ConflictingOptions | src/config/option_parser.cpp:727-732 | fails exactly when both options are present and neither is defaulted |
| Options.ConflictingSymmetric | src/config/option_parser.cpp:727-732 | the conflict check does not depend on the order of the two options |
| Options.OptionDependency | src/config/option_parser.cpp:734-740 | fails exactly when the given option is set and not defaulted while the dependent one is absent or defaulted |
| Options.CheckReadsPresent | src/config/option_parser.cpp:742-747 | passes exactly when reads or reads-file is present |
| Options.RegionFilesAsWrittenAlwaysFails | src/config/option_parser.cpp:749-759 | with both region files given as paths, reading them as strings throws bad_any_cast |
| Options.CheckRegionFiles | src/config/option_parser.cpp:749-759 | passes exactly when the two region files are not both given, or are two different paths |
| Options.CheckTrioConsistent | src/config/option_parser.cpp:761-768 | passes exactly when the caller is a string and, for the trio caller, both the maternal and the paternal sample are present; an absent caller fails, as the unguarded read throws |
| Options.ValidateCaller | src/config/option_parser.cpp:770-782 | accepts only individual, population, cancer and trio |
| Options.CheckNumbers | src/config/option_parser.cpp:822-827 | the loop stops at the first option that fails its bound |
| Options.FirstFailureOkIff | src/config/option_parser.cpp:822-827 | the loop passes exactly when every listed option meets its bound |
| Options.Validate | src/config/option_parser.cpp:807-832 | validate passes exactly when every check passes, and otherwise reports the first failure in source order |
| Decimal.ValueShow | src/basics/cigar_string.cpp:330-334 | the decimal printing of a size reads back as that size |
| Decimal.ShowValue | src/config/option_parser.cpp:847-859 | a run of digits without a leading zero, read as a number and printed, gives the same digits |

## Left out

- Floating point:
  - real log, exp and log-sum-exp are uninterpreted fields of `Maths.LogOps`;
  - the facts lemmas need about them are hypotheses (`LseSingleton`, `LogMatchesTable`, and
    `LseOrderFree` and `LseMergesCopies` for the all-copies branch);
  - the general formula weights copies by `ops.log` (std::log), never by the rounded table,
    whose entries are not exactly additive (Ln(2) + Ln(2) differs from Ln(4)); a lemma relating a
    fast path that uses a table entry as a weight (ln<>(2) in the triploid branch) or as the
    homozygous normaliser assumes `LogMatchesTable` at that entry only, and the lemmas that
    assume `LseMergesCopies` assume `LogMatchesTable` at 1 alone;
  - `MergeHypothesesSatisfiable` exhibits a choice of log and log-sum-exp (log constantly 0,
    log-sum-exp the largest term) meeting `LseSingleton`, `LseOrderFree`, `LseMergesCopies` and
    log 1 = 0 together, so the lemmas assuming them are not vacuous;
  - values are reals, with no rounding.
- GermlineLikelihood.Evaluate: needs ploidy <= 10 unless the genotype is homozygous, because `ln<>(n)` reads past its 11-entry table for larger n. That read is undefined behaviour, not a value to model.
- GermlineLikelihood.AllCopiesLoop: the read count comes from the first haplotype's vector, as in the code. The cache is assumed to give every haplotype vectors of that length (`Ready`).
- GenotypePrior.InitFromCounts: requires the counts not to sum to 0. The code then divides by zero, which gives floating-point infinities or NaN that reals do not model.
- GenotypePrior.InitFromCounts: the iteration order of `std::unordered_map` is a parameter (`order`, a duplicate-free enumeration of the keys). Keys are distinct, so the result does not depend on it.
- GenotypePrior.PriorCounts: the reference genome and `HaplotypePriorModel::evaluate` are function parameters. The normalised vector `p`, which the code computes and discards, is covered only by `DiscardedNormalisationIsHarmless`.
- The commented-out Dirichlet and debug blocks of genotype_model.hpp are not part of this model.
- Cigar.ParseCigar: sizes are unbounded naturals. The model does not capture the `CigarOperation::Size` width or the `lexical_cast` overflow.
- Cigar: `CigarHash` (boost hashing) and the stream output of a single flag are not part of this model.
- SequenceUtils.ReverseComplement: the model covers 7-bit characters only, since the complement table has 128 entries.
- SequenceUtils.IsPalindromic: the model covers 7-bit characters only, since the complement table has 128 entries.
- SequenceUtils.CollapseNs: works on a value sequence and returns the collapsed copy; the in-place `erase` is not modelled.
- SequenceUtils.CollapseNs: builds the map at the corrected positions (see Findings).
- Sequence utilities not modelled:
  - `find_exact_tandem_repeats` and `detail::rebase` depend on `Tandem::find_maximal_repetitions`, which is not part of this model;
  - `has_ns` passes a character as a predicate and has no meaning to model;
  - `randomise_ns` and `has_mixed_case` are stubs;
  - `gc_bias` is a floating-point ratio.
- VariantCandidates.FetchVariants:
  - `VcfReader::count_records` and `fetch_records` are function parameters;
  - `result.reserve` is only a capacity hint;
  - positions are unbounded, with no `SizeType` overflow.
- Options.ReadContigPloidy: the input is one token, not a stream (`in >> token`), and the ploidy is an unbounded natural, with no `lexical_cast` overflow.
- Options: the boost `variables_map` is a `map<string, Setting>`; `as<T>` on a value of the wrong type is `BadCast`.
- Options.Validate: uses the corrected `CheckRegionFiles` (see Findings).
- Not part of this model:
  - `parse_options` (program_options setup, help and version);
  - path resolution against the working directory;
  - config-file reading;
  - exception translation in `run`.

## Findings

| source | as written | input that shows it | evidently intended | confidence | as-written member | corrected member |
|---|---|---|---|---|---|---|
| src/core/models/genotype/germline_likelihood_model.cpp:158-175 | for zygosity 2, ln(ploidy-1) goes on one haplotype and 0 on the other | genotype [x, x, y, y]: x gets ln 3 and y gets 0 | each haplotype weighted by the log of its own count (ln 2 and ln 2) | not executed | GermlineLikelihood.PolyploidTwoByTwo | GermlineLikelihood.PolyploidCorrectedAgreesWithGeneral |
| src/sequence_utils.h:181-182 | `position` advances by the gap from the end of the last run, forgetting the N each earlier run keeps | "ANNANNA": map {1: 1, 2: 2}, while the collapsed "ANANA" has its Ns at 1 and 3 | each key is an N position in the collapsed sequence | not executed | SequenceUtils.ShiftsAsWrittenCounterexample | SequenceUtils.ShiftsLocateNs |
| src/config/option_parser.cpp:912-938 | asInReferenceIndex prints "asInReferenceIndex" and its reversed form "asInReferenceIndexReversed" | the default contig-output-order written out and read back is rejected | print the names the reader accepts, "asInReference" and "asInReferenceReversed" | not executed | Options.ContigOutputOrderAsWritten | Options.ContigOutputOrderRoundTrip |
| src/config/option_parser.cpp:749-759 | both region files are read with `as<std::string>()`, though they are declared as `fs::path` | any command line giving both regions-file and skip-regions-file | compare the two paths | not executed | Options.RegionFilesAsWrittenAlwaysFails | Options.CheckRegionFiles |
| src/sequence_utils.h:51-55 | true when the sequence contains T or U | "ACG" is both DNA and RNA, yet the result is false | true exactly when the sequence is both DNA and RNA | not executed | SequenceUtils.AmbiguousAsWrittenCounterexample | SequenceUtils.DnaRnaAmbiguousIff |
