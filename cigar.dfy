/**
 * CIGAR strings (section 1.4 of the SAMv1 specification, field 6): a sequence of
 * operations, each a size and a flag character. The flag is the enumerator's
 * underlying character (M I D N S H P = X); a parsed flag may be any non-digit
 * character, and the validity predicates say which of them are the nine flags.
 */
module Cigar {
  import opened Decimal
  import opened Outcome

  datatype Op = Op(size: nat, flag: char)

  const AlignmentMatch := 'M'
  const Insertion := 'I'
  const Deletion := 'D'
  const Skipped := 'N'
  const SoftClipped := 'S'
  const HardClipped := 'H'
  const Padding := 'P'
  const SequenceMatch := '='
  const Substitution := 'X'

  // ---------------------------------------------------------------- flags

  /** is_valid(Flag): one of the nine enumerators. */
  predicate IsValidFlag(f: char)
  {
    f == AlignmentMatch || f == SequenceMatch || f == Substitution || f == Insertion
    || f == Deletion || f == SoftClipped || f == HardClipped || f == Padding || f == Skipped
  }

  /** is_valid(CigarOperation): a valid flag and a positive size. */
  predicate IsValidOp(op: Op)
  {
    IsValidFlag(op.flag) && op.size > 0
  }

  /** advances_reference: everything but insertion, hard clipping and padding. */
  predicate AdvancesReference(f: char)
  {
    !(f == Insertion || f == HardClipped || f == Padding)
  }

  /** advances_sequence: everything but deletion and hard clipping. */
  predicate AdvancesSequence(f: char)
  {
    !(f == Deletion || f == HardClipped)
  }

  /** is_match: M, = or X. */
  predicate IsMatch(f: char)
  {
    f == AlignmentMatch || f == SequenceMatch || f == Substitution
  }

  predicate IsIndel(f: char)
  {
    f == Insertion || f == Deletion
  }

  predicate IsClipping(f: char)
  {
    f == SoftClipped || f == HardClipped
  }

  /**
   * Each valid flag is exactly one of: a match, an indel, a clipping, or one of
   * N and P.
   */
  lemma FlagClasses(f: char)
    requires IsValidFlag(f)
    ensures (if IsMatch(f) then 1 else 0) + (if IsIndel(f) then 1 else 0)
          + (if IsClipping(f) then 1 else 0) + (if f == Skipped || f == Padding then 1 else 0) == 1
  {
  }

  /**
   * How a valid flag moves along the reference and the read. Unlike the SAMv1
   * consumes-query/consumes-reference table, S is counted as advancing the
   * reference, N as advancing the read, and P as advancing the read.
   */
  lemma AdvanceTable(f: char)
    requires IsValidFlag(f)
    ensures !AdvancesReference(f) && !AdvancesSequence(f) <==> f == HardClipped
    ensures AdvancesReference(f) && !AdvancesSequence(f) <==> f == Deletion
    ensures !AdvancesReference(f) && AdvancesSequence(f) <==> f == Insertion || f == Padding
    ensures AdvancesReference(f) && AdvancesSequence(f) <==> IsMatch(f) || f == SoftClipped || f == Skipped
  {
  }

  /** No flag is a decimal digit, so printed sizes and flags do not run together. */
  lemma ValidFlagIsNotDigit(f: char)
    requires IsValidFlag(f)
    ensures !IsDigit(f)
  {
  }

  // ------------------------------------------------------------ operators

  /** operator== on operations: same flag and same size. */
  predicate SameOp(a: Op, b: Op)
  {
    a.flag == b.flag && a.size == b.size
  }

  /** operator< on operations: by flag character, then by size. */
  predicate Less(a: Op, b: Op)
  {
    if a.flag == b.flag then a.size < b.size else a.flag < b.flag
  }

  /** operator== is equality of the two fields, i.e. of the operations. */
  lemma SameOpIsEquality(a: Op, b: Op)
    ensures SameOp(a, b) <==> a == b
  {
  }

  /** operator< is a strict total order consistent with operator==. */
  lemma LessIsStrictTotalOrder(a: Op, b: Op, c: Op)
    ensures !Less(a, a)
    ensures Less(a, b) ==> !Less(b, a)
    ensures Less(a, b) && Less(b, c) ==> Less(a, c)
    ensures a == b || Less(a, b) || Less(b, a)
  {
  }

  // --------------------------------------------------------------- parsing

  datatype ParseError =
    | BadLexicalCast        // a flag with no digits before it
    | UnparsedCharacters    // digits after the last flag

  /** `ops` with `prefix` in front, errors passed through. */
  function Glue(prefix: seq<Op>, r: Result<seq<Op>, ParseError>): Result<seq<Op>, ParseError>
  {
    match r
    case Ok(ops) => Ok(prefix + ops)
    case Err(e) => Err(e)
  }

  lemma GlueGlue(a: seq<Op>, b: seq<Op>, r: Result<seq<Op>, ParseError>)
    ensures Glue(a, Glue(b, r)) == Glue(a + b, r)
    ensures Glue([], r) == r
  {
    if r.Ok? {
      assert a + (b + r.value) == a + b + r.value;
      assert [] + r.value == r.value;
    }
  }

  /**
   * What parse_cigar makes of `text` when `digits` have been read before it:
   * each non-digit closes one operation sized by the digits before it.
   */
  function ParseFrom(text: string, digits: string): Result<seq<Op>, ParseError>
    requires AllDigits(digits)
    decreases |text|
  {
    if |text| == 0 then
      if |digits| == 0 then Ok([]) else Err(UnparsedCharacters)
    else if IsDigit(text[0]) then
      ParseFrom(text[1..], digits + [text[0]])
    else if |digits| == 0 then
      Err(BadLexicalCast)
    else
      Glue([Op(Value(digits), text[0])], ParseFrom(text[1..], []))
  }

  function Parse(text: string): Result<seq<Op>, ParseError>
  {
    ParseFrom(text, [])
  }

  /** parse_cigar: one pass, collecting digits and emitting an operation at each flag. */
  method ParseCigar(text: string) returns (r: Result<seq<Op>, ParseError>)
    ensures r == Parse(text)
  {
    var result: seq<Op> := [];
    var digits: string := [];
    var i := 0;
    assert text[0..] == text;
    GlueGlue([], [], Parse(text));
    while i < |text|
      invariant 0 <= i <= |text|
      invariant AllDigits(digits)
      invariant Parse(text) == Glue(result, ParseFrom(text[i..], digits))
    {
      var c := text[i];
      assert text[i..][1..] == text[i + 1..];
      if IsDigit(c) {
        digits := digits + [c];
      } else {
        if |digits| == 0 {
          return Err(BadLexicalCast);
        }
        GlueGlue(result, [Op(Value(digits), c)], ParseFrom(text[i + 1..], []));
        result := result + [Op(Value(digits), c)];
        digits := [];
      }
      i := i + 1;
    }
    if |digits| != 0 {
      return Err(UnparsedCharacters);
    }
    assert result + [] == result;
    r := Ok(result);
  }

  // -------------------------------------------------------------- printing

  /** operator<<: each operation as its size in decimal followed by its flag. */
  function Print(c: seq<Op>): string
  {
    if |c| == 0 then [] else Show(c[0].size) + [c[0].flag] + Print(c[1..])
  }

  /** Printed size digits, then a flag, then the rest: one operation in front. */
  lemma {:induction false} ParseDigitsThenFlag(d: string, f: char, rest: string, digits: string)
    requires AllDigits(digits) && AllDigits(d) && |digits + d| > 0 && !IsDigit(f)
    ensures ParseFrom(d + [f] + rest, digits) == Glue([Op(Value(digits + d), f)], ParseFrom(rest, []))
  {
    if |d| == 0 {
      assert d + [f] + rest == [f] + rest;
      assert digits + d == digits;
      assert ([f] + rest)[1..] == rest;
    } else {
      assert (d + [f] + rest)[1..] == d[1..] + [f] + rest;
      assert digits + [d[0]] + d[1..] == digits + d;
      ParseDigitsThenFlag(d[1..], f, rest, digits + [d[0]]);
    }
  }

  /** Printing then parsing gives back the operations, provided no flag is a digit. */
  lemma {:induction false} ParsePrint(c: seq<Op>)
    requires forall i | 0 <= i < |c| :: !IsDigit(c[i].flag)
    ensures Parse(Print(c)) == Ok(c)
  {
    if |c| > 0 {
      ParsePrint(c[1..]);
      var d := Show(c[0].size);
      assert [] + d == d;
      ParseDigitsThenFlag(d, c[0].flag, Print(c[1..]), []);
      ValueShow(c[0].size);
      assert [c[0]] + c[1..] == c;
    }
  }

  /** A valid CIGAR prints and parses back to itself. */
  lemma ValidParsePrint(c: seq<Op>)
    requires IsValid(c)
    ensures Parse(Print(c)) == Ok(c)
  {
    forall i | 0 <= i < |c|
      ensures !IsDigit(c[i].flag)
    {
      ValidFlagIsNotDigit(c[i].flag);
    }
    ParsePrint(c);
  }

  // ------------------------------------------------- validity and minimality

  /** is_valid(CigarString): non-empty, and every operation valid. */
  predicate IsValid(c: seq<Op>)
  {
    |c| > 0 && forall i | 0 <= i < |c| :: IsValidOp(c[i])
  }

  /** is_minimal: no two neighbouring operations share a flag. */
  predicate IsMinimal(c: seq<Op>)
  {
    forall i | 0 <= i < |c| - 1 :: c[i].flag != c[i + 1].flag
  }

  // ------------------------------------------------------------ sizes

  /** sum_operation_sizes. */
  function SumSizes(c: seq<Op>): nat
  {
    if |c| == 0 then 0 else c[0].size + SumSizes(c[1..])
  }

  lemma {:induction false} SumSizesAppend(a: seq<Op>, b: seq<Op>)
    ensures SumSizes(a + b) == SumSizes(a) + SumSizes(b)
  {
    if |a| == 0 {
      assert a + b == b;
    } else {
      assert (a + b)[1..] == a[1..] + b;
      SumSizesAppend(a[1..], b);
    }
  }

  // ------------------------------------------------------------ soft clips

  predicate IsFrontSoftClipped(c: seq<Op>)
  {
    |c| > 0 && c[0].flag == SoftClipped
  }

  predicate IsBackSoftClipped(c: seq<Op>)
  {
    |c| > 0 && c[|c| - 1].flag == SoftClipped
  }

  predicate IsSoftClipped(c: seq<Op>)
  {
    IsFrontSoftClipped(c) || IsBackSoftClipped(c)
  }

  /** get_soft_clipped_sizes: (front S size or 0, back S size or 0). */
  function SoftClippedSizes(c: seq<Op>): (nat, nat)
  {
    (if IsFrontSoftClipped(c) then c[0].size else 0,
     if IsBackSoftClipped(c) then c[|c| - 1].size else 0)
  }

  /**
   * The clipped sizes are parts of the total size, and with two or more
   * operations they do not overlap; a lone S operation counts on both sides.
   */
  lemma SoftClippedSizesBounds(c: seq<Op>)
    ensures SoftClippedSizes(c).0 <= SumSizes(c) && SoftClippedSizes(c).1 <= SumSizes(c)
    ensures |c| >= 2 ==> SoftClippedSizes(c).0 + SoftClippedSizes(c).1 <= SumSizes(c)
    ensures |c| == 1 && c[0].flag == SoftClipped ==> SoftClippedSizes(c) == (c[0].size, c[0].size)
  {
    if |c| > 0 {
      var n := |c|;
      if n >= 2 {
        assert c == [c[0]] + (c[1..n - 1] + [c[n - 1]]);
        SumSizesAppend([c[0]], c[1..n - 1] + [c[n - 1]]);
        SumSizesAppend(c[1..n - 1], [c[n - 1]]);
      } else {
        assert SumSizes(c) == c[0].size + SumSizes([]);
      }
    }
  }

  /** For a valid CIGAR, soft clipped exactly when some clipped size is non-zero. */
  lemma ValidSoftClipped(c: seq<Op>)
    requires IsValid(c)
    ensures IsSoftClipped(c) <==> SoftClippedSizes(c) != (0, 0)
  {
    assert IsValidOp(c[0]) && IsValidOp(c[|c| - 1]);
  }

  // ------------------------------------------------------------ decompose

  /** n copies of the flag f (utils::append(result, n, f)). */
  function Repeat(f: char, n: nat): (r: seq<char>)
    ensures |r| == n && forall i | 0 <= i < n :: r[i] == f
  {
    seq(n, _ => f)
  }

  /** The run-length expansion of a CIGAR: each flag repeated size times. */
  function Expand(c: seq<Op>): seq<char>
  {
    if |c| == 0 then [] else Repeat(c[0].flag, c[0].size) + Expand(c[1..])
  }

  /** The expansion has one flag per unit of size. */
  lemma {:induction false} ExpandLength(c: seq<Op>)
    ensures |Expand(c)| == SumSizes(c)
  {
    if |c| > 0 {
      ExpandLength(c[1..]);
    }
  }

  lemma {:induction false} ExpandAppend(a: seq<Op>, b: seq<Op>)
    ensures Expand(a + b) == Expand(a) + Expand(b)
  {
    if |a| == 0 {
      assert a + b == b;
    } else {
      assert (a + b)[1..] == a[1..] + b;
      ExpandAppend(a[1..], b);
    }
  }

  /** decompose: append each operation's flag size times, in order. */
  method Decompose(c: seq<Op>) returns (flags: seq<char>)
    ensures flags == Expand(c)
    ensures |flags| == SumSizes(c)
  {
    flags := [];
    var i := 0;
    while i < |c|
      invariant 0 <= i <= |c|
      invariant flags == Expand(c[..i])
    {
      assert c[..i + 1] == c[..i] + [c[i]];
      ExpandAppend(c[..i], [c[i]]);
      flags := flags + Repeat(c[i].flag, c[i].size);
      i := i + 1;
    }
    assert c[..i] == c;
    ExpandLength(c);
  }

  /** The number of leading copies of f in s. */
  function LeadRun(s: seq<char>, f: char): nat
  {
    if |s| == 0 || s[0] != f then 0 else 1 + LeadRun(s[1..], f)
  }

  lemma {:induction false} LeadRunRepeat(f: char, n: nat, t: seq<char>)
    requires |t| == 0 || t[0] != f
    ensures LeadRun(Repeat(f, n) + t, f) == n
  {
    if n == 0 {
      assert Repeat(f, n) + t == t;
    } else {
      assert (Repeat(f, n) + t)[1..] == Repeat(f, n - 1) + t;
      LeadRunRepeat(f, n - 1, t);
    }
  }

  predicate PositiveSizes(c: seq<Op>)
  {
    forall i | 0 <= i < |c| :: c[i].size > 0
  }

  /**
   * A minimal CIGAR without zero-size operations is determined by its
   * decomposition: decompose is one-to-one on such CIGARs.
   */
  lemma {:induction false} MinimalDecomposeInjective(a: seq<Op>, b: seq<Op>)
    requires IsMinimal(a) && IsMinimal(b) && PositiveSizes(a) && PositiveSizes(b)
    requires Expand(a) == Expand(b)
    ensures a == b
  {
    ExpandLength(a);
    ExpandLength(b);
    if |a| > 0 && |b| > 0 {
      var ta, tb := Expand(a[1..]), Expand(b[1..]);
      assert |a| > 1 ==> ta[0] == a[1].flag;
      assert |b| > 1 ==> tb[0] == b[1].flag;
      assert Expand(a)[0] == a[0].flag && Expand(b)[0] == b[0].flag;
      LeadRunRepeat(a[0].flag, a[0].size, ta);
      LeadRunRepeat(b[0].flag, b[0].size, tb);
      assert a[0] == b[0];
      assert ta == Expand(a)[a[0].size..];
      assert tb == Expand(b)[b[0].size..];
      MinimalDecomposeInjective(a[1..], b[1..]);
      assert a == [a[0]] + a[1..] && b == [b[0]] + b[1..];
    }
  }

  // ------------------------------------------------------ collapse_matches

  /** The length of the leading run of match operations. */
  function MatchRun(c: seq<Op>): (n: nat)
    ensures n <= |c|
    ensures forall k | 0 <= k < n :: IsMatch(c[k].flag)
    ensures n < |c| ==> !IsMatch(c[n].flag)
  {
    if |c| == 0 || !IsMatch(c[0].flag) then 0 else 1 + MatchRun(c[1..])
  }

  /**
   * collapse_matches: every maximal run of M/=/X operations becomes one M of
   * the run's total size; every other operation is kept.
   */
  function Collapse(c: seq<Op>): (r: seq<Op>)
    ensures |r| <= |c|
    ensures |c| > 0 ==> |r| > 0 && IsMatch(r[0].flag) == IsMatch(c[0].flag)
    decreases |c|
  {
    if |c| == 0 then []
    else if !IsMatch(c[0].flag) then [c[0]] + Collapse(c[1..])
    else
      var n := MatchRun(c);
      [Op(SumSizes(c[..n]), AlignmentMatch)] + Collapse(c[n..])
  }

  /**
   * After collapsing, no two neighbouring operations are both matches, and
   * every match is an M.
   */
  lemma {:induction false} CollapseShape(c: seq<Op>)
    ensures var r := Collapse(c);
      && (forall i | 0 <= i < |r| - 1 :: !(IsMatch(r[i].flag) && IsMatch(r[i + 1].flag)))
      && (forall i | 0 <= i < |r| :: IsMatch(r[i].flag) ==> r[i].flag == AlignmentMatch)
    decreases |c|
  {
    if |c| > 0 {
      var r := Collapse(c);
      if !IsMatch(c[0].flag) {
        CollapseShape(c[1..]);
        assert r == [c[0]] + Collapse(c[1..]);
      } else {
        var n := MatchRun(c);
        CollapseShape(c[n..]);
        assert r == [Op(SumSizes(c[..n]), AlignmentMatch)] + Collapse(c[n..]);
      }
    }
  }

  /** A stretch of non-match operations is copied as it is. */
  lemma {:induction false} CollapseSkip(c: seq<Op>, i: nat, j: nat)
    requires i <= j <= |c|
    requires forall k | i <= k < j :: !IsMatch(c[k].flag)
    ensures Collapse(c[i..]) == c[i..j] + Collapse(c[j..])
    decreases j - i
  {
    if i < j {
      assert c[i..][1..] == c[i + 1..];
      assert Collapse(c[i..]) == [c[i]] + Collapse(c[i + 1..]);
      CollapseSkip(c, i + 1, j);
      assert c[i..j] == [c[i]] + c[i + 1..j];
      Regroup3([c[i]], c[i + 1..j], Collapse(c[j..]));
    }
  }

  /** A maximal run of match operations becomes one M of the run's total size. */
  lemma CollapseRun(c: seq<Op>, j: nat, k: nat)
    requires j < k <= |c|
    requires forall m | j <= m < k :: IsMatch(c[m].flag)
    requires k == |c| || !IsMatch(c[k].flag)
    ensures Collapse(c[j..]) == [Op(SumSizes(c[j..k]), AlignmentMatch)] + Collapse(c[k..])
  {
    var d := c[j..];
    assert MatchRun(d) == k - j;
    assert d[..k - j] == c[j..k];
    assert d[k - j..] == c[k..];
  }

  /** std::find_if with is_match, from position `from`. */
  method FindMatch(c: seq<Op>, from: nat) returns (j: nat)
    requires from <= |c|
    ensures from <= j <= |c|
    ensures forall m | from <= m < j :: !IsMatch(c[m].flag)
    ensures j < |c| ==> IsMatch(c[j].flag)
  {
    j := from;
    while j < |c| && !IsMatch(c[j].flag)
      invariant from <= j <= |c|
      invariant forall m | from <= m < j :: !IsMatch(c[m].flag)
    {
      j := j + 1;
    }
  }

  /** std::find_if_not with is_match, from position `from`. */
  method FindNonMatch(c: seq<Op>, from: nat) returns (k: nat)
    requires from <= |c|
    ensures from <= k <= |c|
    ensures forall m | from <= m < k :: IsMatch(c[m].flag)
    ensures k < |c| ==> !IsMatch(c[k].flag)
  {
    k := from;
    while k < |c| && IsMatch(c[k].flag)
      invariant from <= k <= |c|
      invariant forall m | from <= m < k :: IsMatch(c[m].flag)
    {
      k := k + 1;
    }
  }

  /** One round of collapse_matches: the non-matches before a run, then the merged run. */
  lemma CollapseRound(c: seq<Op>, r: seq<Op>, i: nat, j: nat, k: nat)
    requires i <= j < k <= |c|
    requires forall m | i <= m < j :: !IsMatch(c[m].flag)
    requires forall m | j <= m < k :: IsMatch(c[m].flag)
    requires k == |c| || !IsMatch(c[k].flag)
    ensures r + Collapse(c[i..]) == (r + c[i..j] + [Op(SumSizes(c[j..k]), AlignmentMatch)]) + Collapse(c[k..])
  {
    CollapseSkip(c, i, j);
    CollapseRun(c, j, k);
    Regroup(r, c[i..j], [Op(SumSizes(c[j..k]), AlignmentMatch)], Collapse(c[k..]));
  }

  lemma Regroup3<T>(a: seq<T>, b: seq<T>, c: seq<T>)
    ensures a + (b + c) == (a + b) + c
  {
  }

  lemma Regroup<T>(a: seq<T>, b: seq<T>, c: seq<T>, d: seq<T>)
    ensures a + (b + (c + d)) == (a + b + c) + d
  {
  }

  /** The last round of collapse_matches: only non-matches remain. */
  lemma CollapseLastRound(c: seq<Op>, r: seq<Op>, i: nat)
    requires i <= |c|
    requires forall m | i <= m < |c| :: !IsMatch(c[m].flag)
    ensures r + Collapse(c[i..]) == r + c[i..]
  {
    CollapseSkip(c, i, |c|);
    assert c[|c|..] == [];
  }

  /** collapse_matches: scan for the next match, copy what precedes it, merge the run. */
  method CollapseMatches(c: seq<Op>) returns (r: seq<Op>)
    ensures r == Collapse(c)
  {
    r := [];
    var i := 0;
    assert c[0..] == c;
    while i < |c|
      invariant 0 <= i <= |c|
      invariant Collapse(c) == r + Collapse(c[i..])
    {
      var j := FindMatch(c, i);
      if j == |c| {
        CollapseLastRound(c, r, i);
        return r + c[i..];
      }
      var k := FindNonMatch(c, j + 1);
      CollapseRound(c, r, i, j, k);
      r := r + c[i..j] + [Op(SumSizes(c[j..k]), AlignmentMatch)];
      i := k;
    }
    assert c[i..] == [];
  }

  /** Every match flag read as M. */
  function MatchesAsM(s: seq<char>): (r: seq<char>)
    ensures |r| == |s|
  {
    seq(|s|, i requires 0 <= i < |s| => if IsMatch(s[i]) then AlignmentMatch else s[i])
  }

  lemma {:induction false} ExpandMatchRun(c: seq<Op>)
    requires forall k | 0 <= k < |c| :: IsMatch(c[k].flag)
    ensures MatchesAsM(Expand(c)) == Repeat(AlignmentMatch, SumSizes(c))
  {
    ExpandLength(c);
    if |c| > 0 {
      ExpandMatchRun(c[1..]);
      var e, t := Expand(c), Expand(c[1..]);
      assert e == Repeat(c[0].flag, c[0].size) + t;
      forall i | 0 <= i < |e|
        ensures MatchesAsM(e)[i] == AlignmentMatch
      {
        if i >= c[0].size {
          assert e[i] == t[i - c[0].size];
          assert MatchesAsM(t)[i - c[0].size] == AlignmentMatch;
        }
      }
    }
  }

  lemma MatchesAsMAppend(s: seq<char>, t: seq<char>)
    ensures MatchesAsM(s + t) == MatchesAsM(s) + MatchesAsM(t)
  {
  }

  /**
   * Collapsing keeps the decomposition, except that = and X read as M: the
   * same flags at the same positions, so the total size is kept too.
   */
  lemma {:induction false} CollapseExpand(c: seq<Op>)
    ensures Expand(Collapse(c)) == MatchesAsM(Expand(c))
    ensures SumSizes(Collapse(c)) == SumSizes(c)
    decreases |c|
  {
    if |c| > 0 {
      if !IsMatch(c[0].flag) {
        CollapseExpand(c[1..]);
        assert [c[0]] + Collapse(c[1..]) == Collapse(c);
        assert ([c[0]] + Collapse(c[1..]))[1..] == Collapse(c[1..]);
        MatchesAsMAppend(Repeat(c[0].flag, c[0].size), Expand(c[1..]));
        assert MatchesAsM(Repeat(c[0].flag, c[0].size)) == Repeat(c[0].flag, c[0].size);
      } else {
        var n := MatchRun(c);
        CollapseExpand(c[n..]);
        assert c == c[..n] + c[n..];
        ExpandAppend(c[..n], c[n..]);
        MatchesAsMAppend(Expand(c[..n]), Expand(c[n..]));
        ExpandMatchRun(c[..n]);
        var head := Op(SumSizes(c[..n]), AlignmentMatch);
        assert Collapse(c) == [head] + Collapse(c[n..]);
        assert ([head] + Collapse(c[n..]))[1..] == Collapse(c[n..]);
      }
    }
    ExpandLength(c);
    ExpandLength(Collapse(c));
  }

  /** The operations that are not matches, in order. */
  function NonMatches(c: seq<Op>): seq<Op>
  {
    if |c| == 0 then [] else (if IsMatch(c[0].flag) then [] else [c[0]]) + NonMatches(c[1..])
  }

  lemma {:induction false} NonMatchesSkipRun(c: seq<Op>, n: nat)
    requires n <= |c|
    requires forall k | 0 <= k < n :: IsMatch(c[k].flag)
    ensures NonMatches(c) == NonMatches(c[n..])
  {
    if n > 0 {
      assert c[1..][n - 1..] == c[n..];
      NonMatchesSkipRun(c[1..], n - 1);
    }
  }

  /** Collapsing keeps every other operation, in order. */
  lemma {:induction false} CollapseKeepsNonMatches(c: seq<Op>)
    ensures NonMatches(Collapse(c)) == NonMatches(c)
    decreases |c|
  {
    if |c| > 0 {
      var r := Collapse(c);
      if !IsMatch(c[0].flag) {
        CollapseKeepsNonMatches(c[1..]);
        assert r[1..] == Collapse(c[1..]);
      } else {
        var n := MatchRun(c);
        CollapseKeepsNonMatches(c[n..]);
        NonMatchesSkipRun(c, n);
        assert r[1..] == Collapse(c[n..]);
      }
    }
  }

  // ------------------------------------------------------------------ copy

  /** CigarStringCopyPolicy: which operations a copy counts towards an offset or a size. */
  datatype CopyPolicy = Reference | Sequence | Both

  /** The predicate a policy selects: advances_reference, advances_sequence, or always. */
  predicate Counts(p: CopyPolicy, op: Op)
  {
    match p
    case Reference => AdvancesReference(op.flag)
    case Sequence => AdvancesSequence(op.flag)
    case Both => true
  }

  /** The total size of the operations a policy counts. */
  function SumCounted(c: seq<Op>, p: CopyPolicy): nat
  {
    if |c| == 0 then 0 else (if Counts(p, c[0]) then c[0].size else 0) + SumCounted(c[1..], p)
  }

  function Min(a: nat, b: nat): nat
  {
    if a <= b then a else b
  }

  /**
   * The second phase of copy: whole operations while the remaining size covers
   * them (operations the size policy does not count are taken whole and cost
   * nothing), then a truncated operation for what is left.
   */
  function Fill(c: seq<Op>, size: nat, p: CopyPolicy): seq<Op>
  {
    if |c| == 0 || size == 0 then []
    else if size >= c[0].size || !Counts(p, c[0]) then
      [c[0]] + Fill(c[1..], if Counts(p, c[0]) then size - c[0].size else size, p)
    else [Op(size, c[0].flag)]
  }

  /**
   * copy(cigar, offset, size, offset_pred, size_pred): skip the operations the
   * offset covers (only counted ones consume it), cut the first remaining one at
   * the offset, then fill up to `size`.
   */
  function CopyOps(c: seq<Op>, offset: nat, size: nat, op: CopyPolicy, sp: CopyPolicy): seq<Op>
  {
    if |c| == 0 then []
    else if offset >= c[0].size || !Counts(op, c[0]) then
      CopyOps(c[1..], if Counts(op, c[0]) then offset - c[0].size else offset, size, op, sp)
    else if c[0].size - offset >= size then [Op(size, c[0].flag)]
    else [Op(c[0].size - offset, c[0].flag)] + Fill(c[1..], size - (c[0].size - offset), sp)
  }

  lemma CopySkipStep(c: seq<Op>, i: nat, off: nat, size: nat, op: CopyPolicy, sp: CopyPolicy)
    requires i < |c| && (off >= c[i].size || !Counts(op, c[i]))
    ensures CopyOps(c[i..], off, size, op, sp)
         == CopyOps(c[i + 1..], if Counts(op, c[i]) then off - c[i].size else off, size, op, sp)
  {
    assert c[i..][1..] == c[i + 1..];
  }

  lemma CopyCutStep(c: seq<Op>, i: nat, off: nat, size: nat, op: CopyPolicy, sp: CopyPolicy)
    requires i < |c| && off < c[i].size && Counts(op, c[i])
    ensures CopyOps(c[i..], off, size, op, sp)
         == if c[i].size - off >= size then [Op(size, c[i].flag)]
            else [Op(c[i].size - off, c[i].flag)] + Fill(c[i + 1..], size - (c[i].size - off), sp)
  {
    assert c[i..][1..] == c[i + 1..];
  }

  lemma FillStep(c: seq<Op>, i: nat, left: nat, p: CopyPolicy)
    requires i < |c| && left > 0 && (left >= c[i].size || !Counts(p, c[i]))
    ensures Fill(c[i..], left, p) == [c[i]] + Fill(c[i + 1..], if Counts(p, c[i]) then left - c[i].size else left, p)
  {
    assert c[i..][1..] == c[i + 1..];
  }

  lemma FillLast(c: seq<Op>, i: nat, left: nat, p: CopyPolicy)
    requires i <= |c|
    requires !(i < |c| && left > 0 && (left >= c[i].size || !Counts(p, c[i])))
    ensures Fill(c[i..], left, p) == if i < |c| && left > 0 then [Op(left, c[i].flag)] else []
  {
  }

  /** The first loop of copy has skipped to operation i, with `off` of the offset left. */
  predicate SkippedTo(c: seq<Op>, i: nat, off: nat, size: nat, op: CopyPolicy, sp: CopyPolicy, target: seq<Op>)
  {
    i <= |c| && CopyOps(c[i..], off, size, op, sp) == target
  }

  lemma SkipAdvance(c: seq<Op>, i: nat, off: nat, size: nat, op: CopyPolicy, sp: CopyPolicy, target: seq<Op>)
    requires SkippedTo(c, i, off, size, op, sp, target)
    requires i < |c| && (off >= c[i].size || !Counts(op, c[i]))
    ensures SkippedTo(c, i + 1, if Counts(op, c[i]) then off - c[i].size else off, size, op, sp, target)
  {
    CopySkipStep(c, i, off, size, op, sp);
  }

  /** The second loop of copy has taken `result` and fills from operation i with `left` to go. */
  predicate Filled(c: seq<Op>, i: nat, left: nat, p: CopyPolicy, result: seq<Op>, target: seq<Op>)
  {
    i <= |c| && result + Fill(c[i..], left, p) == target
  }

  lemma FillAdvance(c: seq<Op>, i: nat, left: nat, p: CopyPolicy, result: seq<Op>, target: seq<Op>)
    requires Filled(c, i, left, p, result, target)
    requires i < |c| && left > 0 && (left >= c[i].size || !Counts(p, c[i]))
    ensures Filled(c, i + 1, if Counts(p, c[i]) then left - c[i].size else left, p, result + [c[i]], target)
  {
    FillStep(c, i, left, p);
    var rest := Fill(c[i + 1..], if Counts(p, c[i]) then left - c[i].size else left, p);
    assert result + ([c[i]] + rest) == (result + [c[i]]) + rest;
  }

  lemma FillEnd(c: seq<Op>, i: nat, left: nat, p: CopyPolicy, result: seq<Op>, target: seq<Op>)
    requires Filled(c, i, left, p, result, target)
    requires !(i < |c| && left > 0 && (left >= c[i].size || !Counts(p, c[i])))
    ensures target == if i < |c| && left > 0 then result + [Op(left, c[i].flag)] else result
  {
    FillLast(c, i, left, p);
    assert result + [] == result;
  }

  /** copy: the two loops over the operations, with an early return when the first piece suffices. */
  method Copy(c: seq<Op>, offset: nat, size: nat, op: CopyPolicy, sp: CopyPolicy) returns (result: seq<Op>)
    ensures result == CopyOps(c, offset, size, op, sp)
  {
    ghost var target := CopyOps(c, offset, size, op, sp);
    var i: nat, off: nat := 0, offset;
    assert c[0..] == c;
    while i < |c| && (off >= c[i].size || !Counts(op, c[i]))
      invariant SkippedTo(c, i, off, size, op, sp, target)
    {
      SkipAdvance(c, i, off, size, op, sp, target);
      if Counts(op, c[i]) {
        off := off - c[i].size;
      }
      i := i + 1;
    }
    if i == |c| {
      return [];
    }
    CopyCutStep(c, i, off, size, op, sp);
    var remainder := c[i].size - off;
    if remainder >= size {
      return [Op(size, c[i].flag)];
    }
    result := [Op(remainder, c[i].flag)];
    var left: nat := size - remainder;
    i := i + 1;
    while i < |c| && left > 0 && (left >= c[i].size || !Counts(sp, c[i]))
      invariant Filled(c, i, left, sp, result, target)
    {
      FillAdvance(c, i, left, sp, result, target);
      result := result + [c[i]];
      if Counts(sp, c[i]) {
        left := left - c[i].size;
      }
      i := i + 1;
    }
    FillEnd(c, i, left, sp, result, target);
    if i < |c| && left > 0 {
      result := result + [Op(left, c[i].flag)];
    }
  }

  /** copy_reference: offset and size both measured along the reference. */
  method CopyReference(c: seq<Op>, offset: nat, size: nat) returns (result: seq<Op>)
    ensures result == CopyOps(c, offset, size, Reference, Reference)
  {
    result := Copy(c, offset, size, Reference, Reference);
  }

  /** copy_sequence: offset and size both measured along the read. */
  method CopySequence(c: seq<Op>, offset: nat, size: nat) returns (result: seq<Op>)
    ensures result == CopyOps(c, offset, size, Sequence, Sequence)
  {
    result := Copy(c, offset, size, Sequence, Sequence);
  }

  // ------------------------------------------------------ what copy keeps

  /** The flags from position o, at most s of them (empty past the end). */
  function Window(d: seq<char>, o: nat, s: nat): (w: seq<char>)
    ensures o < |d| ==> |w| == Min(o + s, |d|) - o
  {
    if o >= |d| then [] else d[o..Min(o + s, |d|)]
  }

  lemma FirstOpExpand(c: seq<Op>)
    requires |c| > 0
    ensures Expand(c) == Repeat(c[0].flag, c[0].size) + Expand(c[1..])
    ensures |Expand(c)| == c[0].size + |Expand(c[1..])|
  {
  }

  /** Filling with every operation counted takes the first s flags of the decomposition. */
  lemma {:induction false} FillBothPrefix(c: seq<Op>, s: nat)
    ensures Expand(Fill(c, s, Both)) == Expand(c)[..Min(s, |Expand(c)|)]
  {
    if |c| > 0 && s > 0 {
      FirstOpExpand(c);
      var f, n := c[0].flag, c[0].size;
      var t := Expand(c[1..]);
      if s >= n {
        FillBothPrefix(c[1..], s - n);
        var rest := Fill(c[1..], s - n, Both);
        assert Fill(c, s, Both) == [c[0]] + rest;
        assert ([c[0]] + rest)[1..] == rest;
        assert Expand(Fill(c, s, Both)) == Repeat(f, n) + Expand(rest);
        assert Expand(c)[..Min(s, |Expand(c)|)] == Repeat(f, n) + t[..Min(s - n, |t|)];
      } else {
        assert Fill(c, s, Both) == [Op(s, f)];
        assert Expand([Op(s, f)]) == Repeat(f, s) + Expand([]);
        assert Expand(c)[..s] == Repeat(f, s);
      }
    }
  }

  lemma WindowShift(r: seq<char>, t: seq<char>, o: nat, s: nat)
    requires o >= |r|
    ensures Window(r + t, o, s) == Window(t, o - |r|, s)
  {
    if o < |r + t| {
      assert (r + t)[o..Min(o + s, |r + t|)] == t[o - |r|..Min(o - |r| + s, |t|)];
    }
  }

  lemma WindowInFirst(r: seq<char>, t: seq<char>, f: char, o: nat, s: nat)
    requires o + s <= |r| && forall i | 0 <= i < |r| :: r[i] == f
    requires o < |r|
    ensures Window(r + t, o, s) == Repeat(f, s)
  {
  }

  lemma WindowAcross(r: seq<char>, t: seq<char>, o: nat, s: nat)
    requires o < |r| < o + s
    ensures Window(r + t, o, s) == r[o..] + t[..Min(o + s - |r|, |t|)]
  {
  }

  /**
   * copy with the "both" policies is a window of the decomposition: the flags
   * of decompose(copy(c, o, s)) are decompose(c)[o .. min(o + s, total)].
   */
  lemma {:induction false} CopyBothIsWindow(c: seq<Op>, o: nat, s: nat)
    ensures Expand(CopyOps(c, o, s, Both, Both)) == Window(Expand(c), o, s)
  {
    if |c| > 0 {
      FirstOpExpand(c);
      var f, n := c[0].flag, c[0].size;
      var r, t := Repeat(f, n), Expand(c[1..]);
      if o >= n {
        CopyBothIsWindow(c[1..], o - n, s);
        WindowShift(r, t, o, s);
      } else if n - o >= s {
        assert CopyOps(c, o, s, Both, Both) == [Op(s, f)];
        assert Expand([Op(s, f)]) == Repeat(f, s) + Expand([]);
        WindowInFirst(r, t, f, o, s);
      } else {
        var rest := Fill(c[1..], s - (n - o), Both);
        assert CopyOps(c, o, s, Both, Both) == [Op(n - o, f)] + rest;
        assert ([Op(n - o, f)] + rest)[1..] == rest;
        FillBothPrefix(c[1..], s - (n - o));
        WindowAcross(r, t, o, s);
        assert r[o..] == Repeat(f, n - o);
      }
    }
  }

  /** A size-0 copy from inside the CIGAR gives one operation of size 0. */
  lemma {:induction false} CopyZeroSize(c: seq<Op>, o: nat)
    requires o < SumSizes(c)
    ensures |CopyOps(c, o, 0, Both, Both)| == 1 && CopyOps(c, o, 0, Both, Both)[0].size == 0
  {
    if o >= c[0].size {
      CopyZeroSize(c[1..], o - c[0].size);
    }
  }

  /**
   * Filling takes exactly min(s, available) of what the policy counts:
   * uncounted operations are taken whole and cost nothing.
   */
  lemma {:induction false} FillCounted(c: seq<Op>, s: nat, p: CopyPolicy)
    ensures SumCounted(Fill(c, s, p), p) == Min(s, SumCounted(c, p))
  {
    if |c| > 0 && s > 0 {
      if s >= c[0].size || !Counts(p, c[0]) {
        var rest := Fill(c[1..], if Counts(p, c[0]) then s - c[0].size else s, p);
        FillCounted(c[1..], if Counts(p, c[0]) then s - c[0].size else s, p);
        assert ([c[0]] + rest)[1..] == rest;
      }
    }
  }

  /**
   * The filled operations are the CIGAR's own, except that the last may be cut
   * short; an operation the policy does not count is never cut.
   */
  lemma {:induction false} FillVerbatim(c: seq<Op>, s: nat, p: CopyPolicy)
    ensures |Fill(c, s, p)| <= |c|
    ensures forall k | 0 <= k < |Fill(c, s, p)| - 1 :: Fill(c, s, p)[k] == c[k]
    ensures forall k | 0 <= k < |Fill(c, s, p)| ::
              Fill(c, s, p)[k].flag == c[k].flag && Fill(c, s, p)[k].size <= c[k].size
    ensures forall k | 0 <= k < |Fill(c, s, p)| :: !Counts(p, c[k]) ==> Fill(c, s, p)[k] == c[k]
  {
    if |c| > 0 && s > 0 && (s >= c[0].size || !Counts(p, c[0])) {
      var s' := if Counts(p, c[0]) then s - c[0].size else s;
      FillVerbatim(c[1..], s', p);
      var rest := Fill(c[1..], s', p);
      assert Fill(c, s, p) == [c[0]] + rest;
      assert forall k | 1 <= k < |Fill(c, s, p)| :: Fill(c, s, p)[k] == rest[k - 1] && c[k] == c[1..][k - 1];
    }
  }

  /**
   * With one policy for offset and size, the copy covers exactly
   * min(size, counted total - offset) of what the policy counts, and nothing
   * when the offset is at or past that total.
   */
  lemma {:induction false} CopyCounted(c: seq<Op>, o: nat, s: nat, p: CopyPolicy)
    ensures SumCounted(CopyOps(c, o, s, p, p), p)
         == if o >= SumCounted(c, p) then 0 else Min(s, SumCounted(c, p) - o)
  {
    if |c| > 0 {
      if o >= c[0].size || !Counts(p, c[0]) {
        CopyCounted(c[1..], if Counts(p, c[0]) then o - c[0].size else o, s, p);
      } else if c[0].size - o < s {
        var rest := Fill(c[1..], s - (c[0].size - o), p);
        FillCounted(c[1..], s - (c[0].size - o), p);
        assert ([Op(c[0].size - o, c[0].flag)] + rest)[1..] == rest;
      } else {
        assert SumCounted([Op(s, c[0].flag)], p) == s + SumCounted([], p);
      }
    }
  }
}
