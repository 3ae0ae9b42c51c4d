/**
 * Nucleotide string utilities: the complement table, reverse complement,
 * palindromes, the DNA/RNA alphabets, transcription, capitalisation, base
 * counts, and the collapsing of runs of the unknown base N.
 */
module SequenceUtils {
  import opened Multiplicity

  const UnknownBase := 'N'

  /** The entry rc_table holds for everything that is not a base it knows: the code 4. */
  const NoBase: char := '\U{4}'

  predicate IsSevenBit(c: char)
  {
    (c as int) < 128
  }

  predicate AllSevenBit(s: seq<char>)
  {
    forall i | 0 <= i < |s| :: IsSevenBit(s[i])
  }

  // ------------------------------------------------------------ complement

  /**
   * complement: a lookup in the 128-entry rc_table. A, C, G, T, N and U (and
   * the lower-case a, c, g, t, u) have entries; every other entry is 4.
   */
  function Complement(c: char): char
    requires IsSevenBit(c)
  {
    if c == 'A' || c == 'a' then 'T'
    else if c == 'C' || c == 'c' then 'G'
    else if c == 'G' || c == 'g' then 'C'
    else if c == 'T' || c == 't' || c == 'U' || c == 'u' then 'A'
    else if c == 'N' then 'N'
    else NoBase
  }

  predicate IsDnaBase(c: char)
  {
    c == 'A' || c == 'C' || c == 'G' || c == 'T' || c == 'N'
  }

  predicate IsRnaBase(c: char)
  {
    c == 'A' || c == 'C' || c == 'G' || c == 'U' || c == 'N'
  }

  /** On the DNA alphabet ACGTN the complement is an involution. */
  lemma ComplementInvolution(c: char)
    requires IsDnaBase(c)
    ensures IsDnaBase(Complement(c)) && Complement(Complement(c)) == c
  {
  }

  /**
   * The table knows exactly upper-case ACGTUN and lower-case acgtu; lower-case
   * n is not among them.
   */
  lemma ComplementKnown(c: char)
    requires IsSevenBit(c)
    ensures Complement(c) != NoBase <==> IsDnaBase(c) || c == 'U' || IsLowerBase(c)
    ensures Complement(c) != NoBase ==> IsDnaBase(Complement(c))
  {
  }

  /** A lower-case base has the complement of its upper-case form. */
  lemma ComplementIgnoresCase(c: char)
    requires IsLowerBase(c)
    ensures Complement(c) == Complement(Upper(c))
  {
  }

  // ---------------------------------------------------- reverse_complement

  /** The reverse complement: position i holds the complement of position n-1-i. */
  function ReverseComplemented(s: seq<char>): (r: seq<char>)
    requires AllSevenBit(s)
    ensures |r| == |s|
  {
    seq(|s|, i requires 0 <= i < |s| => Complement(s[|s| - 1 - i]))
  }

  /** Over ACGTN, reverse-complementing twice gives the original. */
  lemma ReverseComplementInvolution(s: seq<char>)
    requires IsDna(s)
    ensures AllSevenBit(s) && AllSevenBit(ReverseComplemented(s))
    ensures ReverseComplemented(ReverseComplemented(s)) == s
  {
    var r := ReverseComplemented(s);
    forall i | 0 <= i < |s|
      ensures IsDnaBase(r[i])
    {
      ComplementInvolution(s[|s| - 1 - i]);
    }
    forall i | 0 <= i < |s|
      ensures Complement(r[|s| - 1 - i]) == s[i]
    {
      ComplementInvolution(s[i]);
    }
  }

  /**
   * reverse_complement: two iterators meet in the middle, each pair swapped and
   * complemented, and the middle base of an odd-length sequence complemented
   * in place. The first step takes std::prev(end), so the sequence must not be
   * empty.
   */
  method ReverseComplement(a: array<char>)
    requires a.Length > 0 && AllSevenBit(a[..])
    modifies a
    ensures a[..] == ReverseComplemented(old(a[..]))
  {
    ghost var s := a[..];
    var n := a.Length;
    var f, r := 0, n - 1;
    while f < r
      invariant 0 <= f <= r + 1 <= n && r == n - 1 - f
      invariant forall k | 0 <= k < f :: a[k] == Complement(s[n - 1 - k]) && a[n - 1 - k] == Complement(s[k])
      invariant forall k | f <= k <= r :: a[k] == s[k]
    {
      var c := Complement(a[f]);
      a[f] := Complement(a[r]);
      a[r] := c;
      f, r := f + 1, r - 1;
    }
    if f == r {
      a[f] := Complement(a[f]);
    }
  }

  // --------------------------------------------------------- is_palindromic

  /**
   * A reverse-complement palindrome: non-empty, of even length, and each base
   * of the first half pairs with the complement of its mirror.
   */
  predicate Palindromic(s: seq<char>)
    requires AllSevenBit(s)
  {
    |s| > 0 && |s| % 2 == 0 && forall i | 0 <= i < |s| / 2 :: s[i] == Complement(s[|s| - 1 - i])
  }

  /** is_palindromic: empty or odd length is not; otherwise compare from both ends. */
  method IsPalindromic(s: seq<char>) returns (b: bool)
    requires AllSevenBit(s)
    ensures b == Palindromic(s)
  {
    if |s| == 0 || |s| % 2 != 0 {
      return false;
    }
    var f, r := 0, |s| - 1;
    while f < r
      invariant 0 <= f <= |s| / 2 && r == |s| - 1 - f
      invariant forall i | 0 <= i < f :: s[i] == Complement(s[|s| - 1 - i])
    {
      if s[f] != Complement(s[r]) {
        return false;
      }
      f, r := f + 1, r - 1;
    }
    return true;
  }

  /**
   * Over ACGTN, an even-length non-empty sequence is palindromic exactly when
   * it is its own reverse complement.
   */
  lemma PalindromicIffOwnReverseComplement(s: seq<char>)
    requires IsDna(s)
    ensures AllSevenBit(s) && Palindromic(s) <==> |s| > 0 && |s| % 2 == 0 && ReverseComplemented(s) == s
  {
    var n := |s|;
    if Palindromic(s) {
      forall i | 0 <= i < n
        ensures ReverseComplemented(s)[i] == s[i]
      {
        if i >= n / 2 {
          var j := n - 1 - i;
          assert s[j] == Complement(s[n - 1 - j]);
          ComplementInvolution(s[i]);
        }
      }
    }
  }

  // ---------------------------------------------------------- alphabets

  /** is_dna: no character outside ACGTN. */
  predicate IsDna(s: seq<char>)
  {
    forall i | 0 <= i < |s| :: IsDnaBase(s[i])
  }

  /** is_rna: no character outside ACGUN. */
  predicate IsRna(s: seq<char>)
  {
    forall i | 0 <= i < |s| :: IsRnaBase(s[i])
  }

  /** is_dna_rna_ambiguous as written: the sequence contains a T or a U. */
  predicate IsDnaRnaAmbiguousAsWritten(s: seq<char>)
  {
    exists i | 0 <= i < |s| :: s[i] == 'T' || s[i] == 'U'
  }

  /** What its comment says it computes: the sequence reads both as DNA and as RNA. */
  predicate IsDnaRnaAmbiguous(s: seq<char>)
  {
    IsDna(s) && IsRna(s)
  }

  /** Reading as both DNA and RNA means using only A, C, G and N. */
  lemma DnaRnaAmbiguousIff(s: seq<char>)
    ensures IsDnaRnaAmbiguous(s) <==> forall i | 0 <= i < |s| :: s[i] in "ACGN"
  {
  }

  /** "ACG" is both DNA and RNA, yet the function as written says it is not ambiguous. */
  lemma AmbiguousAsWrittenCounterexample()
    ensures IsDna("ACG") && IsRna("ACG")
    ensures !IsDnaRnaAmbiguousAsWritten("ACG") && IsDnaRnaAmbiguous("ACG")
  {
    var s := "ACG";
    assert s[0] == 'A' && s[1] == 'C' && s[2] == 'G';
  }

  /** On DNA or RNA input the function as written returns the opposite of its comment. */
  lemma AmbiguousAsWrittenIsNegation(s: seq<char>)
    requires IsDna(s) || IsRna(s)
    ensures IsDnaRnaAmbiguousAsWritten(s) <==> !IsDnaRnaAmbiguous(s)
  {
  }

  // --------------------------------------------------------- transcription

  /** transcribe: every T becomes U. */
  function Transcribe(s: seq<char>): (r: seq<char>)
    ensures |r| == |s|
  {
    seq(|s|, i requires 0 <= i < |s| => if s[i] == 'T' then 'U' else s[i])
  }

  /** reverse_transcribe: every U becomes T. */
  function ReverseTranscribe(s: seq<char>): (r: seq<char>)
    ensures |r| == |s|
  {
    seq(|s|, i requires 0 <= i < |s| => if s[i] == 'U' then 'T' else s[i])
  }

  /** Transcription and its reverse undo each other on sequences that had no U (resp. no T). */
  lemma TranscriptionRoundTrips(s: seq<char>)
    ensures (forall i | 0 <= i < |s| :: s[i] != 'U') ==> ReverseTranscribe(Transcribe(s)) == s
    ensures (forall i | 0 <= i < |s| :: s[i] != 'T') ==> Transcribe(ReverseTranscribe(s)) == s
  {
  }

  /** DNA transcribes to RNA and RNA reverse-transcribes to DNA. */
  lemma TranscriptionAlphabets(s: seq<char>)
    ensures IsDna(s) ==> IsRna(Transcribe(s))
    ensures IsRna(s) ==> IsDna(ReverseTranscribe(s))
  {
  }

  // ------------------------------------------------------------ capitalise

  predicate IsLowerBase(c: char)
  {
    c == 'a' || c == 'c' || c == 'g' || c == 't' || c == 'u'
  }

  /** The switch inside capitalise: lower-case a, c, g, t, u to upper case, all else unchanged. */
  function Upper(c: char): char
  {
    match c
    case 'a' => 'A'
    case 'c' => 'C'
    case 'g' => 'G'
    case 't' => 'T'
    case 'u' => 'U'
    case _ => c
  }

  function Capitalised(s: seq<char>): (r: seq<char>)
    ensures |r| == |s|
  {
    seq(|s|, i requires 0 <= i < |s| => Upper(s[i]))
  }

  /** capitalise: std::transform over the sequence, in place. */
  method Capitalise(a: array<char>)
    modifies a
    ensures a[..] == Capitalised(old(a[..]))
  {
    for i := 0 to a.Length
      invariant forall k | 0 <= k < i :: a[k] == Upper(old(a[k]))
      invariant forall k | i <= k < a.Length :: a[k] == old(a[k])
    {
      a[i] := Upper(a[i]);
    }
  }

  /**
   * Capitalising leaves no lower-case base, changes nothing else, and a second
   * pass changes nothing.
   */
  lemma CapitaliseProperties(s: seq<char>)
    ensures forall i | 0 <= i < |s| :: !IsLowerBase(Capitalised(s)[i])
    ensures forall i | 0 <= i < |s| :: !IsLowerBase(s[i]) ==> Capitalised(s)[i] == s[i]
    ensures Capitalised(Capitalised(s)) == Capitalised(s)
  {
  }

  // ----------------------------------------------------------- count_bases

  /** count_bases: ++result[base] for each base; a missing key starts at 0. */
  method CountBases(s: seq<char>) returns (m: map<char, nat>)
    ensures m.Keys == set i | 0 <= i < |s| :: s[i]
    ensures forall c | c in m :: m[c] == Count(s, c)
  {
    m := map[];
    for i := 0 to |s|
      invariant m.Keys == set k | 0 <= k < i :: s[k]
      invariant forall c | c in m :: m[c] == Count(s[..i], c)
    {
      assert s[..i + 1] == s[..i] + [s[i]];
      var old_count := if s[i] in m then m[s[i]] else 0;
      assert old_count == Count(s[..i], s[i]);
      m := m[s[i] := old_count + 1];
    }
    assert s[..|s|] == s;
  }

  /** The counts of the keys u, in that order. */
  function CountsInOrder(m: map<char, nat>, u: seq<char>): (r: seq<nat>)
    requires forall i | 0 <= i < |u| :: u[i] in m
    ensures |r| == |u|
  {
    seq(|u|, i requires 0 <= i < |u| => m[u[i]])
  }

  /** Listed once per distinct base, the counts add up to the sequence length. */
  lemma BaseCountsSumToLength(s: seq<char>, m: map<char, nat>)
    requires m.Keys == set i | 0 <= i < |s| :: s[i]
    requires forall c | c in m :: m[c] == Count(s, c)
    ensures forall i | 0 <= i < |Unique(s)| :: Unique(s)[i] in m
    ensures NatSum(CountsInOrder(m, Unique(s))) == |s|
  {
    var u := Unique(s);
    forall i | 0 <= i < |u|
      ensures u[i] in m
    {
      var k :| 0 <= k < |s| && s[k] == u[i];
    }
    assert CountsInOrder(m, u) == Multiplicities(s);
    MultiplicitiesSumToLength(s);
  }

  // ------------------------------------------------------------ collapse_ns

  /** Positions k and k+1 both hold N. */
  predicate NPair(s: seq<char>, k: nat)
  {
    k + 1 < |s| && s[k] == UnknownBase && s[k + 1] == UnknownBase
  }

  /** The number of neighbouring N-N pairs. */
  function Pairs(x: seq<char>): nat
  {
    if |x| <= 1 then 0
    else Pairs(x[..|x| - 1]) + (if NPair(x, |x| - 2) then 1 else 0)
  }

  /**
   * std::unique with "both are N": each run of N becomes a single N. One
   * character goes per N-N pair and the last character stays last.
   */
  function Squeeze(x: seq<char>): (r: seq<char>)
    ensures |r| + Pairs(x) == |x|
    ensures |x| > 0 ==> |r| > 0 && r[|r| - 1] == x[|x| - 1]
  {
    if |x| <= 1 then x
    else if NPair(x, |x| - 2) then Squeeze(x[..|x| - 1])
    else Squeeze(x[..|x| - 1]) + [x[|x| - 1]]
  }

  /** After collapsing no two neighbouring characters are both N. */
  lemma {:induction false} SqueezeLeavesNoPair(x: seq<char>)
    ensures forall k: nat :: !NPair(Squeeze(x), k)
    decreases |x|
  {
    if |x| > 1 {
      var p := x[..|x| - 1];
      SqueezeLeavesNoPair(p);
      if !NPair(x, |x| - 2) {
        var r := Squeeze(p) + [x[|x| - 1]];
        forall k: nat ensures !NPair(r, k) {
          if k + 2 < |r| {
            assert NPair(r, k) == NPair(Squeeze(p), k);
          }
        }
      }
    }
  }

  /** std::adjacent_find for two Ns from `from`; |s| when there is none. */
  function NextPair(s: seq<char>, from: nat): (a: nat)
    requires from <= |s|
    ensures from <= a <= |s|
    ensures a < |s| ==> NPair(s, a)
    ensures forall k | from <= k < a :: !NPair(s, k)
    decreases |s| - from
  {
    if from + 1 >= |s| then |s|
    else if NPair(s, from) then from
    else NextPair(s, from + 1)
  }

  /** std::find_if_not with "is N" from `a`: the end of the run of Ns starting at a. */
  function RunEnd(s: seq<char>, a: nat): (b: nat)
    requires a <= |s|
    ensures a <= b <= |s|
    ensures forall k | a <= k < b :: s[k] == UnknownBase
    ensures b < |s| ==> s[b] != UnknownBase
    decreases |s| - a
  {
    if a == |s| || s[a] != UnknownBase then a else RunEnd(s, a + 1)
  }

  /** std::map::emplace: the entry goes in only when its key is new. */
  function Emplace(m: map<nat, nat>, e: (nat, nat)): (r: map<nat, nat>)
    ensures r.Keys == m.Keys + {e.0}
    ensures forall k | k in m :: r[k] == m[k]
    ensures e.0 !in m ==> r[e.0] == e.1
  {
    if e.0 in m then m else m[e.0 := e.1]
  }

  /** The map built by emplacing the entries in order. */
  function MapOf(entries: seq<(nat, nat)>): map<nat, nat>
  {
    if |entries| == 0 then map[]
    else Emplace(MapOf(entries[..|entries| - 1]), entries[|entries| - 1])
  }

  lemma MapOfSnoc(entries: seq<(nat, nat)>, e: (nat, nat))
    ensures MapOf(entries + [e]) == Emplace(MapOf(entries), e)
  {
    assert (entries + [e])[..|entries|] == entries;
  }

  /** Keys strictly increase along the entries. */
  predicate KeysIncrease(entries: seq<(nat, nat)>)
  {
    forall i, j | 0 <= i < j < |entries| :: entries[i].0 < entries[j].0
  }

  /** With increasing keys every entry lands in the map, and the map holds nothing else. */
  lemma {:induction false} MapOfIncreasing(entries: seq<(nat, nat)>)
    requires KeysIncrease(entries)
    ensures forall i | 0 <= i < |entries| :: entries[i].0 in MapOf(entries) && MapOf(entries)[entries[i].0] == entries[i].1
    ensures forall k | k in MapOf(entries) :: exists i :: 0 <= i < |entries| && entries[i].0 == k
    decreases |entries|
  {
    if |entries| > 0 {
      var n := |entries| - 1;
      var init := entries[..n];
      MapOfIncreasing(init);
    }
  }

  /**
   * The entries collapse_ns emplaces, scanning from `from` with `removed` Ns
   * removed before it, with the position of each run taken in the collapsed
   * sequence: a run of two or more Ns found at a keeps its first N, which
   * lands at a - removed, and the value is the number removed up to the end
   * of the run.
   */
  function Entries(s: seq<char>, from: nat, removed: nat): seq<(nat, nat)>
    requires from <= |s| && removed <= from
    decreases |s| - from
  {
    var a := NextPair(s, from);
    if a == |s| then []
    else
      var b := RunEnd(s, a);
      var total := removed + (b - a) - 1;
      [(a - removed, total)] + Entries(s, b, total)
  }

  /** The shift map of collapse_ns. */
  function Shifts(s: seq<char>): map<nat, nat>
  {
    MapOf(Entries(s, 0, 0))
  }

  /**
   * The entries as collapse_ns writes them: `position` advances by the
   * distance from the end of the previous run to the next pair, without the
   * one N each earlier run keeps.
   */
  function EntriesAsWritten(s: seq<char>, from: nat, position: nat, removed: nat): seq<(nat, nat)>
    requires from <= |s|
    decreases |s| - from
  {
    var a := NextPair(s, from);
    if a == |s| then []
    else
      var b := RunEnd(s, a);
      var p := position + (a - from);
      var total := removed + (b - a) - 1;
      [(p, total)] + EntriesAsWritten(s, b, p, total)
  }

  function ShiftsAsWritten(s: seq<char>): map<nat, nat>
  {
    MapOf(EntriesAsWritten(s, 0, 0, 0))
  }

  /** The number of N-N pairs inside s[..i]. */
  function PairsWithin(s: seq<char>, i: nat): (n: nat)
    requires i <= |s|
    ensures n <= i
  {
    if i <= 1 then 0 else PairsWithin(s, i - 1) + (if NPair(s, i - 2) then 1 else 0)
  }

  lemma {:induction false} PairsOfPrefix(s: seq<char>, i: nat)
    requires i <= |s|
    ensures Pairs(s[..i]) == PairsWithin(s, i)
    decreases i
  {
    if i > 1 {
      assert s[..i][..i - 1] == s[..i - 1];
      PairsOfPrefix(s, i - 1);
      assert NPair(s[..i], i - 2) == NPair(s, i - 2);
    }
  }

  lemma {:induction false} PairsWithinFlat(s: seq<char>, i: nat, j: nat)
    requires i <= j <= |s|
    requires forall k: nat | i <= k + 1 < j :: !NPair(s, k)
    ensures PairsWithin(s, j) == PairsWithin(s, i)
    decreases j
  {
    if j > i {
      PairsWithinFlat(s, i, j - 1);
    }
  }

  lemma {:induction false} PairsWithinRun(s: seq<char>, a: nat, b: nat)
    requires a < b <= |s|
    requires forall k | a <= k < b :: s[k] == UnknownBase
    ensures PairsWithin(s, b) == PairsWithin(s, a + 1) + (b - a - 1)
    decreases b
  {
    if b > a + 1 {
      PairsWithinRun(s, a, b - 1);
      assert NPair(s, b - 2);
    }
  }

  /**
   * Key k with value v stands for the run of Ns ending just before k + v + 1:
   * the input holds an N there, no N follows, and v pairs lie before it.
   */
  predicate Locates(s: seq<char>, k: nat, v: nat)
  {
    var b := k + v + 1;
    b <= |s| && s[b - 1] == UnknownBase && (b < |s| ==> s[b] != UnknownBase) && v == PairsWithin(s, b)
  }

  /**
   * The facts the scan keeps about its entries: each locates a run, the first
   * key is at least lo and each key lies above the one before, each value
   * exceeds the one before (`removed` for the first), and the last value is
   * the number of all pairs.
   */
  predicate Sound(s: seq<char>, e: seq<(nat, nat)>, lo: int, removed: nat)
    decreases |e|
  {
    |e| == 0 ||
    (&& Locates(s, e[0].0, e[0].1) && lo <= e[0].0 && removed < e[0].1
     && (|e| == 1 ==> e[0].1 == PairsWithin(s, |s|))
     && Sound(s, e[1..], e[0].0 + 1, e[0].1))
  }

  /** The facts of sound entries, stated for every entry. */
  lemma {:induction false} SoundEntries(s: seq<char>, e: seq<(nat, nat)>, lo: int, removed: nat)
    requires Sound(s, e, lo, removed)
    ensures forall i | 0 <= i < |e| :: Locates(s, e[i].0, e[i].1) && lo <= e[i].0 && removed < e[i].1
    ensures forall i, j | 0 <= i < j < |e| :: e[i].0 < e[j].0 && e[i].1 < e[j].1
    ensures |e| > 0 ==> e[|e| - 1].1 == PairsWithin(s, |s|)
    decreases |e|
  {
    if |e| > 0 {
      var t := e[1..];
      SoundEntries(s, t, e[0].0 + 1, e[0].1);
      forall i | 0 < i < |e| ensures e[i] == t[i - 1] {}
      if |e| > 1 {
        assert e[|e| - 1] == t[|t| - 1];
      }
    }
  }

  /** The counts behind one round of the scan, which finds the run [a, b). */
  lemma ShiftsFromRound(s: seq<char>, from: nat, removed: nat, a: nat, b: nat)
    requires from <= |s| && removed == PairsWithin(s, from)
    requires from > 0 ==> !NPair(s, from - 1)
    requires a == NextPair(s, from) < |s| && b == RunEnd(s, a)
    ensures a + 2 <= b && PairsWithin(s, b) == removed + (b - a) - 1
    ensures Locates(s, a - removed, PairsWithin(s, b)) && !NPair(s, b - 1)
  {
    assert NPair(s, a);
    PairsWithinFlat(s, from, a + 1);
    PairsWithinRun(s, a, b);
  }

  /** Sound entries stay sound with one more entry in front that meets the same conditions. */
  lemma SoundCons(s: seq<char>, h: (nat, nat), rest: seq<(nat, nat)>, lo: int, removed: nat)
    requires Locates(s, h.0, h.1) && lo <= h.0 && removed < h.1
    requires rest == [] ==> h.1 == PairsWithin(s, |s|)
    requires Sound(s, rest, h.0 + 1, h.1)
    ensures Sound(s, [h] + rest, lo, removed)
  {
    assert ([h] + rest)[1..] == rest;
  }

  lemma {:induction false} EntriesSound(s: seq<char>, from: nat, removed: nat)
    requires from <= |s| && removed == PairsWithin(s, from)
    requires from > 0 ==> !NPair(s, from - 1)
    ensures Sound(s, Entries(s, from, removed), from - removed, removed)
    ensures Entries(s, from, removed) == [] <==> NextPair(s, from) == |s|
    decreases |s| - from
  {
    var a := NextPair(s, from);
    if a < |s| {
      var b := RunEnd(s, a);
      var total := removed + (b - a) - 1;
      var rest := Entries(s, b, total);
      assert Entries(s, from, removed) == [(a - removed, total)] + rest;
      ShiftsFromRound(s, from, removed, a, b);
      EntriesSound(s, b, total);
      if rest == [] {
        PairsWithinFlat(s, b, |s|);
      }
      SoundCons(s, (a - removed, total), rest, from - removed, removed);
    } else {
      assert Entries(s, from, removed) == [];
    }
  }

  /** The collapsed sequence keeps the first `a` characters when no pair starts before a. */
  lemma {:induction false} SqueezeNoPairs(x: seq<char>)
    requires forall k: nat :: !NPair(x, k)
    ensures Squeeze(x) == x
    decreases |x|
  {
    if |x| > 1 {
      var p := x[..|x| - 1];
      forall k: nat ensures !NPair(p, k) {
        assert NPair(p, k) ==> NPair(x, k);
      }
      SqueezeNoPairs(p);
      assert !NPair(x, |x| - 2);
    }
  }

  /** Collapsing splits at a boundary that no run of Ns crosses. */
  lemma {:induction false} SqueezeConcat(x: seq<char>, y: seq<char>)
    requires !(|x| > 0 && |y| > 0 && x[|x| - 1] == UnknownBase && y[0] == UnknownBase)
    ensures Squeeze(x + y) == Squeeze(x) + Squeeze(y)
    decreases |y|
  {
    var z := x + y;
    if |y| == 0 {
      assert z == x;
    } else if |x| == 0 {
      assert z == y;
    } else if |y| == 1 {
      assert z[..|z| - 1] == x;
      assert !NPair(z, |z| - 2);
    } else {
      var y' := y[..|y| - 1];
      assert z[..|z| - 1] == x + y';
      assert NPair(z, |z| - 2) == NPair(y, |y| - 2);
      SqueezeConcat(x, y');
      SqueezeUnfold(z, x + y');
      SqueezeUnfold(y, y');
      if !NPair(y, |y| - 2) {
        var a, b, c := Squeeze(x), Squeeze(y'), [y[|y| - 1]];
        assert a + b + c == a + (b + c);
      }
    }
  }

  /** One step of Squeeze, with the prefix named by the caller. */
  lemma SqueezeUnfold(z: seq<char>, p: seq<char>)
    requires |z| > 1 && p == z[..|z| - 1]
    ensures Squeeze(z) == if NPair(z, |z| - 2) then Squeeze(p) else Squeeze(p) + [z[|z| - 1]]
  {
  }

  /** Ns removed from a prefix are removed from the whole: the collapsed prefix is a prefix. */
  lemma {:induction false} SqueezePrefix(s: seq<char>, i: nat)
    requires i <= |s|
    ensures Squeeze(s[..i]) <= Squeeze(s)
    decreases |s|
  {
    if i == |s| {
      assert s[..i] == s;
    } else {
      var p := s[..|s| - 1];
      assert p[..i] == s[..i];
      SqueezePrefix(p, i);
    }
  }

  /** The entries of the whole scan locate runs, in increasing order. */
  lemma EntriesFacts(s: seq<char>, e: seq<(nat, nat)>)
    requires e == Entries(s, 0, 0)
    ensures forall i | 0 <= i < |e| :: Locates(s, e[i].0, e[i].1)
    ensures forall i, j | 0 <= i < j < |e| :: e[i].0 < e[j].0 && e[i].1 < e[j].1
  {
    EntriesSound(s, 0, 0);
    SoundEntries(s, e, 0, 0);
  }

  /** The scan finds nothing exactly when there is no pair; otherwise its last value counts all pairs. */
  lemma EntriesEnds(s: seq<char>)
    ensures var e := Entries(s, 0, 0);
      && (|e| > 0 ==> e[|e| - 1].1 == Pairs(s))
      && (|e| == 0 <==> NextPair(s, 0) == |s|)
  {
    EntriesSound(s, 0, 0);
    SoundEntries(s, Entries(s, 0, 0), 0, 0);
    AllPairs(s);
  }

  lemma AllPairs(s: seq<char>)
    ensures Pairs(s) == PairsWithin(s, |s|)
  {
    PairsOfPrefix(s, |s|);
    assert s[..|s|] == s;
  }

  /** The shift map holds exactly the entries of the scan. */
  lemma ShiftsAreEntries(s: seq<char>)
    ensures var e, m := Entries(s, 0, 0), Shifts(s);
      && (forall i | 0 <= i < |e| :: e[i].0 in m && m[e[i].0] == e[i].1)
      && (forall k | k in m :: exists i :: 0 <= i < |e| && e[i].0 == k)
  {
    var e := Entries(s, 0, 0);
    EntriesFacts(s, e);
    assert forall i, j | 0 <= i < j < |e| :: e[i].0 < e[j].0 && e[i].1 < e[j].1;
    assert KeysIncrease(e);
    MapOfIncreasing(e);
  }

  /** Each entry of the shift map locates a run of Ns. */
  lemma ShiftsEntryLocates(s: seq<char>, k: nat)
    requires k in Shifts(s)
    ensures Locates(s, k, Shifts(s)[k])
  {
    var e := Entries(s, 0, 0);
    ShiftsAreEntries(s);
    EntriesFacts(s, e);
    var i :| 0 <= i < |e| && e[i].0 == k;
    assert Locates(s, e[i].0, e[i].1);
  }

  /**
   * Every key of the shift map is the position of an N in the collapsed
   * sequence, and its value is the number of Ns removed up to the first
   * non-N character after that N in the input.
   */
  lemma ShiftsLocateNs(s: seq<char>, k: nat)
    requires k in Shifts(s)
    ensures var v, r := Shifts(s)[k], Squeeze(s);
      && k < |r| && r[k] == UnknownBase
      && k + v + 1 <= |s| && v == Pairs(s[..k + v + 1])
      && (k + v + 1 < |s| ==> s[k + v + 1] != UnknownBase)
  {
    ShiftsEntryLocates(s, k);
    var b := k + Shifts(s)[k] + 1;
    PairsOfPrefix(s, b);
    SqueezePrefix(s, b);
  }

  /** A run of Ns that starts before a ends by a when the character before a is not N. */
  lemma RunEndsBefore(s: seq<char>, a': nat, a: nat)
    requires a' < a <= |s| && s[a'] == UnknownBase && s[a - 1] != UnknownBase
    ensures RunEnd(s, a') < a
  {
  }

  /** No pair lies between `from` and the run starting at a: the pairs before a are those before from. */
  lemma PairsBeforeRun(s: seq<char>, from: nat, a: nat)
    requires from <= a && a + 1 < |s|
    requires forall k | from <= k < a :: !NPair(s, k)
    requires from > 0 ==> !NPair(s, from - 1)
    requires a == 0 || s[a - 1] != UnknownBase
    ensures PairsWithin(s, a) == PairsWithin(s, from)
  {
    PairsWithinFlat(s, from, a + 1);
    if a > 0 {
      assert !NPair(s, a - 1);
    }
  }

  /** One round of the scan from `from`: the entry for the run found next, then the scan from its end. */
  lemma EntriesStep(s: seq<char>, from: nat, removed: nat, a: nat, b: nat)
    requires from <= |s| && removed == PairsWithin(s, from)
    requires from > 0 ==> !NPair(s, from - 1)
    requires a == NextPair(s, from) < |s| && b == RunEnd(s, a)
    ensures a < b && !NPair(s, b - 1) && PairsWithin(s, b) >= removed
    ensures Entries(s, from, removed) == [(a - removed, PairsWithin(s, b))] + Entries(s, b, PairsWithin(s, b))
  {
    ShiftsFromRound(s, from, removed, a, b);
  }

  /** The scan from `from` emplaces an entry for every run of two or more Ns that starts at or after it. */
  lemma {:induction false} EntriesCover(s: seq<char>, from: nat, removed: nat, a: nat)
    requires NPair(s, a) && (a == 0 || s[a - 1] != UnknownBase)
    requires from <= a && removed == PairsWithin(s, from)
    requires from > 0 ==> !NPair(s, from - 1)
    ensures (a - PairsWithin(s, a), PairsWithin(s, RunEnd(s, a))) in Entries(s, from, removed)
    decreases |s| - from
  {
    var a' := NextPair(s, from);
    var b := RunEnd(s, a');
    EntriesStep(s, from, removed, a', b);
    if a' == a {
      PairsBeforeRun(s, from, a);
    } else {
      RunEndsBefore(s, a', a);
      EntriesCover(s, b, PairsWithin(s, b), a);
    }
  }

  /**
   * Every run of two or more Ns has its entry in the shift map: the key is the
   * run's first position less the Ns removed before it, the value the Ns
   * removed up to the run's end.
   */
  lemma ShiftsCoverRuns(s: seq<char>, a: nat)
    requires NPair(s, a) && (a == 0 || s[a - 1] != UnknownBase)
    ensures a - PairsWithin(s, a) in Shifts(s)
    ensures Shifts(s)[a - PairsWithin(s, a)] == PairsWithin(s, RunEnd(s, a))
  {
    var e := Entries(s, 0, 0);
    var x := (a - PairsWithin(s, a), PairsWithin(s, RunEnd(s, a)));
    EntriesCover(s, 0, 0, a);
    var i :| 0 <= i < |e| && e[i] == x;
    ShiftsAreEntries(s);
  }

  /** Keys and values of the shift map increase together. */
  lemma ShiftsIncrease(s: seq<char>, k1: nat, k2: nat)
    requires k1 in Shifts(s) && k2 in Shifts(s) && k1 < k2
    ensures Shifts(s)[k1] < Shifts(s)[k2]
  {
    var e := Entries(s, 0, 0);
    ShiftsAreEntries(s);
    EntriesFacts(s, e);
    var i :| 0 <= i < |e| && e[i].0 == k1;
    var j :| 0 <= j < |e| && e[j].0 == k2;
    assert !(j <= i);
  }

  /** The value at the largest key is the number of Ns removed in all. */
  lemma ShiftsLastIsRemoved(s: seq<char>)
    requires Shifts(s) != map[]
    ensures exists k | k in Shifts(s) :: Shifts(s)[k] == |s| - |Squeeze(s)| && forall k' | k' in Shifts(s) :: k' <= k
  {
    var e, m := Entries(s, 0, 0), Shifts(s);
    ShiftsAreEntries(s);
    EntriesFacts(s, e);
    EntriesEnds(s);
    assert e != [];
    var k := e[|e| - 1].0;
    forall k' | k' in m ensures k' <= k {
      var i :| 0 <= i < |e| && e[i].0 == k';
    }
    assert m[k] == |s| - |Squeeze(s)|;
  }

  /** The shift map is empty exactly when no two neighbouring characters are both N. */
  lemma ShiftsEmptyIff(s: seq<char>)
    ensures Shifts(s) == map[] <==> forall k: nat :: !NPair(s, k)
  {
    var e, m := Entries(s, 0, 0), Shifts(s);
    ShiftsAreEntries(s);
    EntriesEnds(s);
    if m == map[] {
      assert e == [];
      forall k: nat ensures !NPair(s, k) {
        if k < |s| {
          assert NextPair(s, 0) == |s|;
        }
      }
    }
  }

  /** Characters other than N, in order. */
  function NonNs(x: seq<char>): (r: seq<char>)
    ensures UnknownBase !in r
  {
    if |x| == 0 then []
    else NonNs(x[..|x| - 1]) + (if x[|x| - 1] == UnknownBase then [] else [x[|x| - 1]])
  }

  /** Collapsing removes only Ns: the other characters keep their order. */
  lemma {:induction false} SqueezeKeepsNonNs(x: seq<char>)
    ensures NonNs(Squeeze(x)) == NonNs(x)
    decreases |x|
  {
    if |x| > 1 {
      var p := x[..|x| - 1];
      SqueezeKeepsNonNs(p);
      if !NPair(x, |x| - 2) {
        var q := Squeeze(p) + [x[|x| - 1]];
        assert q[..|q| - 1] == Squeeze(p);
      }
    }
  }

  /** One unfolding of the scan, for the run [a, b) it finds. */
  lemma EntriesUnfold(s: seq<char>, from: nat, removed: nat, a: nat, b: nat)
    requires from <= |s| && removed <= from
    requires a == NextPair(s, from) < |s| && b == RunEnd(s, a)
    ensures removed <= a && removed + (b - a) - 1 <= b
    ensures Entries(s, from, removed) == [(a - removed, removed + (b - a) - 1)] + Entries(s, b, removed + (b - a) - 1)
  {
  }

  /** The map holds the entries emplaced so far. */
  predicate Built(shifts: map<nat, nat>, done: seq<(nat, nat)>)
  {
    shifts == MapOf(done) && (|shifts| == 0 <==> |done| == 0)
  }

  lemma BuiltStep(shifts: map<nat, nat>, done: seq<(nat, nat)>, e: (nat, nat))
    requires Built(shifts, done)
    ensures Built(Emplace(shifts, e), done + [e])
  {
    MapOfSnoc(done, e);
    assert e.0 in Emplace(shifts, e);
  }

  /** The entries so far, followed by those of the rest of the scan, are the whole scan. */
  predicate Scanned(s: seq<char>, done: seq<(nat, nat)>, first: nat, removed: nat)
    requires first <= |s| && removed <= first
  {
    Entries(s, 0, 0) == done + Entries(s, first, removed)
  }

  lemma ScanStep(s: seq<char>, done: seq<(nat, nat)>, first: nat, removed: nat, a: nat, b: nat, x: (nat, nat))
    requires first <= |s| && removed <= first && Scanned(s, done, first, removed)
    requires a == NextPair(s, first) < |s| && b == RunEnd(s, a)
    requires removed <= a && x == (a - removed, removed + (b - a) - 1)
    ensures first < b && x.1 <= b
    ensures Scanned(s, done + [x], b, x.1)
  {
    EntriesUnfold(s, first, removed, a, b);
    assert done + ([x] + Entries(s, b, x.1)) == (done + [x]) + Entries(s, b, x.1);
  }

  lemma ScanEnd(s: seq<char>, done: seq<(nat, nat)>, first: nat, removed: nat)
    requires first <= |s| && removed <= first && Scanned(s, done, first, removed)
    requires NextPair(s, first) == |s|
    ensures done == Entries(s, 0, 0)
  {
    assert Entries(s, first, removed) == [];
  }

  /**
   * collapse_ns with the position of each run taken in the collapsed
   * sequence: after each run the position also moves past the one N the run
   * keeps. The erase from the first key on is done on values.
   */
  method CollapseNs(s: seq<char>) returns (collapsed: seq<char>, shifts: map<nat, nat>)
    ensures shifts == Shifts(s)
    ensures collapsed == Squeeze(s)
  {
    shifts := map[];
    ghost var done: seq<(nat, nat)> := [];
    var first: nat, position: nat, removed: nat := 0, 0, 0;
    var start: nat := 0;
    while first < |s|
      invariant first <= |s| && removed <= first && position + removed == first
      invariant Scanned(s, done, first, removed)
      invariant Built(shifts, done)
      invariant |done| == 0 ==> first == 0 && removed == 0
      invariant |done| > 0 ==> start == done[0].0
      decreases |s| - first
    {
      var a := NextPair(s, first);
      if a == |s| {
        break;
      }
      var b := RunEnd(s, a);
      position := position + (a - first);
      var total: nat := removed + (b - a) - 1;
      if |shifts| == 0 {
        start := a;
      }
      ScanStep(s, done, first, removed, a, b, (position, total));
      BuiltStep(shifts, done, (position, total));
      shifts := Emplace(shifts, (position, total));
      done := done + [(position, total)];
      first, removed, position := b, total, position + 1;
    }
    ScanEnd(s, done, first, removed);
    if |shifts| == 0 {
      collapsed := s;
      SqueezeWithoutEntries(s);
    } else {
      SqueezeFromFirstEntry(s);
      collapsed := s[..start] + Squeeze(s[start..]);
    }
  }

  lemma SqueezeWithoutEntries(s: seq<char>)
    requires |Entries(s, 0, 0)| == 0
    ensures Squeeze(s) == s
  {
    assert NextPair(s, 0) == |s|;
    SqueezeNoPairs(s);
  }

  /** Collapsing leaves everything before the first run of Ns as it is. */
  lemma SqueezeFromFirstEntry(s: seq<char>)
    requires |Entries(s, 0, 0)| > 0
    ensures Entries(s, 0, 0)[0].0 < |s|
    ensures Squeeze(s) == s[..Entries(s, 0, 0)[0].0] + Squeeze(s[Entries(s, 0, 0)[0].0..])
  {
    var a := NextPair(s, 0);
    EntriesUnfold(s, 0, 0, a, RunEnd(s, a));
    SqueezeAfterPairFree(s, a);
  }

  lemma SqueezeAfterPairFree(s: seq<char>, a: nat)
    requires a < |s| && forall k: nat | k < a :: !NPair(s, k)
    ensures Squeeze(s) == s[..a] + Squeeze(s[a..])
  {
    var p, q := s[..a], s[a..];
    forall k: nat ensures !NPair(p, k) {
      assert NPair(p, k) ==> NPair(s, k);
    }
    SqueezeNoPairs(p);
    assert a > 0 ==> !NPair(s, a - 1);
    assert a > 0 ==> p[a - 1] == s[a - 1] && q[0] == s[a];
    assert s == p + q;
    SqueezeConcat(p, q);
  }

  /** The two runs of "ANNANNA": [1, 3) and [4, 6). */
  lemma ExampleRuns()
    ensures NextPair("ANNANNA", 0) == 1 && RunEnd("ANNANNA", 1) == 3
    ensures NextPair("ANNANNA", 3) == 4 && RunEnd("ANNANNA", 4) == 6
    ensures NextPair("ANNANNA", 6) == 7
  {
    var s := "ANNANNA";
    assert NPair(s, 1) && NPair(s, 4) && !NPair(s, 0) && !NPair(s, 3);
  }

  /** "ANNANNA" collapses to "ANANA". */
  lemma ExampleSqueeze()
    ensures Squeeze("ANNANNA") == "ANANA"
  {
    var s := "ANNANNA";
    assert s[..6] == "ANNANN";
    assert "ANNANN"[..5] == "ANNAN";
    assert "ANNAN"[..4] == "ANNA";
    assert "ANNA"[..3] == "ANN";
    assert "ANN"[..2] == "AN";
    assert "AN"[..1] == "A";
    assert Squeeze("AN") == "AN";
    assert Squeeze("ANN") == "AN";
    assert Squeeze("ANNA") == "ANA";
    assert Squeeze("ANNAN") == "ANAN";
    assert Squeeze("ANNANN") == "ANAN";
  }

  /**
   * "ANNANNA" collapses to "ANANA", whose Ns are at 1 and 3. The map as written
   * puts the second run at 2, where the collapsed sequence has an A.
   */
  lemma ShiftsAsWrittenCounterexample()
    ensures Squeeze("ANNANNA") == "ANANA" && Squeeze("ANNANNA")[2] != UnknownBase
    ensures ShiftsAsWritten("ANNANNA") == map[1 := 1, 2 := 2]
    ensures Shifts("ANNANNA") == map[1 := 1, 3 := 2]
  {
    ExampleSqueeze();
    ExampleEntries();
    ExampleMap(1, 1, 3, 2);
    ExampleMap(1, 1, 2, 2);
  }

  lemma ExampleEntries()
    ensures Entries("ANNANNA", 0, 0) == [(1, 1), (3, 2)]
    ensures EntriesAsWritten("ANNANNA", 0, 0, 0) == [(1, 1), (2, 2)]
  {
    var s := "ANNANNA";
    ExampleRuns();
    assert Entries(s, 6, 2) == [] && EntriesAsWritten(s, 6, 2, 2) == [];
    assert Entries(s, 3, 1) == [(3, 2)];
    assert EntriesAsWritten(s, 3, 1, 1) == [(2, 2)];
  }

  lemma ExampleMap(k1: nat, v1: nat, k2: nat, v2: nat)
    requires k1 < k2
    ensures MapOf([(k1, v1), (k2, v2)]) == map[k1 := v1, k2 := v2]
  {
    var e: seq<(nat, nat)> := [(k1, v1), (k2, v2)];
    var first: seq<(nat, nat)> := [(k1, v1)];
    assert e[..1] == first;
    assert first[..0] == [];
    assert MapOf(first) == map[k1 := v1];
    assert MapOf(e) == Emplace(map[k1 := v1], (k2, v2));
  }
}
