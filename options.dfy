/**
 * The command-line layer's token parsers, printers and validation checks. An
 * option map holds, for each option given or defaulted, its typed value and
 * whether it came from the default; `vm.count(o) == 1` is `o in vm`. A check
 * that throws in C++ returns `Err` here; a parser that throws returns `Err`
 * with the token and the option's name, as po::validation_error carries them.
 */
module Options {
  import opened Outcome
  import opened Decimal

  // ------------------------------------------------------------ enum tokens

  datatype ParseError = InvalidOptionValue(token: string, option: string)

  datatype RefCallType = Positional | Blocked

  /** operator>>(RefCallType): "positional" or "blocked"; any other token is rejected. */
  function ParseRefCallType(token: string): (r: Result<RefCallType, ParseError>)
    ensures r.Ok? ==> PrintRefCallType(r.value) == token
    ensures r.Err? ==> r.error == InvalidOptionValue(token, "refcalls")
  {
    if token == "positional" then Ok(Positional)
    else if token == "blocked" then Ok(Blocked)
    else Err(InvalidOptionValue(token, "refcalls"))
  }

  /** operator<<(RefCallType). */
  function PrintRefCallType(t: RefCallType): string
  {
    match t
    case Positional => "positional"
    case Blocked => "blocked"
  }

  lemma RefCallTypeRoundTrip(t: RefCallType)
    ensures ParseRefCallType(PrintRefCallType(t)) == Ok(t)
  {
  }

  datatype PhasingLevel = Minimal | Conservative | Aggressive

  /** operator>>(PhasingLevel): "minimal", "conservative" or "aggressive". */
  function ParsePhasingLevel(token: string): (r: Result<PhasingLevel, ParseError>)
    ensures r.Ok? ==> PrintPhasingLevel(r.value) == token
    ensures r.Err? ==> r.error == InvalidOptionValue(token, "phasing-level")
  {
    if token == "minimal" then Ok(Minimal)
    else if token == "conservative" then Ok(Conservative)
    else if token == "aggressive" then Ok(Aggressive)
    else Err(InvalidOptionValue(token, "phasing-level"))
  }

  /** operator<<(PhasingLevel). */
  function PrintPhasingLevel(l: PhasingLevel): string
  {
    match l
    case Minimal => "minimal"
    case Conservative => "conservative"
    case Aggressive => "aggressive"
  }

  lemma PhasingLevelRoundTrip(l: PhasingLevel)
    ensures ParsePhasingLevel(PrintPhasingLevel(l)) == Ok(l)
  {
  }

  datatype ContigOutputOrder =
    | LexicographicalAscending
    | LexicographicalDescending
    | ContigSizeAscending
    | ContigSizeDescending
    | AsInReferenceIndex
    | AsInReferenceIndexReversed
    | Unspecified

  /**
   * operator>>(ContigOutputOrder): the two reference orders are read from
   * "asInReference" and "asInReferenceReversed".
   */
  function ParseContigOutputOrder(token: string): (r: Result<ContigOutputOrder, ParseError>)
    ensures r.Ok? ==> PrintContigOutputOrder(r.value) == token
    ensures r.Err? ==> r.error == InvalidOptionValue(token, "contig-output-order")
  {
    if token == "lexicographicalAscending" then Ok(LexicographicalAscending)
    else if token == "lexicographicalDescending" then Ok(LexicographicalDescending)
    else if token == "contigSizeAscending" then Ok(ContigSizeAscending)
    else if token == "contigSizeDescending" then Ok(ContigSizeDescending)
    else if token == "asInReference" then Ok(AsInReferenceIndex)
    else if token == "asInReferenceReversed" then Ok(AsInReferenceIndexReversed)
    else if token == "unspecified" then Ok(Unspecified)
    else Err(InvalidOptionValue(token, "contig-output-order"))
  }

  /**
   * operator<<(ContigOutputOrder) as written: the two reference orders print
   * their enumerator names, "asInReferenceIndex" and "asInReferenceIndexReversed".
   */
  function PrintContigOutputOrderAsWritten(o: ContigOutputOrder): string
  {
    match o
    case LexicographicalAscending => "lexicographicalAscending"
    case LexicographicalDescending => "lexicographicalDescending"
    case ContigSizeAscending => "contigSizeAscending"
    case ContigSizeDescending => "contigSizeDescending"
    case AsInReferenceIndex => "asInReferenceIndex"
    case AsInReferenceIndexReversed => "asInReferenceIndexReversed"
    case Unspecified => "unspecified"
  }

  /** The printer with the names the parser reads. */
  function PrintContigOutputOrder(o: ContigOutputOrder): string
  {
    match o
    case LexicographicalAscending => "lexicographicalAscending"
    case LexicographicalDescending => "lexicographicalDescending"
    case ContigSizeAscending => "contigSizeAscending"
    case ContigSizeDescending => "contigSizeDescending"
    case AsInReferenceIndex => "asInReference"
    case AsInReferenceIndexReversed => "asInReferenceReversed"
    case Unspecified => "unspecified"
  }

  /**
   * As written, five orders round-trip, but the two reference orders print
   * names the parser rejects; the default order, AsInReferenceIndex, is one of them.
   */
  lemma ContigOutputOrderAsWritten(o: ContigOutputOrder)
    ensures o != AsInReferenceIndex && o != AsInReferenceIndexReversed
      ==> ParseContigOutputOrder(PrintContigOutputOrderAsWritten(o)) == Ok(o)
    ensures o == AsInReferenceIndex || o == AsInReferenceIndexReversed
      ==> ParseContigOutputOrder(PrintContigOutputOrderAsWritten(o)).Err?
  {
  }

  /** With the corrected printer every order round-trips. */
  lemma ContigOutputOrderRoundTrip(o: ContigOutputOrder)
    ensures ParseContigOutputOrder(PrintContigOutputOrder(o)) == Ok(o)
  {
  }

  // ---------------------------------------------------------- ContigPloidy

  /** A ploidy for a contig, optionally for one sample only. */
  datatype ContigPloidy = ContigPloidy(sample: Option<string>, contig: string, ploidy: nat)

  /** The index of the first c in s, or |s| when there is none. */
  function FirstIndex(s: string, c: char): (i: nat)
    ensures i <= |s|
    ensures i < |s| ==> s[i] == c
    ensures forall k | 0 <= k < i :: s[k] != c
  {
    if |s| == 0 then 0 else if s[0] == c then 0 else 1 + FirstIndex(s[1..], c)
  }

  /** `[^=]+=(\d+)` matches all of t. */
  predicate ContigAndPloidy(t: string)
  {
    var e := FirstIndex(t, '=');
    0 < e < |t| - 1 && AllDigits(t[e + 1..])
  }

  lemma Rejoin(t: string, i: nat)
    requires i < |t|
    ensures t == t[..i] + [t[i]] + t[i + 1..]
  {
  }

  /**
   * Reads `contig=N`, with `sample:` in front when the token has a ':' and what
   * follows its first ':' is itself `contig=N`; otherwise the whole token must
   * be `contig=N`. This is the only match of `(?:([^:]*):)?([^=]+)=(\d+)` with
   * the optional group tried first.
   */
  function ContigPloidyParts(token: string): (r: Option<(string, string, string)>)
    ensures r.Some? ==> var (sample, contig, digits) := r.value;
      contig != [] && '=' !in contig && digits != [] && AllDigits(digits)
      && ':' !in sample
      && (token == sample + ":" + contig + "=" + digits
          || (sample == [] && token == contig + "=" + digits))
  {
    var c := FirstIndex(token, ':');
    if c < |token| && ContigAndPloidy(token[c + 1..]) then
      var rest := token[c + 1..];
      var e := FirstIndex(rest, '=');
      Rejoin(token, c);
      Rejoin(rest, e);
      Some((token[..c], rest[..e], rest[e + 1..]))
    else if ContigAndPloidy(token) then
      var e := FirstIndex(token, '=');
      Rejoin(token, e);
      Some(([], token[..e], token[e + 1..]))
    else None
  }

  /**
   * operator>>(ContigPloidy): parses the token into `result`, whose sample is
   * replaced only when the text before the first ':' is non-empty; the contig
   * and the ploidy are always replaced. A token that does not match is rejected.
   */
  function ReadContigPloidy(token: string, result: ContigPloidy): (r: Result<ContigPloidy, ParseError>)
    ensures r.Err? <==> ContigPloidyParts(token).None?
    ensures r.Err? ==> r.error == InvalidOptionValue(token, "contig-ploidies")
    ensures r.Ok? ==> r.value.contig != [] && '=' !in r.value.contig
    ensures r.Ok? ==> (r.value.sample == result.sample
      || (r.value.sample.Some? && r.value.sample.value != [] && ':' !in r.value.sample.value))
    ensures r.Ok? ==> var (sample, contig, digits) := ContigPloidyParts(token).value;
      && r.value.contig == contig
      && r.value.ploidy == Value(digits)
      && (sample != [] ==> r.value.sample == Some(sample))
      && (sample == [] ==> r.value.sample == result.sample)
  {
    match ContigPloidyParts(token)
    case None => Err(InvalidOptionValue(token, "contig-ploidies"))
    case Some((sample, contig, digits)) =>
      Ok(ContigPloidy(if |sample| > 0 then Some(sample) else result.sample, contig, Value(digits)))
  }

  /** operator<<(ContigPloidy): `sample:contig=N`, or `contig=N` without a sample. */
  function WriteContigPloidy(cp: ContigPloidy): string
  {
    (match cp.sample case Some(s) => s + ":" case None => []) + cp.contig + "=" + Show(cp.ploidy)
  }

  /** What can be written and read back unchanged. */
  predicate Readable(cp: ContigPloidy)
  {
    && cp.contig != [] && '=' !in cp.contig
    && (cp.sample.None? ==> ':' !in cp.contig)
    && (cp.sample.Some? ==> cp.sample.value != [] && ':' !in cp.sample.value)
  }

  lemma FirstIndexAfter(a: string, c: char, b: string)
    requires c !in a
    ensures FirstIndex(a + [c] + b, c) == |a|
  {
    var s := a + [c] + b;
    assert s[|a|] == c;
  }

  lemma FirstIndexNone(a: string, c: char)
    requires c !in a
    ensures FirstIndex(a, c) == |a|
  {
  }

  /** `contig=N` is read back into its contig and the digits of N. */
  lemma TailParts(contig: string, digits: string)
    requires contig != [] && '=' !in contig && digits != [] && AllDigits(digits)
    ensures var tail := contig + "=" + digits; var e := FirstIndex(tail, '=');
      ContigAndPloidy(tail) && e == |contig| && tail[..e] == contig && tail[e + 1..] == digits
  {
    FirstIndexAfter(contig, '=', digits);
  }

  lemma PartsWithSample(sample: string, contig: string, digits: string)
    requires sample != [] && ':' !in sample
    requires contig != [] && '=' !in contig && digits != [] && AllDigits(digits)
    ensures ContigPloidyParts(sample + ":" + contig + "=" + digits) == Some((sample, contig, digits))
  {
    var tail := contig + "=" + digits;
    var token := sample + ":" + contig + "=" + digits;
    assert token == sample + [':'] + tail;
    FirstIndexAfter(sample, ':', tail);
    assert token[|sample| + 1..] == tail;
    assert token[..|sample|] == sample;
    TailParts(contig, digits);
  }

  lemma PartsWithoutSample(contig: string, digits: string)
    requires contig != [] && '=' !in contig && ':' !in contig && digits != [] && AllDigits(digits)
    ensures ContigPloidyParts(contig + "=" + digits) == Some(([], contig, digits))
  {
    var token := contig + "=" + digits;
    forall k | 0 <= k < |token|
      ensures token[k] != ':'
    {
      if k >= |contig| + 1 {
        assert token[k] == digits[k - |contig| - 1];
      }
    }
    FirstIndexNone(token, ':');
    TailParts(contig, digits);
  }

  /**
   * Writing a readable ContigPloidy and reading it back into any previous value
   * gives the written one.
   */
  lemma ContigPloidyRoundTrip(cp: ContigPloidy, previous: ContigPloidy)
    requires Readable(cp)
    requires cp.sample.None? ==> previous.sample.None?
    ensures ReadContigPloidy(WriteContigPloidy(cp), previous) == Ok(cp)
  {
    var digits := Show(cp.ploidy);
    ValueShow(cp.ploidy);
    match cp.sample
    case Some(s) =>
      assert WriteContigPloidy(cp) == s + ":" + cp.contig + "=" + digits;
      PartsWithSample(s, cp.contig, digits);
    case None =>
      assert WriteContigPloidy(cp) == cp.contig + "=" + digits;
      PartsWithoutSample(cp.contig, digits);
  }

  /**
   * Reading an accepted `sample:contig=N` token whose digits have no leading
   * zero, then writing the result, gives the token back.
   */
  lemma ContigPloidyWriteBack(token: string, previous: ContigPloidy)
    requires ContigPloidyParts(token).Some?
    requires var (sample, contig, digits) := ContigPloidyParts(token).value;
      sample != [] && (|digits| > 1 ==> digits[0] != '0')
    ensures ReadContigPloidy(token, previous).Ok?
    ensures WriteContigPloidy(ReadContigPloidy(token, previous).value) == token
  {
    var (sample, contig, digits) := ContigPloidyParts(token).value;
    ShowValue(digits);
  }

  // ---------------------------------------------------------- option map

  /** A stored option value, by the type the option is declared with. */
  datatype OptionValue = Int(i: int) | Text(s: string) | Path(p: string) | Texts(items: seq<string>) | Flag(b: bool)

  datatype Setting = Setting(value: OptionValue, defaulted: bool)

  type OptionMap = map<string, Setting>

  datatype OptionError =
    | InvalidValue(option: string, value: int, why: string)
    | BadCast(option: string)
    | MissingOption(option: string)
    | Conflicting(first: string, second: string)
    | MissingDependent(given: string, dependent: string)
    | MissingRequired(options: seq<string>)
    | SameRegionFiles
    | TrioParentsMissing
    | InvalidCaller(caller: string)

  type Check = Result<(), OptionError>

  /** vm.at(o).as<int>(): out_of_range when absent, bad_any_cast when not an int. */
  function AsInt(vm: OptionMap, o: string): (r: Result<int, OptionError>)
    ensures r.Ok? <==> o in vm && vm[o].value.Int?
    ensures r.Ok? ==> r.value == vm[o].value.i
  {
    if o !in vm then Err(MissingOption(o))
    else match vm[o].value
      case Int(i) => Ok(i)
      case _ => Err(BadCast(o))
  }

  /** vm.at(o).as<std::string>(). */
  function AsText(vm: OptionMap, o: string): (r: Result<string, OptionError>)
    ensures r.Ok? <==> o in vm && vm[o].value.Text?
    ensures r.Ok? ==> r.value == vm[o].value.s
    ensures r.Err? ==> r.error == if o in vm then BadCast(o) else MissingOption(o)
  {
    if o !in vm then Err(MissingOption(o))
    else match vm[o].value
      case Text(s) => Ok(s)
      case _ => Err(BadCast(o))
  }

  /** vm.at(o).as<fs::path>(). */
  function AsPath(vm: OptionMap, o: string): (r: Result<string, OptionError>)
    ensures r.Ok? <==> o in vm && vm[o].value.Path?
    ensures r.Ok? ==> r.value == vm[o].value.p
  {
    if o !in vm then Err(MissingOption(o))
    else match vm[o].value
      case Path(p) => Ok(p)
      case _ => Err(BadCast(o))
  }

  /** The option was given on the command line: present and not defaulted. */
  predicate Given(vm: OptionMap, o: string)
  {
    o in vm && !vm[o].defaulted
  }

  /** The option is absent, or holds an int no smaller than least. */
  predicate AtLeast(vm: OptionMap, o: string, least: int)
  {
    o in vm ==> vm[o].value.Int? && vm[o].value.i >= least
  }

  /** check_positive: a present option must hold an int that is not negative. */
  function CheckPositive(option: string, vm: OptionMap): (r: Check)
    ensures r.Ok? <==> AtLeast(vm, option, 0)
    ensures r.Err? ==> r.error == if vm[option].value.Int?
      then InvalidValue(option, vm[option].value.i, "must be positive") else BadCast(option)
  {
    if option in vm then
      match AsInt(vm, option)
      case Err(e) => Err(e)
      case Ok(value) => if value < 0 then Err(InvalidValue(option, value, "must be positive")) else Ok(())
    else Ok(())
  }

  /** check_strictly_positive: a present option must hold an int of at least 1. */
  function CheckStrictlyPositive(option: string, vm: OptionMap): (r: Check)
    ensures r.Ok? <==> AtLeast(vm, option, 1)
    ensures r.Err? ==> r.error == if vm[option].value.Int?
      then InvalidValue(option, vm[option].value.i, "must be greater than zero") else BadCast(option)
  {
    if option in vm then
      match AsInt(vm, option)
      case Err(e) => Err(e)
      case Ok(value) => if value < 1 then Err(InvalidValue(option, value, "must be greater than zero")) else Ok(())
    else Ok(())
  }

  /** conflicting_options: the two options may not both be given. */
  function ConflictingOptions(vm: OptionMap, opt1: string, opt2: string): (r: Check)
    ensures r.Ok? <==> !(Given(vm, opt1) && Given(vm, opt2))
    ensures r.Err? ==> r.error == Conflicting(opt1, opt2)
  {
    if opt1 in vm && !vm[opt1].defaulted && opt2 in vm && !vm[opt2].defaulted then Err(Conflicting(opt1, opt2))
    else Ok(())
  }

  /** Whether two options conflict does not depend on their order. */
  lemma ConflictingSymmetric(vm: OptionMap, opt1: string, opt2: string)
    ensures ConflictingOptions(vm, opt1, opt2).Ok? == ConflictingOptions(vm, opt2, opt1).Ok?
  {
  }

  /** option_dependency: a given option needs the dependent one given too. */
  function OptionDependency(vm: OptionMap, given: string, dependent: string): (r: Check)
    ensures r.Ok? <==> (Given(vm, given) ==> Given(vm, dependent))
    ensures r.Err? ==> r.error == MissingDependent(given, dependent)
  {
    if given in vm && !vm[given].defaulted && (dependent !in vm || vm[dependent].defaulted) then
      Err(MissingDependent(given, dependent))
    else Ok(())
  }

  /** check_reads_present: reads or a reads file is required. */
  function CheckReadsPresent(vm: OptionMap): (r: Check)
    ensures r.Ok? <==> "reads" in vm || "reads-file" in vm
    ensures r.Err? ==> r.error == MissingRequired(["reads", "reads-file"])
  {
    if "reads" !in vm && "reads-file" !in vm then Err(MissingRequired(["reads", "reads-file"])) else Ok(())
  }

  /**
   * check_region_files_consistent as written: both files are read as strings,
   * although both options are declared as paths.
   */
  function CheckRegionFilesAsWritten(vm: OptionMap): Check
  {
    if "regions-file" in vm && "skip-regions-file" in vm then
      match (AsText(vm, "regions-file"), AsText(vm, "skip-regions-file"))
      case (Err(e), _) => Err(e)
      case (_, Err(e)) => Err(e)
      case (Ok(a), Ok(b)) => if a == b then Err(SameRegionFiles) else Ok(())
    else Ok(())
  }

  /** Both region file options hold paths, as they are declared. */
  predicate RegionFilesArePaths(vm: OptionMap)
  {
    && ("regions-file" in vm ==> vm["regions-file"].value.Path?)
    && ("skip-regions-file" in vm ==> vm["skip-regions-file"].value.Path?)
  }

  /**
   * As written, giving both region files always fails with a bad cast, even
   * when the two paths differ.
   */
  lemma RegionFilesAsWrittenAlwaysFails(vm: OptionMap)
    requires RegionFilesArePaths(vm)
    requires "regions-file" in vm && "skip-regions-file" in vm
    ensures CheckRegionFilesAsWritten(vm) == Err(BadCast("regions-file"))
  {
  }

  /** The region files are not both given, or they are two different paths. */
  predicate RegionFilesDistinct(vm: OptionMap)
  {
    ("regions-file" in vm && "skip-regions-file" in vm) ==>
      (vm["regions-file"].value.Path? && vm["skip-regions-file"].value.Path?
       && vm["regions-file"].value.p != vm["skip-regions-file"].value.p)
  }

  /** check_region_files_consistent reading both files as the paths they are. */
  function CheckRegionFiles(vm: OptionMap): (r: Check)
    ensures r.Ok? <==> RegionFilesDistinct(vm)
    ensures RegionFilesArePaths(vm) && r.Err? ==> r.error == SameRegionFiles
  {
    if "regions-file" in vm && "skip-regions-file" in vm then
      match (AsPath(vm, "regions-file"), AsPath(vm, "skip-regions-file"))
      case (Err(e), _) => Err(e)
      case (_, Err(e)) => Err(e)
      case (Ok(a), Ok(b)) => if a == b then Err(SameRegionFiles) else Ok(())
    else Ok(())
  }

  /** The caller is a string, and the trio caller has both parents. */
  predicate TrioConsistent(vm: OptionMap)
  {
    "caller" in vm && vm["caller"].value.Text?
      && (vm["caller"].value.s == "trio" ==> "maternal-sample" in vm && "paternal-sample" in vm)
  }

  /** check_trio_consistent; it reads "caller" unguarded, so an absent caller fails. */
  function CheckTrioConsistent(vm: OptionMap): (r: Check)
    ensures r.Ok? <==> TrioConsistent(vm)
    ensures r.Err? && "caller" in vm && vm["caller"].value.Text? ==> r.error == TrioParentsMissing
  {
    match AsText(vm, "caller")
    case Err(e) => Err(e)
    case Ok(caller) =>
      if caller == "trio" && ("maternal-sample" !in vm || "paternal-sample" !in vm) then Err(TrioParentsMissing)
      else Ok(())
  }

  const ValidCallers: seq<string> := ["individual", "population", "cancer", "trio"]

  /** validate_caller: a present caller must be one of the four callers. */
  function ValidateCaller(vm: OptionMap): (r: Check)
    ensures r.Ok? <==> ("caller" in vm ==> vm["caller"].value.Text? && vm["caller"].value.s in ValidCallers)
    ensures r.Err? && vm["caller"].value.Text? ==> r.error == InvalidCaller(vm["caller"].value.s)
  {
    if "caller" in vm then
      match AsText(vm, "caller")
      case Err(e) => Err(e)
      case Ok(caller) => if caller !in ValidCallers then Err(InvalidCaller(caller)) else Ok(())
    else Ok(())
  }

  // ---------------------------------------------------------------- validate

  const PositiveIntOptions: seq<string> := [
    "threads", "mask-tails", "mask-soft-clipped-boundries",
    "min-mapping-quality", "good-base-quality", "min-good-bases", "min-read-length",
    "max-read-length", "min-base-quality", "min-supporting-reads", "max-variant-size",
    "num-assembler-fallbacks", "assembler-mask-base-quality", "min-prune", "max-holdout-depth"
  ]

  const StrictlyPositiveIntOptions: seq<string> := [
    "max-open-read-files", "downsample-above", "downsample-target", "assembler-bin-size",
    "assembler-fallback-interval", "organism-ploidy",
    "max-haplotypes", "haplotype-holdout-threshold", "haplotype-overflow"
  ]

  /** One of the two numeric checks: strictly positive when `strict`. */
  function CheckNumber(option: string, vm: OptionMap, strict: bool): Check
  {
    if strict then CheckStrictlyPositive(option, vm) else CheckPositive(option, vm)
  }

  /** The first failing numeric check over the options, in order. */
  function FirstFailure(options: seq<string>, vm: OptionMap, strict: bool): Check
  {
    if |options| == 0 then Ok(())
    else if CheckNumber(options[0], vm, strict).Err? then CheckNumber(options[0], vm, strict)
    else FirstFailure(options[1..], vm, strict)
  }

  lemma {:induction false} FirstFailureOkIff(options: seq<string>, vm: OptionMap, strict: bool)
    ensures FirstFailure(options, vm, strict).Ok?
      <==> forall o | o in options :: AtLeast(vm, o, if strict then 1 else 0)
  {
    if |options| > 0 {
      var least := if strict then 1 else 0;
      FirstFailureOkIff(options[1..], vm, strict);
      assert options == [options[0]] + options[1..];
      assert (forall o | o in options :: AtLeast(vm, o, least))
        <==> AtLeast(vm, options[0], least) && forall o | o in options[1..] :: AtLeast(vm, o, least);
    }
  }

  /** `a`, unless it succeeded, then `b`: the checks run in order and the first failure stops them. */
  function Then(a: Check, b: Check): (r: Check)
    ensures r.Ok? <==> a.Ok? && b.Ok?
  {
    if a.Err? then a else b
  }

  /** validate's checks, in the order it makes them. */
  function Validation(vm: OptionMap): Check
  {
    Then(ConflictingOptions(vm, "maternal-sample", "normal-sample"),
    Then(ConflictingOptions(vm, "paternal-sample", "normal-sample"),
    Then(FirstFailure(PositiveIntOptions, vm, false),
    Then(FirstFailure(StrictlyPositiveIntOptions, vm, true),
    Then(CheckReadsPresent(vm),
    Then(CheckRegionFiles(vm),
    Then(CheckTrioConsistent(vm), ValidateCaller(vm))))))))
  }

  /** What a valid option map is, option by option. */
  predicate Valid(vm: OptionMap)
  {
    && !(Given(vm, "maternal-sample") && Given(vm, "normal-sample"))
    && !(Given(vm, "paternal-sample") && Given(vm, "normal-sample"))
    && (forall o | o in PositiveIntOptions :: AtLeast(vm, o, 0))
    && (forall o | o in StrictlyPositiveIntOptions :: AtLeast(vm, o, 1))
    && ("reads" in vm || "reads-file" in vm)
    && RegionFilesDistinct(vm)
    && TrioConsistent(vm)
    && vm["caller"].value.s in ValidCallers
  }

  /** validate accepts exactly the valid option maps. */
  lemma ValidationOkIff(vm: OptionMap)
    ensures Validation(vm).Ok? <==> Valid(vm)
  {
    FirstFailureOkIff(PositiveIntOptions, vm, false);
    FirstFailureOkIff(StrictlyPositiveIntOptions, vm, true);
  }

  lemma FirstFailureAt(options: seq<string>, vm: OptionMap, strict: bool, i: nat)
    requires i < |options|
    ensures FirstFailure(options[i..], vm, strict)
      == if CheckNumber(options[i], vm, strict).Err? then CheckNumber(options[i], vm, strict)
         else FirstFailure(options[i + 1..], vm, strict)
  {
    assert options[i..][1..] == options[i + 1..];
  }

  /**
   * One of validate's loops: runs the numeric check over the options, stopping
   * at the first failure.
   */
  method CheckNumbers(options: seq<string>, vm: OptionMap, strict: bool) returns (r: Check)
    ensures r == FirstFailure(options, vm, strict)
  {
    for i := 0 to |options|
      invariant FirstFailure(options, vm, strict) == FirstFailure(options[i..], vm, strict)
    {
      FirstFailureAt(options, vm, strict, i);
      if strict {
        r := CheckStrictlyPositive(options[i], vm);
      } else {
        r := CheckPositive(options[i], vm);
      }
      if r.Err? {
        return;
      }
    }
    r := Ok(());
  }

  /**
   * validate: the conflicts, the numeric checks, reads, region files, trio
   * and caller, in that order; it fails with the first check that fails and
   * succeeds exactly on a valid option map.
   */
  method Validate(vm: OptionMap) returns (r: Check)
    ensures r == Validation(vm)
    ensures r.Ok? <==> Valid(vm)
  {
    ValidationOkIff(vm);
    r := ConflictingOptions(vm, "maternal-sample", "normal-sample");
    if r.Err? { return; }
    r := ConflictingOptions(vm, "paternal-sample", "normal-sample");
    if r.Err? { return; }
    r := CheckNumbers(PositiveIntOptions, vm, false);
    if r.Err? { return; }
    r := CheckNumbers(StrictlyPositiveIntOptions, vm, true);
    if r.Err? { return; }
    r := CheckReadsPresent(vm);
    if r.Err? { return; }
    r := CheckRegionFiles(vm);
    if r.Err? { return; }
    r := CheckTrioConsistent(vm);
    if r.Err? { return; }
    r := ValidateCaller(vm);
  }
}
