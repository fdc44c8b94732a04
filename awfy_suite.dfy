/**
 * The "Are we fast yet?" (AWFY) benchmark suite as run on Espresso: the table
 * of per-benchmark workload parameters, the `mx awfy` shortcut command, the
 * reading of the run arguments and the argument vector handed to the AWFY
 * `Harness` main class.
 */
module AwfySuite {
  import opened Wrappers
  import opened Strings

  /** `_awfyConfig`: each benchmark's workload parameter, in the order the table lists them. */
  const AwfyConfig: seq<(string, nat)> := [
    ("DeltaBlue", 12000),
    ("Richards", 100),
    ("Json", 100),
    ("CD", 250),
    ("Havlak", 1500),
    ("Bounce", 1500),
    ("List", 1500),
    ("Mandelbrot", 500),
    ("NBody", 250000),
    ("Permute", 1000),
    ("Queens", 1000),
    ("Sieve", 3000),
    ("Storage", 1000),
    ("Towers", 600)
  ]

  /** `awfyIterations()`: the iteration count for a slow VM. */
  const AwfyIterations: nat := 100

  /** `str(100)`. */
  lemma DefaultIterationsNumeral()
    ensures NatToString(AwfyIterations) == "100"
  {
    assert NatToString(1) == "1";
    assert NatToString(10) == NatToString(1) + [DigitChar(0)];
    assert NatToString(100) == NatToString(10) + [DigitChar(0)];
  }

  const SingleBenchmarkPerVm: string := "Suite can only run a single benchmark per VM instance."
  const ExactlyOneBenchmark: string := "Must specify exactly one benchmark to run."

  /** The ways the suite's argument handling stops instead of returning. */
  datatype AwfyError =
    | Abort(message: string)              // mx.abort
    | UnknownBenchmark(name: string)      // KeyError on the parameter table
    | ExpectedOneArgument(option: string) // argparse exits: an option without its value

  /** The names of a table's entries, in order. */
  function Names(t: seq<(string, nat)>): (ks: seq<string>)
    ensures |ks| == |t| && forall i :: 0 <= i < |t| ==> ks[i] == t[i].0
  {
    seq(|t|, i requires 0 <= i < |t| => t[i].0)
  }

  /** The dict a literal with these entries builds, entry by entry. */
  function DictOf(t: seq<(string, nat)>): (m: map<string, nat>)
    ensures |m| <= |t|
    decreases |t|
  {
    if t == [] then map[] else DictOf(t[..|t| - 1])[t[|t| - 1].0 := t[|t| - 1].1]
  }

  /** A dict literal's keys are the names of its entries. */
  lemma {:induction false} DictOfKeys(t: seq<(string, nat)>)
    ensures forall name :: name in DictOf(t) <==> name in Names(t)
    decreases |t|
  {
    if t != [] {
      var n := |t| - 1;
      DictOfKeys(t[..n]);
      assert Names(t) == Names(t[..n]) + [t[n].0];
    }
  }

  /** In a dict literal, a name maps to the value of its last entry. */
  lemma {:induction false} DictOfLastWins(t: seq<(string, nat)>, i: nat)
    requires i < |t| && forall j :: i < j < |t| ==> t[j].0 != t[i].0
    ensures t[i].0 in DictOf(t) && DictOf(t)[t[i].0] == t[i].1
    decreases |t|
  {
    var n := |t| - 1;
    if i < n {
      var init := t[..n];
      assert init[i] == t[i];
      assert forall j :: i < j < n ==> init[j] == t[j];
      DictOfLastWins(init, i);
    }
  }

  lemma AwfyConfigNamesDistinct()
    ensures forall i, j :: 0 <= i < j < |AwfyConfig| ==> AwfyConfig[i].0 != AwfyConfig[j].0
  {
    // The first two letters already tell the names apart.
    forall i, j | 0 <= i < j < |AwfyConfig| ensures AwfyConfig[i].0 != AwfyConfig[j].0 {
      assert AwfyConfig[i].0[0] != AwfyConfig[j].0[0] || AwfyConfig[i].0[1] != AwfyConfig[j].0[1];
    }
  }

  /** `awfyBenchmarkParam()`: a fresh dict holding the table's entries. */
  function AwfyBenchmarkParam(): (m: map<string, nat>)
    ensures forall name :: name in m <==> name in Names(AwfyConfig)
  {
    DictOfKeys(AwfyConfig);
    DictOf(AwfyConfig)
  }

  /** Each benchmark's parameter in the copy is the one the table lists for it. */
  lemma AwfyBenchmarkParamValues()
    ensures forall i :: 0 <= i < |AwfyConfig| ==> AwfyBenchmarkParam()[AwfyConfig[i].0] == AwfyConfig[i].1
  {
    AwfyConfigNamesDistinct();
    forall i | 0 <= i < |AwfyConfig| ensures AwfyBenchmarkParam()[AwfyConfig[i].0] == AwfyConfig[i].1 {
      DictOfLastWins(AwfyConfig, i);
    }
  }

  /** `benchmarkList()`: the table's names, sorted. */
  function BenchmarkList(): (r: seq<string>)
    ensures Sorted(r)
    ensures |r| == 14
    ensures forall i, j :: 0 <= i < j < |r| ==> r[i] != r[j]
    ensures forall name :: name in r <==> name in AwfyBenchmarkParam()
  {
    var names := Names(AwfyConfig);
    SortStringsSorted(names);
    AwfyConfigNamesDistinct();
    NoRepeatsPreserved(names, SortStrings(names));
    assert forall name :: name in SortStrings(names) <==> name in multiset(names);
    assert |multiset(SortStrings(names))| == |names|;
    SortStrings(names)
  }

  // ---------------------------------------------------------------------------
  // The `mx awfy` shortcut

  /**
   * `createBenchmarkShortcut(benchSuite, args)`: the arguments handed to
   * `mx benchmark`, led by a `suite:benchmark` selector.
   */
  function BenchmarkShortcut(benchSuite: string, args: seq<string>): (r: seq<string>)
    ensures |r| >= 1 && |r[0]| > |benchSuite| && r[0][..|benchSuite| + 1] == benchSuite + ":"
    ensures |args| - 1 <= |r| - 1 <= |args| && r[1..] == args[|args| - (|r| - 1)..]
  {
    if args == [] then [benchSuite + ":" + "*"]
    else if args[0] == "--" then [benchSuite + ":" + "*"] + args
    else [benchSuite + ":" + args[0]] + args[1..]
  }

  /** The three cases of the shortcut: no arguments, a leading `--`, a benchmark name first. */
  lemma ShortcutCases(benchSuite: string, args: seq<string>)
    ensures args == [] ==> BenchmarkShortcut(benchSuite, args) == [benchSuite + ":*"]
    ensures args != [] && args[0] == "--" ==> BenchmarkShortcut(benchSuite, args) == [benchSuite + ":*"] + args
    ensures args != [] && args[0] != "--" ==>
      BenchmarkShortcut(benchSuite, args) == [benchSuite + ":" + args[0]] + args[1..]
  {
    assert benchSuite + ":" + "*" == benchSuite + ":*";
  }

  /** Reads a shortcut's output back: the selector's benchmark name (none for `*`) and the rest. */
  function ShortcutInput(benchSuite: string, r: seq<string>): (args: seq<string>)
    requires |r| >= 1 && |r[0]| > |benchSuite|
  {
    var name := r[0][|benchSuite| + 1..];
    if name == "*" then r[1..] else [name] + r[1..]
  }

  /** The shortcut loses nothing, except that an explicit `*` means the same as no name. */
  lemma ShortcutRoundTrip(benchSuite: string, args: seq<string>)
    requires args == [] || args[0] != "*"
    ensures ShortcutInput(benchSuite, BenchmarkShortcut(benchSuite, args)) == args
  {
    var r := BenchmarkShortcut(benchSuite, args);
    if args != [] && args[0] != "--" {
      assert r[0][|benchSuite| + 1..] == args[0];
      assert args == [args[0]] + args[1..];
    } else {
      assert r[0][|benchSuite| + 1..] == "*";
    }
  }

  // ---------------------------------------------------------------------------
  // Reading the run arguments (argparse's parse_known_args with `-i` and `-p`)

  predicate IsIterationsOption(s: string) {
    s == "-i" || s == "--iterations"
  }

  predicate IsParamOption(s: string) {
    s == "-p" || s == "--param"
  }

  predicate IsKnownOption(s: string) {
    IsIterationsOption(s) || IsParamOption(s)
  }

  /** argparse's negative-number shape, `-` then `\d+` or `\d*\.\d+`: such a string is a value. */
  predicate IsNegativeNumber(s: string) {
    |s| >= 2 && s[0] == '-' &&
    (AllDigits(s[1..]) ||
     exists k :: 1 <= k < |s| - 1 && s[k] == '.' && AllDigits(s[1..k]) && AllDigits(s[k + 1..]))
  }

  /** A string argparse takes for an option, so that it cannot be an option's value. */
  predicate LooksLikeOption(s: string) {
    |s| >= 2 && s[0] == '-' && !IsNegativeNumber(s) && ' ' !in s
  }

  lemma KnownOptionLooksLikeOption(s: string)
    requires IsKnownOption(s)
    ensures LooksLikeOption(s)
  {
    assert !IsDigit(s[1]) && s[1] != '.';
    assert !AllDigits(s[1..]) by { assert s[1..][0] == s[1]; }
    forall k | 1 < k < |s| - 1 ensures !AllDigits(s[1..k]) {
      assert s[1..k][0] == s[1];
    }
  }

  /** What parse_known_args gives: the last value of each option, and the arguments it did not recognise. */
  datatype KnownArgs = KnownArgs(iterations: Option<string>, param: Option<string>, remaining: seq<string>)

  /**
   * parse_known_args for a parser with the options `-i/--iterations` and
   * `-p/--param`: read left to right; each option takes the next argument as
   * its value, a later occurrence overriding an earlier one; everything else,
   * and everything from a `--` on, is kept in order.
   */
  function ParseKnownArgs(args: seq<string>): (r: Result<KnownArgs, AwfyError>)
    ensures r.Ok? ==>
      |r.value.remaining| + (if r.value.iterations.Some? then 2 else 0) + (if r.value.param.Some? then 2 else 0)
      <= |args|
    decreases |args|
  {
    if args == [] then Ok(KnownArgs(None, None, []))
    else if args[0] == "--" then Ok(KnownArgs(None, None, args))
    else if IsKnownOption(args[0]) then
      if |args| == 1 || LooksLikeOption(args[1]) then Err(ExpectedOneArgument(args[0]))
      else match ParseKnownArgs(args[2..])
        case Err(e) => Err(e)
        case Ok(rest) =>
          if IsIterationsOption(args[0]) then Ok(rest.(iterations := Some(rest.iterations.GetOr(args[1]))))
          else Ok(rest.(param := Some(rest.param.GetOr(args[1]))))
    else match ParseKnownArgs(args[1..])
      case Err(e) => Err(e)
      case Ok(rest) => Ok(rest.(remaining := [args[0]] + rest.remaining))
  }

  /** The arguments before the first `--`: the only place argparse looks for options. */
  function OptionSection(args: seq<string>): (o: seq<string>)
    ensures |o| <= |args| && o == args[..|o|] && "--" !in o
    ensures |o| < |args| ==> args[|o|] == "--"
  {
    if args == [] || args[0] == "--" then [] else [args[0]] + OptionSection(args[1..])
  }

  /** `args[i]` is an option with no acceptable value after it. */
  predicate MissingValueAt(args: seq<string>, i: int) {
    0 <= i < |OptionSection(args)| && IsKnownOption(args[i]) &&
    (i + 1 == |args| || LooksLikeOption(args[i + 1]))
  }

  /** parse_known_args fails exactly when some option lacks its value. */
  lemma {:induction false} ParseKnownArgsFails(args: seq<string>)
    ensures ParseKnownArgs(args).Err? <==> exists i :: MissingValueAt(args, i)
    decreases |args|
  {
    if args == [] || args[0] == "--" {
      assert forall i :: !MissingValueAt(args, i);
    } else if IsKnownOption(args[0]) {
      if |args| == 1 || LooksLikeOption(args[1]) {
        assert MissingValueAt(args, 0);
      } else {
        var rest := args[2..];
        ParseKnownArgsFails(rest);
        if ParseKnownArgs(rest).Err? {
          var i :| MissingValueAt(rest, i);
          MissingAfterValue(args, i + 2);
        } else {
          forall i | 0 <= i < |args| ensures !MissingValueAt(args, i) {
            MissingAfterValue(args, i);
          }
        }
      }
    } else {
      var rest := args[1..];
      ParseKnownArgsFails(rest);
      if ParseKnownArgs(rest).Err? {
        var i :| MissingValueAt(rest, i);
        MissingAfterOther(args, i + 1);
      } else {
        forall i | 0 <= i < |args| ensures !MissingValueAt(args, i) {
          MissingAfterOther(args, i);
        }
      }
    }
  }

  /** Past an option and its value, a missing value is one of the rest's. */
  lemma MissingAfterValue(args: seq<string>, i: int)
    requires |args| >= 2 && IsKnownOption(args[0]) && !LooksLikeOption(args[1])
    ensures i < 2 ==> !MissingValueAt(args, i)
    ensures i >= 2 ==> (MissingValueAt(args, i) <==> MissingValueAt(args[2..], i - 2))
  {
    OptionSectionAfterValue(args);
    if i == 1 && IsKnownOption(args[1]) {
      KnownOptionLooksLikeOption(args[1]);
    }
  }

  /** Past an argument that is not an option, a missing value is one of the rest's. */
  lemma MissingAfterOther(args: seq<string>, i: int)
    requires |args| >= 1 && args[0] != "--" && !IsKnownOption(args[0])
    ensures i < 1 ==> !MissingValueAt(args, i)
    ensures i >= 1 ==> (MissingValueAt(args, i) <==> MissingValueAt(args[1..], i - 1))
  {
    assert OptionSection(args) == [args[0]] + OptionSection(args[1..]);
  }

  /** One of the two options the parser knows. */
  datatype Dest = Iterations | Param

  predicate IsOption(d: Dest, s: string) {
    match d
    case Iterations => IsIterationsOption(s)
    case Param => IsParamOption(s)
  }

  function ValueOf(d: Dest, known: KnownArgs): (v: Option<string>) {
    match d
    case Iterations => known.iterations
    case Param => known.param
  }

  /** `args[i]` is the last occurrence of option `d` before any `--`. */
  predicate IsLastOccurrence(args: seq<string>, d: Dest, i: int) {
    0 <= i < |OptionSection(args)| && IsOption(d, args[i]) &&
    forall j :: i < j < |OptionSection(args)| ==> !IsOption(d, args[j])
  }

  lemma LastOccurrenceUnique(args: seq<string>, d: Dest, i: int, j: int)
    requires IsLastOccurrence(args, d, i) && IsLastOccurrence(args, d, j)
    ensures i == j
  {
  }

  /** What the parser's value for option `d` says about the arguments it was read from. */
  ghost predicate ValueMatches(args: seq<string>, d: Dest, v: Option<string>) {
    (v.None? <==> forall i :: 0 <= i < |OptionSection(args)| ==> !IsOption(d, args[i])) &&
    (v.Some? ==> exists i :: IsLastOccurrence(args, d, i) && i + 1 < |args| && args[i + 1] == v.value)
  }

  /**
   * An option's value is absent exactly when the option does not occur, and is
   * otherwise the argument after its last occurrence.
   */
  lemma {:induction false} ParseKnownArgsValue(args: seq<string>, d: Dest)
    requires ParseKnownArgs(args).Ok?
    ensures ValueMatches(args, d, ValueOf(d, ParseKnownArgs(args).value))
    decreases |args|
  {
    if args == [] || args[0] == "--" {
    } else if IsKnownOption(args[0]) {
      ParseKnownArgsValue(args[2..], d);
      ValueAfterOption(args, d, ValueOf(d, ParseKnownArgs(args[2..]).value));
    } else {
      ParseKnownArgsValue(args[1..], d);
      ValueAfterOther(args, d, ValueOf(d, ParseKnownArgs(args[1..]).value));
    }
  }

  /** The step of ParseKnownArgsValue over an option and its value. */
  lemma ValueAfterOption(args: seq<string>, d: Dest, w: Option<string>)
    requires |args| >= 2 && IsKnownOption(args[0]) && !LooksLikeOption(args[1])
    requires ValueMatches(args[2..], d, w)
    ensures ValueMatches(args, d, if IsOption(d, args[0]) then Some(w.GetOr(args[1])) else w)
  {
    var rest := args[2..];
    OptionSectionAfterValue(args);
    assert !IsOption(d, args[1]) by {
      if IsKnownOption(args[1]) { KnownOptionLooksLikeOption(args[1]); }
    }
    if w.Some? {
      var i :| IsLastOccurrence(rest, d, i) && i + 1 < |rest| && rest[i + 1] == w.value;
      assert IsLastOccurrence(args, d, i + 2);
    } else if IsOption(d, args[0]) {
      assert IsLastOccurrence(args, d, 0);
    } else {
      assert forall i :: 2 <= i < |OptionSection(args)| ==> !IsOption(d, args[i]);
    }
  }

  /** The option section of an option, its value and the rest. */
  lemma OptionSectionAfterValue(args: seq<string>)
    requires |args| >= 2 && IsKnownOption(args[0]) && !LooksLikeOption(args[1])
    ensures |OptionSection(args)| == |OptionSection(args[2..])| + 2
    ensures forall j :: 2 <= j < |OptionSection(args)| ==> OptionSection(args[2..])[j - 2] == args[j]
  {
    assert args[1] != "--";
    assert OptionSection(args) == [args[0]] + OptionSection(args[1..]);
    assert OptionSection(args[1..]) == [args[1]] + OptionSection(args[1..][1..]);
    assert args[1..][1..] == args[2..];
  }

  /** The step of ParseKnownArgsValue over an argument that is not an option. */
  lemma ValueAfterOther(args: seq<string>, d: Dest, w: Option<string>)
    requires |args| >= 1 && args[0] != "--" && !IsKnownOption(args[0])
    requires ValueMatches(args[1..], d, w)
    ensures ValueMatches(args, d, w)
  {
    var rest := args[1..];
    assert OptionSection(args) == [args[0]] + OptionSection(rest);
    if w.Some? {
      var i :| IsLastOccurrence(rest, d, i) && i + 1 < |rest| && rest[i + 1] == w.value;
      assert IsLastOccurrence(args, d, i + 1);
    } else {
      forall i | 0 <= i < |OptionSection(args)| ensures !IsOption(d, args[i]) {
        if i >= 1 { assert args[i] == OptionSection(rest)[i - 1]; }
      }
    }
  }

  /**
   * The arguments argparse does not recognise, told token by token: before a
   * `--`, an option and the argument right after it are dropped, all else is
   * kept; from the `--` on, everything is kept. `afterOption` says whether the
   * previous argument was an option.
   */
  function Unrecognised(args: seq<string>, afterOption: bool): (kept: seq<string>)
    decreases |args|
  {
    if args == [] then []
    else if args[0] == "--" then args
    else
      (if IsKnownOption(args[0]) || afterOption then [] else [args[0]])
      + Unrecognised(args[1..], IsKnownOption(args[0]))
  }

  /** The arguments parse_known_args hands back are the unrecognised ones, in order. */
  lemma {:induction false} ParseKnownArgsRemaining(args: seq<string>)
    requires ParseKnownArgs(args).Ok?
    ensures ParseKnownArgs(args).value.remaining == Unrecognised(args, false)
    decreases |args|
  {
    if args == [] || args[0] == "--" {
    } else if IsKnownOption(args[0]) {
      ParseKnownArgsRemaining(args[2..]);
      assert !IsKnownOption(args[1]) by {
        if IsKnownOption(args[1]) { KnownOptionLooksLikeOption(args[1]); }
      }
      assert args[1..][1..] == args[2..];
    } else {
      ParseKnownArgsRemaining(args[1..]);
    }
  }

  /** With no option present, nothing is dropped. */
  lemma {:induction false} UnrecognisedWithoutOptions(args: seq<string>)
    requires forall i :: 0 <= i < |OptionSection(args)| ==> !IsKnownOption(args[i])
    ensures Unrecognised(args, false) == args
    decreases |args|
  {
    if args != [] && args[0] != "--" {
      assert OptionSection(args) == [args[0]] + OptionSection(args[1..]);
      UnrecognisedWithoutOptions(args[1..]);
      assert args == [args[0]] + args[1..];
    }
  }

  /**
   * `postprocessRunArgs(benchname, runArgs)`: the iteration count and the
   * benchmark parameter, then the unrecognised arguments. The parameter's
   * default is looked up before anything is parsed.
   */
  function PostprocessRunArgs(benchname: string, runArgs: seq<string>): (r: Result<seq<string>, AwfyError>)
    ensures benchname !in AwfyBenchmarkParam() ==> r == Err(UnknownBenchmark(benchname))
    ensures benchname in AwfyBenchmarkParam() ==> (r.Err? <==> exists i :: MissingValueAt(runArgs, i))
    ensures r.Err? ==> r.error.UnknownBenchmark? || r.error.ExpectedOneArgument?
    ensures r.Ok? ==> |r.value| >= 2 && r.value[2..] == Unrecognised(runArgs, false)
  {
    var params := AwfyBenchmarkParam();
    if benchname !in params then Err(UnknownBenchmark(benchname))
    else
      ParseKnownArgsFails(runArgs);
      match ParseKnownArgs(runArgs)
      case Err(e) =>
        assert e.ExpectedOneArgument? by { ParseKnownArgsErrorKind(runArgs); }
        Err(e)
      case Ok(known) =>
        ParseKnownArgsRemaining(runArgs);
        Ok([known.iterations.GetOr(NatToString(AwfyIterations)),
            known.param.GetOr(NatToString(params[benchname]))] + known.remaining)
  }

  lemma {:induction false} ParseKnownArgsErrorKind(args: seq<string>)
    requires ParseKnownArgs(args).Err?
    ensures ParseKnownArgs(args).error.ExpectedOneArgument?
    decreases |args|
  {
    if args != [] && args[0] != "--" {
      if IsKnownOption(args[0]) {
        if |args| > 1 && !LooksLikeOption(args[1]) {
          ParseKnownArgsErrorKind(args[2..]);
        }
      } else {
        ParseKnownArgsErrorKind(args[1..]);
      }
    }
  }

  /**
   * The two leading values: the given value of the last `-i`/`--iterations`
   * (else 100) and of the last `-p`/`--param` (else the table's parameter).
   */
  lemma PostprocessLeadingValues(benchname: string, runArgs: seq<string>)
    requires PostprocessRunArgs(benchname, runArgs).Ok?
    ensures var r := PostprocessRunArgs(benchname, runArgs).value;
      ((forall i :: 0 <= i < |OptionSection(runArgs)| ==> !IsIterationsOption(runArgs[i])) ==>
         r[0] == NatToString(AwfyIterations)) &&
      (forall i :: IsLastOccurrence(runArgs, Iterations, i) ==> i + 1 < |runArgs| && r[0] == runArgs[i + 1]) &&
      ((forall i :: 0 <= i < |OptionSection(runArgs)| ==> !IsParamOption(runArgs[i])) ==>
         r[1] == NatToString(AwfyBenchmarkParam()[benchname])) &&
      (forall i :: IsLastOccurrence(runArgs, Param, i) ==> i + 1 < |runArgs| && r[1] == runArgs[i + 1])
  {
    var known := ParseKnownArgs(runArgs).value;
    assert ValueOf(Iterations, known) == known.iterations && ValueOf(Param, known) == known.param;
    forall i | IsLastOccurrence(runArgs, Iterations, i) ensures i + 1 < |runArgs| && known.iterations == Some(runArgs[i + 1]) {
      LastOccurrenceValue(runArgs, Iterations, i);
    }
    forall i | IsLastOccurrence(runArgs, Param, i) ensures i + 1 < |runArgs| && known.param == Some(runArgs[i + 1]) {
      LastOccurrenceValue(runArgs, Param, i);
    }
    ParseKnownArgsValue(runArgs, Iterations);
    ParseKnownArgsValue(runArgs, Param);
  }

  lemma LastOccurrenceValue(args: seq<string>, d: Dest, i: int)
    requires ParseKnownArgs(args).Ok? && IsLastOccurrence(args, d, i)
    ensures i + 1 < |args| && ValueOf(d, ParseKnownArgs(args).value) == Some(args[i + 1])
  {
    ParseKnownArgsValue(args, d);
    var v := ValueOf(d, ParseKnownArgs(args).value);
    var k :| IsLastOccurrence(args, d, k) && k + 1 < |args| && args[k + 1] == v.value;
    LastOccurrenceUnique(args, d, i, k);
  }

  /** Without options, the run arguments are 100, the table's parameter, and the arguments unchanged. */
  lemma PostprocessDefaults(benchname: string, runArgs: seq<string>)
    requires benchname in AwfyBenchmarkParam()
    requires forall i :: 0 <= i < |OptionSection(runArgs)| ==> !IsKnownOption(runArgs[i])
    ensures PostprocessRunArgs(benchname, runArgs) ==
            Ok(["100", NatToString(AwfyBenchmarkParam()[benchname])] + runArgs)
  {
    ParseKnownArgsFails(runArgs);
    assert forall i :: !MissingValueAt(runArgs, i);
    var known := ParseKnownArgs(runArgs).value;
    ParseKnownArgsValue(runArgs, Iterations);
    ParseKnownArgsValue(runArgs, Param);
    assert known.iterations == None && known.param == None;
    ParseKnownArgsRemaining(runArgs);
    UnrecognisedWithoutOptions(runArgs);
    assert known.remaining == runArgs;
    DefaultIterationsNumeral();
  }

  // ---------------------------------------------------------------------------
  // The Harness command line

  /**
   * `createCommandLineArgs(benchmarks, bmSuiteArgs)`: `vmArgs` and `runArgs`
   * are the two halves the benchmark framework splits `bmSuiteArgs` into,
   * `awfyPath` the AWFY library's path.
   */
  function CreateCommandLineArgs(benchmarks: Option<seq<string>>, vmArgs: seq<string>, runArgs: seq<string>,
                                 awfyPath: string): (r: Result<seq<string>, AwfyError>)
    ensures benchmarks.None? ==> r == Err(Abort(SingleBenchmarkPerVm))
    ensures benchmarks.Some? && |benchmarks.value| != 1 ==> r == Err(Abort(ExactlyOneBenchmark))
    ensures r.Ok? <==>
      benchmarks.Some? && |benchmarks.value| == 1 && PostprocessRunArgs(benchmarks.value[0], runArgs).Ok?
    ensures r.Ok? ==>
      r.value == vmArgs + ["-cp", awfyPath, "Harness", benchmarks.value[0]]
                 + PostprocessRunArgs(benchmarks.value[0], runArgs).value
    ensures benchmarks.Some? && |benchmarks.value| == 1 && PostprocessRunArgs(benchmarks.value[0], runArgs).Err? ==>
      r == Err(PostprocessRunArgs(benchmarks.value[0], runArgs).error)
  {
    if benchmarks.None? then Err(Abort(SingleBenchmarkPerVm))
    else if |benchmarks.value| != 1 then Err(Abort(ExactlyOneBenchmark))
    else
      var benchArg := benchmarks.value[0];
      match PostprocessRunArgs(benchArg, runArgs)
      case Err(e) => Err(e)
      case Ok(postArgs) => Ok(vmArgs + ["-cp", awfyPath, "Harness", benchArg] + postArgs)
  }

  /** The Harness command line of a known benchmark run without options. */
  lemma CommandLineDefaults(bench: string, vmArgs: seq<string>, runArgs: seq<string>, awfyPath: string)
    requires bench in AwfyBenchmarkParam()
    requires forall i :: 0 <= i < |OptionSection(runArgs)| ==> !IsKnownOption(runArgs[i])
    ensures CreateCommandLineArgs(Some([bench]), vmArgs, runArgs, awfyPath) ==
      Ok(vmArgs + ["-cp", awfyPath, "Harness", bench] + (["100", NatToString(AwfyBenchmarkParam()[bench])] + runArgs))
  {
    PostprocessDefaults(bench, runArgs);
  }

  /**
   * The argument after the last occurrence of option `d` before any `--`, or
   * `default` when the option does not occur there with an argument after it.
   */
  ghost function LastValueOr(args: seq<string>, d: Dest, default: string): (v: string) {
    if exists i :: IsLastOccurrence(args, d, i) && i + 1 < |args| then
      var i :| IsLastOccurrence(args, d, i) && i + 1 < |args|; args[i + 1]
    else default
  }

  /** The parser's value for `d`, with a default, is the argument after the last occurrence of `d`. */
  lemma ParsedValueOr(args: seq<string>, d: Dest, default: string)
    requires ParseKnownArgs(args).Ok?
    ensures ValueOf(d, ParseKnownArgs(args).value).GetOr(default) == LastValueOr(args, d, default)
  {
    ParseKnownArgsValue(args, d);
    var v := ValueOf(d, ParseKnownArgs(args).value);
    if v.Some? {
      var k :| IsLastOccurrence(args, d, k) && k + 1 < |args| && args[k + 1] == v.value;
      var i :| IsLastOccurrence(args, d, i) && i + 1 < |args| && LastValueOr(args, d, default) == args[i + 1];
      LastOccurrenceUnique(args, d, i, k);
    }
  }

  /**
   * The Harness command line of a known benchmark, for any run arguments that
   * parse: the last `-i`/`--iterations` value (else 100), the last
   * `-p`/`--param` value (else the table's parameter), then the arguments the
   * parser did not recognise.
   */
  lemma CommandLineOf(bench: string, vmArgs: seq<string>, runArgs: seq<string>, awfyPath: string)
    requires bench in AwfyBenchmarkParam()
    requires ParseKnownArgs(runArgs).Ok?
    ensures CreateCommandLineArgs(Some([bench]), vmArgs, runArgs, awfyPath) ==
      Ok(vmArgs + ["-cp", awfyPath, "Harness", bench,
                   LastValueOr(runArgs, Iterations, "100"),
                   LastValueOr(runArgs, Param, NatToString(AwfyBenchmarkParam()[bench]))]
         + Unrecognised(runArgs, false))
  {
    var known := ParseKnownArgs(runArgs).value;
    DefaultIterationsNumeral();
    ParsedValueOr(runArgs, Iterations, "100");
    ParsedValueOr(runArgs, Param, NatToString(AwfyBenchmarkParam()[bench]));
    ParseKnownArgsRemaining(runArgs);
    var lead := [known.iterations.GetOr("100"), known.param.GetOr(NatToString(AwfyBenchmarkParam()[bench]))];
    assert PostprocessRunArgs(bench, runArgs) == Ok(lead + known.remaining);
    assert vmArgs + ["-cp", awfyPath, "Harness", bench] + (lead + known.remaining)
        == vmArgs + (["-cp", awfyPath, "Harness", bench] + lead) + known.remaining;
    assert ["-cp", awfyPath, "Harness", bench] + lead == ["-cp", awfyPath, "Harness", bench, lead[0], lead[1]];
  }
}
