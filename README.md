# Espresso benchmark driver: a Dafny model

This project models the logic of `mx.espresso/mx_espresso_benchmarks.py`, the
benchmark glue of Espresso (GraalVM's Java-on-Truffle VM) in the `mx` build tool:

- **The AWFY suite.** "Are we fast yet?" (AWFY) is modelled in module `AwfySuite`
  (`awfy_suite.dfy`). It covers the `_awfyConfig` table of workload parameters
  and the sorted benchmark list. It covers the `mx awfy` shortcut, which turns
  `[name] args` into a `awfy:name` selector plus pass-through arguments. It also
  reads the run arguments (`-i/--iterations`, `-p/--param`) and builds the
  `Harness` command line, which needs exactly one benchmark.
- **The min-heap VM.** `EspressoMinHeapVm` is modelled in module `MinHeapVm`
  (`min_heap_vm.dfy`). `PTimeout` is a scope that overrides the global
  `ptimeout` option and always restores it. `run_with_heap` is the callback each
  heap-search probe calls. It builds the `-Xmx<N>M` / `--jvm.Xmx<N>M` command
  line, runs the host VM with the probe's timeout in force, and records output
  and dimensions in `run_info` only when the exit code is 0. `run` then reports
  the output of the last successful probe.
- **Python built-ins.** Module `Strings` (`strings.dfy`) models the built-ins
  the code relies on: `str()` of a non-negative int, the code-point order of
  strings, and `sorted()`. Module `Wrappers` (`wrappers.dfy`) holds `Option`
  and `Result`.

Python exceptions and `mx.abort` are modelled as `Err` values of a `Result`.
Python's `None` is modelled as `Option.None`.

Calls into code outside this file become parameters:

- the host VM's `run` / `run_launcher` is a function `Host`;
- the standalone command builder `mx_espresso._espresso_standalone_command` is
  a function argument. `mx.espresso/mx_espresso.py` does not define it (see
  "## Left out");
- the AWFY library path is a string argument;
- the framework's split of `bmSuiteArgs` into VM and run arguments is given as
  two argument lists.

The heap search `mx.run_java_min_heap` is not part of this model.
`RunMinHeap` takes the search to be any finite sequence of probes, each with its
own host behaviour, and takes the exit code the search returns as an argument.
What is proved about `run_info` therefore holds for every search policy.

Two behaviours of the code are worth noting:

- When no probe succeeds, `run` fails with a `KeyError` on `run_info['stdout']`
  (`RunError.KeyError`). It does not return a "no result" value.
- `postprocessRunArgs` fails for an unknown benchmark even when `-p` supplies
  the parameter, because the table lookup for the default runs first.

## Model

| member | source | states |
|---|---|---|
| `AwfySuite.DictOf` | mx.espresso/mx_espresso_benchmarks.py:104-119 | the dict a literal builds has at most as many keys as entries; `DictOfKeys` and `DictOfLastWins` give its keys and values |
| `AwfySuite.AwfyConfigNamesDistinct` | mx.espresso/mx_espresso_benchmarks.py:104-119 | the 14 entries of `_awfyConfig` have pairwise distinct names |
| `AwfySuite.DictOfKeys` | mx.espresso/mx_espresso_benchmarks.py:104-119 | a dict literal's keys are exactly the names of its entries |
| `AwfySuite.DictOfLastWins` | mx.espresso/mx_espresso_benchmarks.py:104-119 | in a dict literal, a name maps to the value of its last entry |
| `AwfySuite.AwfyBenchmarkParam` | mx.espresso/mx_espresso_benchmarks.py:140-141 | the copy has exactly the table's names as keys |
| `AwfySuite.AwfyBenchmarkParamValues` | mx.espresso/mx_espresso_benchmarks.py:104-119 | in the copy, each benchmark maps to the parameter the table lists for it (for example `NBody` to 250000) |
| `AwfySuite.DefaultIterationsNumeral` | mx.espresso/mx_espresso_benchmarks.py:143-144 | the default iteration count 100 is written `"100"` |
| `AwfySuite.BenchmarkList` | mx.espresso/mx_espresso_benchmarks.py:170-171 | the list is sorted, has 14 elements and no repeats, and contains exactly the keys of the parameter table |
| `Strings.SortStrings` | mx.espresso/mx_espresso_benchmarks.py:171 | `sorted()` returns a permutation (same multiset) of its input |
| `Strings.SortStringsSorted` | mx.espresso/mx_espresso_benchmarks.py:171 | `sorted()`'s result is in ascending code-point order |
| `Strings.SortedPermutationUnique` | mx.espresso/mx_espresso_benchmarks.py:171 | two sorted permutations of the same strings are equal, so the benchmark list is fully determined |
| `Strings.NoRepeatsPreserved` | mx.espresso/mx_espresso_benchmarks.py:171 | a permutation of a list without repeats has no repeats |
| `Strings.StrLe` | mx.espresso/mx_espresso_benchmarks.py:171 | Python's `<=` on strings: a prefix is `<=`, and a non-empty string is `<=` only a non-empty one whose first character is no smaller; the three lemmas below make it a total order |
| `Strings.StrLeTotal` | mx.espresso/mx_espresso_benchmarks.py:171 | any two strings are comparable in Python's string order |
| `Strings.StrLeTransitive` | mx.espresso/mx_espresso_benchmarks.py:171 | Python's string order is transitive |
| `Strings.StrLeAntisymmetric` | mx.espresso/mx_espresso_benchmarks.py:171 | strings that are `<=` each other are equal |
| `Strings.NatToString` | mx.espresso/mx_espresso_benchmarks.py:157 | `str(n)` is a non-empty run of digits without a leading zero, and is `"0"` exactly for 0 |
| `Strings.NatToStringRoundTrip` | mx.espresso/mx_espresso_benchmarks.py:157 | reading the decimal numeral `str(n)` gives `n` back |
| `Strings.NatToStringInjective` | mx.espresso/mx_espresso_benchmarks.py:157 | distinct numbers have distinct numerals |
| `AwfySuite.BenchmarkShortcut` | mx.espresso/mx_espresso_benchmarks.py:216-227 | the result starts with a `suite:` selector, and the rest is a suffix of the arguments that drops at most the first |
| `AwfySuite.ShortcutRoundTrip` | mx.espresso/mx_espresso_benchmarks.py:216-227 | the original arguments can be read back from the selector and the rest, unless the first argument is an explicit `*` |
| `AwfySuite.ParseKnownArgs` | mx.espresso/mx_espresso_benchmarks.py:153-156 | the parser consumes two arguments for each option it reports, so the leftover arguments and the two values never exceed the input; `ParseKnownArgsFails`, `ParseKnownArgsValue` and `ParseKnownArgsRemaining` describe the result fully |
| `AwfySuite.ParseKnownArgsFails` | mx.espresso/mx_espresso_benchmarks.py:153-156 | parsing fails exactly when some `-i`/`-p` option before any `--` is last or is followed by an option-like argument |
| `AwfySuite.ParseKnownArgsErrorKind` | mx.espresso/mx_espresso_benchmarks.py:156 | the only parse failure is the "expected one argument" error |
| `AwfySuite.ParseKnownArgsValue` | mx.espresso/mx_espresso_benchmarks.py:154-156 | an option's parsed value is absent exactly when the option does not occur before `--`, and otherwise is the argument after its last occurrence |
| `AwfySuite.ParseKnownArgsRemaining` | mx.espresso/mx_espresso_benchmarks.py:156 | the leftover arguments are the input in order without the options and their values, and everything from `--` on is kept |
| `AwfySuite.UnrecognisedWithoutOptions` | mx.espresso/mx_espresso_benchmarks.py:156 | without options, all run arguments are left over, unchanged |
| `AwfySuite.PostprocessRunArgs` | mx.espresso/mx_espresso_benchmarks.py:152-157 | an unknown benchmark fails with a KeyError whatever the arguments; a known one fails exactly on a missing option value; a result is two leading values then the leftover arguments |
| `AwfySuite.PostprocessLeadingValues` | mx.espresso/mx_espresso_benchmarks.py:143-157 | the first value is the last `-i` value, else `str(100)`; the second is the last `-p` value, else `str` of the table's parameter |
| `AwfySuite.PostprocessDefaults` | mx.espresso/mx_espresso_benchmarks.py:143-157 | without options, the run arguments are `["100", str(param)] + runArgs` |
| `AwfySuite.CreateCommandLineArgs` | mx.espresso/mx_espresso_benchmarks.py:159-168 | no list aborts with the single-benchmark message; a list without exactly one name aborts with the exactly-one message; run-argument errors pass through; the value is given in terms of the parser by `CommandLineOf` |
| `AwfySuite.CommandLineOf` | mx.espresso/mx_espresso_benchmarks.py:143-168 | for a known benchmark and any run arguments that parse, the command line is `vmArgs + ["-cp", path, "Harness", bench, I, P]` followed by the unrecognised arguments; `I` is the argument after the last `-i`/`--iterations` before `--`, else `"100"`; `P` is the argument after the last `-p`/`--param`, else `str` of the table's parameter |
| `AwfySuite.CommandLineDefaults` | mx.espresso/mx_espresso_benchmarks.py:159-168 | a known benchmark without options gives `vmArgs + ["-cp", path, "Harness", bench, "100", str(param)] + runArgs` |
| `MinHeapVm.Opts.constructor` | mx.espresso/mx_espresso_benchmarks.py:73-79 | the global options object `mx.get_opts()`, holding the `ptimeout` in force |
| `MinHeapVm.PTimeout.constructor` | mx.espresso/mx_espresso_benchmarks.py:70-71 | the scope holds the timeout to install and has no saved value yet |
| `MinHeapVm.PTimeout.Enter` | mx.espresso/mx_espresso_benchmarks.py:73-76 | the value in force is saved, and the scope's timeout is installed |
| `MinHeapVm.PTimeout.Exit` | mx.espresso/mx_espresso_benchmarks.py:78-79 | the saved value is put back |
| `MinHeapVm.WithPTimeout` | mx.espresso/mx_espresso_benchmarks.py:84 | the body runs with the new timeout in force; afterwards `ptimeout` equals its value before the scope, whether the body returned or raised |
| `MinHeapVm.HeapSize` | mx.espresso/mx_espresso_benchmarks.py:86-89 | `'{}M'.format(heap)` is a decimal numeral that reads back as `heap`, followed by `M` |
| `MinHeapVm.ProbeCall` | mx.espresso/mx_espresso_benchmarks.py:85-90 | the launcher is used exactly when the host VM has one, and always in the run's working directory |
| `MinHeapVm.HeapOptionRoundTrip` | mx.espresso/mx_espresso_benchmarks.py:86-89 | the heap option `<prefix><N>M` reads back as `N` |
| `MinHeapVm.ProbeCallLayout` | mx.espresso/mx_espresso_benchmarks.py:85-90 | launcher mode gives `options + ["--jvm.Xmx<N>M"] + args`; standalone mode gives `["-Xmx<N>M"] + standaloneCommand(options + args)`; both carry heap `N` |
| `MinHeapVm.LastSuccessIsLatest` | mx.espresso/mx_espresso_benchmarks.py:91-100 | there is no recorded output exactly when no probe exited with 0; otherwise the output is that of a successful probe with no success after it |
| `MinHeapVm.LastSuccessOf` | mx.espresso/mx_espresso_benchmarks.py:91-100 | conversely, the last successful probe's output and dimensions are the ones recorded |
| `MinHeapVm.RunInfoAfter` | mx.espresso/mx_espresso_benchmarks.py:81-96 | `run_info` holds both `stdout` and `dims` or neither, has no other key, and holds them exactly when some probe succeeded |
| `MinHeapVm.RunInfoAfterFailure` | mx.espresso/mx_espresso_benchmarks.py:91-92 | a probe with a nonzero exit or an exception leaves `run_info` as it was |
| `MinHeapVm.RunInfoAfterSuccess` | mx.espresso/mx_espresso_benchmarks.py:93-96 | a probe with exit code 0 overwrites both entries with its own output and dimensions |
| `MinHeapVm.MinHeapRun.constructor` | mx.espresso/mx_espresso_benchmarks.py:81 | `run_info` starts empty, with no probes made |
| `MinHeapVm.MinHeapRun.RunWithHeap` | mx.espresso/mx_espresso_benchmarks.py:82-97 | returns the host's exit code unchanged and lets the host's exceptions through; updates `run_info` only on exit code 0; keeps the invariant that `run_info` reflects the last successful probe; restores `ptimeout` |
| `MinHeapVm.MinHeapRun.Report` | mx.espresso/mx_espresso_benchmarks.py:100 | returns the search's exit code with the last successful probe's output and dimensions, or a KeyError when no probe succeeded |
| `MinHeapVm.RunMinHeap` | mx.espresso/mx_espresso_benchmarks.py:68-100 | for any sequence of probes, the report is the first exception raised, else the last successful probe's output, else a KeyError; `ptimeout` is restored |

## Left out

- `mx.run_java_min_heap`, the heap search itself, is not part of this model. Its probes are an arbitrary input sequence. The `minHeap=0, maxHeap=2048` arguments at line 99 are not modelled either: a probe's heap can be any `nat`, so no bound on the sizes tried is stated.
- RunMinHeap: treats the probes as fixed in advance. An adaptive search is one such sequence once it has run, so the results hold for it too. An exception from a probe is assumed to pass through the search unchanged.
- MinHeapRun.RunWithHeap: records `run_info` after the `PTimeout` scope is left, not inside it. Nothing observes the difference, because the update does not read `ptimeout`.
- MinHeapRun.RunWithHeap: takes `suppressStderr` and `nonZeroIsFatal` but ignores them, as the source does.
- Logging (`mx.log`) is left out.
- ParseKnownArgs: models only this parser's options, taken exactly, and the argument after an option as its value. It does not model argparse's prefix abbreviations (`--iter`), `=` forms (`--param=5`) or attached short values (`-i5`). Such arguments are kept as unrecognised here, while argparse would read them as options.
- ParseKnownArgs: an "option-like" value follows argparse's rule: starts with `-`, is longer than one character, is not a negative number, and has no space. This rule is assumed to be what refuses a value.
- ParseKnownArgs: keeps `--` itself, and everything after it, among the leftover arguments. This parser declares no positional arguments, so nothing consumes them.
- ParseKnownArgs: models argparse's exit on a missing value as the error `ExpectedOneArgument`. The printed usage text is left out.
- `AwfySuite.CreateCommandLineArgs`: models the path `awfyPath()` returns as a plain string. `mx.library` aborts on a missing library, so the `None` branch is not modelled.
- The inputs `vmArgs(bmSuiteArgs)` and `runArgs(bmSuiteArgs)` are computed by the unseen benchmark framework. They are arguments here.
- `benchmarkList`'s unused `bmSuiteArgs` parameter is dropped.
- `awfyBenchmarkParam` returns a copy so callers cannot change the table. Dafny maps are immutable values, so that isolation holds by construction.
- MinHeapVm: only heap sizes `>= 0` are modelled, as `nat`. A negative size, which the search never passes, would print with a minus sign.
- Dimensions are modelled as a string-to-string map.
- Success and failure patterns (`successPatterns`, `failurePatterns`) are left out. So are the `StdOutRule` metric extraction (`rules`) and `addAverageAcrossLatestResults` (`run`). All of them run inside the unseen `mx_benchmark` library and Python's `re`, and the metric values are floats.
- `mx_espresso._espresso_standalone_command` is not defined in `mx.espresso/mx_espresso.py`, which has only `_espresso_command` (line 41). As written, the standalone branch of `run_with_heap` (line 89) would raise `AttributeError` inside the `PTimeout` scope, and so would the standalone branch of `EspressoVm.run` (line 58). `ProbeCall`, `ProbeCallLayout` and `RunMinHeap` instead take a working command builder as a parameter, so they do not model that failure.
- `EspressoVm.run` (lines 54-58), the plain VM's dispatch, is left out. It is the same launcher-or-standalone choice as a min-heap probe, without the heap option, the timeout scope and `run_info`. `ProbeCall` covers that choice.
- BenchmarkShortcut: returns the argument list that `createBenchmarkShortcut` hands to `mx_benchmark.benchmark` (line 227). It does not model running the benchmarks or the value `mx_benchmark.benchmark` returns, which belong to the unseen `mx_benchmark` library.
- The VM, suite and command registrations (lines 208-213 and 230-235) are left out.
- The name and group accessors are left out. They return constants.
