/**
 * Espresso's min-heap VM configuration (`EspressoMinHeapVm`): the heap search
 * calls back `run_with_heap` once per probe; each probe runs the benchmark
 * under a maximum heap of N megabytes, inside a scope that overrides the
 * global process timeout, and records its output when it exits with 0. The
 * run then reports the output of the last successful probe.
 */
module MinHeapVm {
  import opened Wrappers
  import opened Strings

  /** The extra dimensions the benchmark framework attaches to a run's results. */
  type Dims = map<string, string>

  /** A request to the host VM: through its `run_launcher`, or a plain `run` of a command line. */
  datatype HostCall =
    | RunLauncher(launcher: string, args: seq<string>, cwd: string)
    | Run(cwd: string, args: seq<string>)

  /** What a host VM call gives back: exit code, standard output and dimensions, or an exception. */
  datatype HostResult = Completed(exitCode: int, stdout: string, dims: Dims) | Raised(exception: string)

  /** The host VM's behaviour during one call: its result, given the process timeout then in force. */
  type Host = (HostCall, int) -> HostResult

  // ---------------------------------------------------------------------------
  // The scoped timeout

  /** `mx.get_opts()`: the process-wide options, of which only `ptimeout` is modelled. */
  class Opts {
    var ptimeout: int

    constructor (ptimeout: int)
      ensures this.ptimeout == ptimeout
    {
      this.ptimeout := ptimeout;
    }
  }

  /** `PTimeout`: a `with` scope that sets `ptimeout` on entry and puts the previous value back on exit. */
  class PTimeout {
    const opts: Opts
    const ptimeout: int
    var prevPtimeout: Option<int>

    constructor (opts: Opts, ptimeout: int)
      ensures this.opts == opts && this.ptimeout == ptimeout && prevPtimeout == None
    {
      this.opts := opts;
      this.ptimeout := ptimeout;
      prevPtimeout := None;
    }

    /** `__enter__`: remember the value in force, then install this scope's. */
    method Enter()
      modifies this, opts
      ensures prevPtimeout == Some(old(opts.ptimeout)) && opts.ptimeout == ptimeout
    {
      prevPtimeout := Some(opts.ptimeout);
      opts.ptimeout := ptimeout;
    }

    /** `__exit__`, on a normal exit and on an exception alike: restore the remembered value. */
    method Exit()
      requires prevPtimeout.Some?
      modifies opts
      ensures opts.ptimeout == prevPtimeout.value
    {
      opts.ptimeout := prevPtimeout.value;
    }
  }

  /**
   * `with PTimeout(timeout): body`. The body sees `timeout` in force; whether
   * it returns or raises, `ptimeout` is afterwards what it was before.
   */
  method WithPTimeout(opts: Opts, timeout: int, body: int -> HostResult) returns (r: HostResult)
    modifies opts
    ensures r == body(timeout)
    ensures opts.ptimeout == old(opts.ptimeout)
  {
    var scope := new PTimeout(opts, timeout);
    scope.Enter();
    r := body(opts.ptimeout);
    scope.Exit();
  }

  // ---------------------------------------------------------------------------
  // The command line of a probe

  /** A heap size in megabytes as the `-Xmx` option writes it. */
  function HeapSize(heap: nat): (s: string)
    ensures |s| >= 2 && s[|s| - 1] == 'M'
    ensures AllDigits(s[..|s| - 1]) && DecimalValue(s[..|s| - 1]) == heap
  {
    NatToStringRoundTrip(heap);
    assert (NatToString(heap) + "M")[..|NatToString(heap)|] == NatToString(heap);
    NatToString(heap) + "M"
  }

  /**
   * The host call of a probe at `heap` megabytes: through the launcher, the
   * VM options, `--jvm.Xmx<heap>M`, then the arguments; otherwise
   * `-Xmx<heap>M` in front of the standalone command line built from the VM
   * options and the arguments.
   */
  function ProbeCall(hasLauncher: bool, options: seq<string>, heap: nat, args: seq<string>, cwd: string,
                     standaloneCommand: seq<string> -> seq<string>): (c: HostCall)
    ensures c.RunLauncher? <==> hasLauncher
    ensures c.cwd == cwd
  {
    if hasLauncher then RunLauncher("espresso", options + ["--jvm.Xmx" + HeapSize(heap)] + args, cwd)
    else Run(cwd, ["-Xmx" + HeapSize(heap)] + standaloneCommand(options + args))
  }

  /** Reads the heap size back from an option `<prefix><digits>M`. */
  function ParseHeapOption(prefix: string, s: string): (heap: Option<nat>) {
    if |s| >= |prefix| + 2 && s[..|prefix|] == prefix && s[|s| - 1] == 'M' && AllDigits(s[|prefix|..|s| - 1])
    then Some(DecimalValue(s[|prefix|..|s| - 1]))
    else None
  }

  lemma HeapOptionRoundTrip(prefix: string, heap: nat)
    ensures ParseHeapOption(prefix, prefix + HeapSize(heap)) == Some(heap)
  {
    var s := prefix + HeapSize(heap);
    assert s[..|prefix|] == prefix;
    assert s[|prefix|..|s| - 1] == NatToString(heap);
    NatToStringRoundTrip(heap);
  }

  /**
   * Where the heap option sits in a probe's command line, and that it carries
   * the probed size: after the VM options and before the arguments through the
   * launcher; first, before the standalone command, otherwise.
   */
  lemma ProbeCallLayout(hasLauncher: bool, options: seq<string>, heap: nat, args: seq<string>, cwd: string,
                        standaloneCommand: seq<string> -> seq<string>)
    ensures var c := ProbeCall(hasLauncher, options, heap, args, cwd, standaloneCommand);
      hasLauncher ==>
        c.launcher == "espresso" && |c.args| == |options| + 1 + |args| && c.args[..|options|] == options &&
        ParseHeapOption("--jvm.Xmx", c.args[|options|]) == Some(heap) && c.args[|options| + 1..] == args
    ensures var c := ProbeCall(hasLauncher, options, heap, args, cwd, standaloneCommand);
      !hasLauncher ==>
        |c.args| >= 1 && ParseHeapOption("-Xmx", c.args[0]) == Some(heap) &&
        c.args[1..] == standaloneCommand(options + args)
  {
    var c := ProbeCall(hasLauncher, options, heap, args, cwd, standaloneCommand);
    if hasLauncher {
      HeapOptionRoundTrip("--jvm.Xmx", heap);
      assert c.args[|options|] == "--jvm.Xmx" + HeapSize(heap);
    } else {
      HeapOptionRoundTrip("-Xmx", heap);
    }
  }

  // ---------------------------------------------------------------------------
  // The record of successful probes

  /** The probe's process exited with 0. */
  predicate Succeeded(h: HostResult) {
    h.Completed? && h.exitCode == 0
  }

  /** The output and dimensions of the last probe that exited with 0, if any did. */
  function LastSuccess(results: seq<HostResult>): (found: Option<(string, Dims)>)
    decreases |results|
  {
    if results == [] then None
    else
      var last := results[|results| - 1];
      if Succeeded(last) then Some((last.stdout, last.dims)) else LastSuccess(results[..|results| - 1])
  }

  /**
   * The recorded output is that of a probe that succeeded with no success
   * after it; there is none exactly when no probe succeeded.
   */
  lemma {:induction false} LastSuccessIsLatest(results: seq<HostResult>)
    ensures LastSuccess(results).None? <==> forall i :: 0 <= i < |results| ==> !Succeeded(results[i])
    ensures LastSuccess(results).Some? ==>
      exists i :: 0 <= i < |results| && Succeeded(results[i]) &&
        LastSuccess(results) == Some((results[i].stdout, results[i].dims)) &&
        forall j :: i < j < |results| ==> !Succeeded(results[j])
    decreases |results|
  {
    if results != [] {
      var n := |results| - 1;
      var init := results[..n];
      LastSuccessIsLatest(init);
      assert forall i :: 0 <= i < n ==> init[i] == results[i];
      if !Succeeded(results[n]) && LastSuccess(init).Some? {
        var i :| 0 <= i < n && Succeeded(init[i]) &&
          LastSuccess(init) == Some((init[i].stdout, init[i].dims)) &&
          forall j :: i < j < n ==> !Succeeded(init[j]);
        assert Succeeded(results[i]);
      }
    }
  }

  /** Conversely, a successful probe with no success after it is the one recorded. */
  lemma LastSuccessOf(results: seq<HostResult>, i: nat)
    requires i < |results| && Succeeded(results[i])
    requires forall j :: i < j < |results| ==> !Succeeded(results[j])
    ensures LastSuccess(results) == Some((results[i].stdout, results[i].dims))
  {
    LastSuccessIsLatest(results);
    var k :| 0 <= k < |results| && Succeeded(results[k]) &&
      LastSuccess(results) == Some((results[k].stdout, results[k].dims)) &&
      forall j :: k < j < |results| ==> !Succeeded(results[j]);
    assert k == i;
  }

  /** An entry of the `run_info` dict. */
  datatype InfoValue = Stdout(text: string) | DimsValue(dims: Dims)

  /** The `run_info` dict that probes with these results leave behind. */
  function RunInfoAfter(results: seq<HostResult>): (m: map<string, InfoValue>)
    ensures ("stdout" in m <==> "dims" in m) && m.Keys <= {"stdout", "dims"}
    ensures "stdout" in m <==> exists i :: 0 <= i < |results| && Succeeded(results[i])
  {
    LastSuccessIsLatest(results);
    match LastSuccess(results)
    case None => map[]
    case Some((out, dims)) => map["stdout" := Stdout(out), "dims" := DimsValue(dims)]
  }

  /** A failed probe changes nothing. */
  lemma RunInfoAfterFailure(results: seq<HostResult>, h: HostResult)
    requires !Succeeded(h)
    ensures RunInfoAfter(results + [h]) == RunInfoAfter(results)
  {
    assert (results + [h])[..|results|] == results;
  }

  /** A successful probe's output replaces whatever was there. */
  lemma RunInfoAfterSuccess(results: seq<HostResult>, h: HostResult)
    requires Succeeded(h)
    ensures RunInfoAfter(results + [h]) == map["stdout" := Stdout(h.stdout), "dims" := DimsValue(h.dims)]
  {
  }

  // ---------------------------------------------------------------------------
  // One run of the min-heap VM

  /** What `run` reports instead of its result. */
  datatype RunError =
    | KeyError(key: string)        // no probe succeeded, so `run_info` has no entry
    | Propagated(exception: string) // a probe's host call raised

  /** The state of one `EspressoMinHeapVm.run`, and the `run_with_heap` callback it hands to the heap search. */
  class MinHeapRun {
    const hasLauncher: bool
    const options: seq<string>
    const cwd: string
    const standaloneCommand: seq<string> -> seq<string>
    var runInfo: map<string, InfoValue>
    /** The host results of the probes so far. */
    ghost var probes: seq<HostResult>

    ghost predicate Valid()
      reads this
    {
      runInfo == RunInfoAfter(probes)
    }

    constructor (hasLauncher: bool, options: seq<string>, cwd: string, standaloneCommand: seq<string> -> seq<string>)
      ensures Valid() && probes == [] && runInfo == map[]
      ensures this.hasLauncher == hasLauncher && this.options == options && this.cwd == cwd
      ensures this.standaloneCommand == standaloneCommand
    {
      this.hasLauncher := hasLauncher;
      this.options := options;
      this.cwd := cwd;
      this.standaloneCommand := standaloneCommand;
      runInfo := map[];
      probes := [];
    }

    /**
     * `run_with_heap(heap, args, timeout, suppressStderr, nonZeroIsFatal)`:
     * runs the probe's host call with `timeout` in force, records output and
     * dimensions when it exits with 0, and returns its exit code; an exception
     * of the host call passes through.
     */
    method RunWithHeap(opts: Opts, host: Host, heap: nat, args: seq<string>, timeout: int,
                       suppressStderr: bool, nonZeroIsFatal: bool) returns (r: Result<int, string>)
      requires Valid()
      modifies this, opts
      ensures Valid()
      ensures opts.ptimeout == old(opts.ptimeout)
      ensures var h := host(ProbeCall(hasLauncher, options, heap, args, cwd, standaloneCommand), timeout);
        probes == old(probes) + [h] &&
        r == (if h.Completed? then Ok(h.exitCode) else Err(h.exception)) &&
        runInfo == if Succeeded(h) then old(runInfo)["stdout" := Stdout(h.stdout)]["dims" := DimsValue(h.dims)]
                   else old(runInfo)
    {
      var call := ProbeCall(hasLauncher, options, heap, args, cwd, standaloneCommand);
      var h := WithPTimeout(opts, timeout, t => host(call, t));
      ghost var before := probes;
      probes := probes + [h];
      if h.Raised? {
        RunInfoAfterFailure(before, h);
        return Err(h.exception);
      }
      if h.exitCode != 0 {
        RunInfoAfterFailure(before, h);
      } else {
        runInfo := runInfo["stdout" := Stdout(h.stdout)]["dims" := DimsValue(h.dims)];
        RunInfoAfterSuccess(before, h);
      }
      r := Ok(h.exitCode);
    }

    /** The value `run` returns: the search's exit code with the recorded output and dimensions; a missing record is a KeyError. */
    method Report(exitCode: int) returns (r: Result<(int, string, Dims), RunError>)
      requires Valid()
      ensures LastSuccess(probes).None? ==> r == Err(KeyError("stdout"))
      ensures LastSuccess(probes).Some? ==>
        r == Ok((exitCode, LastSuccess(probes).value.0, LastSuccess(probes).value.1))
    {
      if "stdout" !in runInfo {
        return Err(KeyError("stdout"));
      }
      match runInfo["stdout"]
      case DimsValue(_) =>
        assert false;
      case Stdout(out) =>
        match runInfo["dims"]
        case Stdout(_) =>
          assert false;
        case DimsValue(dims) =>
          return Ok((exitCode, out, dims));
    }
  }

  /** One call the heap search makes to `run_with_heap`, with the host's behaviour during it. */
  datatype Probe = Probe(heap: nat, args: seq<string>, timeout: int, host: Host)

  /** The host results of a sequence of probes. */
  function ProbeResults(hasLauncher: bool, options: seq<string>, cwd: string,
                        standaloneCommand: seq<string> -> seq<string>, probes: seq<Probe>): (rs: seq<HostResult>)
    ensures |rs| == |probes|
  {
    seq(|probes|, i requires 0 <= i < |probes| =>
      probes[i].host(ProbeCall(hasLauncher, options, probes[i].heap, probes[i].args, cwd, standaloneCommand),
                     probes[i].timeout))
  }

  /** The index of the first probe whose host call raised, or the number of probes if none did. */
  function FirstRaised(results: seq<HostResult>): (k: nat)
    ensures k <= |results| && (k < |results| ==> results[k].Raised?)
    ensures forall j :: 0 <= j < k ==> !results[j].Raised?
  {
    if results == [] then 0
    else if results[0].Raised? then 0
    else 1 + FirstRaised(results[1..])
  }

  /** The first exception is the one of the first probe that raised. */
  lemma {:induction false} FirstRaisedAt(results: seq<HostResult>, i: nat)
    requires i < |results| && results[i].Raised?
    requires forall j :: 0 <= j < i ==> !results[j].Raised?
    ensures FirstRaised(results) == i
    decreases i
  {
    if i > 0 {
      FirstRaisedAt(results[1..], i - 1);
    }
  }

  /**
   * What `run` reports after probes with these results: the first exception,
   * if any probe raised; otherwise the search's exit code with the output of
   * the last successful probe, or a KeyError when none succeeded.
   */
  function RunReport(results: seq<HostResult>, exitCode: int): (r: Result<(int, string, Dims), RunError>) {
    var k := FirstRaised(results);
    if k < |results| then Err(Propagated(results[k].exception))
    else
      match LastSuccess(results)
      case None => Err(KeyError("stdout"))
      case Some((out, dims)) => Ok((exitCode, out, dims))
  }

  /**
   * `EspressoMinHeapVm.run(cwd, args)`, with the heap search (which is not
   * part of this model) replaced by the probes it makes and the exit code
   * it returns. The timeout in force is the same afterwards.
   */
  method RunMinHeap(opts: Opts, hasLauncher: bool, options: seq<string>, cwd: string,
                    standaloneCommand: seq<string> -> seq<string>, probes: seq<Probe>, searchExitCode: int)
    returns (r: Result<(int, string, Dims), RunError>)
    modifies opts
    ensures opts.ptimeout == old(opts.ptimeout)
    ensures r == RunReport(ProbeResults(hasLauncher, options, cwd, standaloneCommand, probes), searchExitCode)
  {
    ghost var results := ProbeResults(hasLauncher, options, cwd, standaloneCommand, probes);
    var run := new MinHeapRun(hasLauncher, options, cwd, standaloneCommand);
    var i := 0;
    while i < |probes|
      invariant 0 <= i <= |probes|
      invariant run.Valid()
      invariant run.hasLauncher == hasLauncher && run.options == options && run.cwd == cwd
      invariant run.standaloneCommand == standaloneCommand
      invariant run.probes == results[..i]
      invariant forall j :: 0 <= j < i ==> !results[j].Raised?
      invariant opts.ptimeout == old(opts.ptimeout)
    {
      var p := probes[i];
      var code := run.RunWithHeap(opts, p.host, p.heap, p.args, p.timeout, true, false);
      assert results[..i + 1] == results[..i] + [results[i]];
      if code.Err? {
        FirstRaisedAt(results, i);
        return Err(Propagated(code.error));
      }
      i := i + 1;
    }
    assert results[..i] == results;
    r := run.Report(searchExitCode);
  }
}
