/**
 * The limits the agent derives from the labels of a kernel image before it creates the
 * kernel's container: image version, memory limit, execution timeout, number of CPU cores,
 * the environment variables that announce the core count, and the cpuset string that pins
 * the container to its cores. Labels are strings read with defaults; `int` on a label that
 * is not an integer raises ValueError, modelled as an error value.
 */
module KernelConfig {
  import opened Wrappers
  import opened Text
  import opened NumericList

  type Labels = map<string, string>

  const VersionLabel := "io.sorna.version"
  const MaxMemLabel := "io.sorna.maxmem"
  const TimeoutLabel := "io.sorna.timeout"
  const CoreCountEnvsLabel := "io.sorna.envs.corecount"
  const MaxCoresLabel := "io.sorna.maxcores"

  /** `labels.get(key, default)`. */
  function Label(labels: Labels, key: string, default: string): string
  {
    if key in labels then labels[key] else default
  }

  /** Which `int(...)` raised ValueError. */
  datatype LabelError = BadVersion | BadTimeout | BadMaxCores

  datatype KernelLimits = KernelLimits(
    version: int,
    memLimit: string,
    execTimeout: int,
    numCores: int,
    env: seq<string>)   // the container's `Env` list, `NAME=value`

  function Min(a: int, b: int): int { if a <= b then a else b }

  // ---------------------------------------------------------------------------
  // Core-count environment variables

  /** `label.split(',') if label else []`. */
  function CoreCountEnvNames(value: string): (r: seq<string>)
    ensures r == [] <==> value == []
  {
    if value == [] then [] else Split(value, ',')
  }

  /** The keys of a dict built from `names` in order: first occurrences only. */
  function Dedup(names: seq<string>): (r: seq<string>)
    ensures forall k :: k in r <==> k in names
    ensures Distinct(r) && |r| <= |names|
  {
    if names == [] then []
    else
      var init := Dedup(names[..|names| - 1]);
      var last := names[|names| - 1];
      assert names == names[..|names| - 1] + [last];
      if last in init then init else init + [last]
  }

  /** The `Env` item that sets variable k to v. */
  function EnvEntry(k: string, v: string): string
  {
    k + "=" + v
  }

  /** `[f'{k}={v}' for k, v in {k: str(n) for k in names}.items()]`. */
  function EnvEntries(names: seq<string>, n: int): (r: seq<string>)
    ensures |r| <= |names|
    ensures r == [] <==> names == []
  {
    var keys := Dedup(names);
    var v := IntToString(n);
    seq(|keys|, i requires 0 <= i < |keys| => EnvEntry(keys[i], v))
  }

  // ---------------------------------------------------------------------------
  // Derivation

  /**
   * The limits of a new kernel. `configTimeout` is the agent's configured execution
   * timeout, `availableCores` the number of cores its CPU map manages, and `restartCores`
   * the size of the core set the kernel already holds when it is being restarted.
   */
  function DeriveLimits(labels: Labels, configTimeout: int, availableCores: int, restartCores: Option<nat>)
    : (r: Result<KernelLimits, LabelError>)
    ensures r.Ok? ==> r.value.execTimeout <= configTimeout
    ensures r.Ok? && restartCores.None? ==> r.value.numCores <= availableCores
    ensures r.Ok? && restartCores.Some? ==> r.value.numCores == restartCores.value
    ensures r.Ok? ==> |r.value.env| <= |CoreCountEnvNames(Label(labels, CoreCountEnvsLabel, ""))|
  {
    match PyInt(Label(labels, VersionLabel, "1"))
    case None => Err(BadVersion)
    case Some(version) =>
      var memLimit := Label(labels, MaxMemLabel, "128m");
      match PyInt(Label(labels, TimeoutLabel, "10"))
      case None => Err(BadTimeout)
      case Some(timeout) =>
        var names := CoreCountEnvNames(Label(labels, CoreCountEnvsLabel, ""));
        var cores :=
          if restartCores.Some? then Some(restartCores.value as int)
          else match PyInt(Label(labels, MaxCoresLabel, "1"))
            case None => None
            case Some(requested) => Some(Min(availableCores, requested));
        match cores
        case None => Err(BadMaxCores)
        case Some(numCores) =>
          Ok(KernelLimits(version, memLimit, Min(timeout, configTimeout), numCores, EnvEntries(names, numCores)))
  }

  // ---------------------------------------------------------------------------
  // Properties

  /** The execution timeout is the label's (10 by default) capped by the configured one. */
  lemma {:induction false} ExecTimeoutCapped(labels: Labels, configTimeout: int, availableCores: int, restartCores: Option<nat>)
    requires DeriveLimits(labels, configTimeout, availableCores, restartCores).Ok?
    ensures var l := DeriveLimits(labels, configTimeout, availableCores, restartCores).value;
      && l.execTimeout <= configTimeout
      && l.execTimeout <= PyInt(Label(labels, TimeoutLabel, "10")).value
      && (l.execTimeout == configTimeout || Some(l.execTimeout) == PyInt(Label(labels, TimeoutLabel, "10")))
  {
  }

  /**
   * A new kernel gets the cores its label asks for (1 by default) but never more than the
   * agent has; a restarted kernel keeps the number of cores it held.
   */
  lemma {:induction false} CoresClamped(labels: Labels, configTimeout: int, availableCores: int, restartCores: Option<nat>)
    requires DeriveLimits(labels, configTimeout, availableCores, restartCores).Ok?
    ensures var l := DeriveLimits(labels, configTimeout, availableCores, restartCores).value;
      && (restartCores.Some? ==> l.numCores == restartCores.value)
      && (restartCores.None? ==>
            var requested := PyInt(Label(labels, MaxCoresLabel, "1")).value;
            l.numCores <= availableCores && l.numCores <= requested
            && (l.numCores == availableCores || l.numCores == requested))
  {
  }

  /** Labels left out give version 1, 128m of memory, at most 10 seconds and one core. */
  lemma {:induction false} Defaults(configTimeout: int, availableCores: int)
    requires availableCores >= 1
    ensures DeriveLimits(map[], configTimeout, availableCores, None)
      == Ok(KernelLimits(1, "128m", Min(10, configTimeout), 1, []))
  {
    var labels: Labels := map[];
    assert Label(labels, VersionLabel, "1") == "1";
    assert Label(labels, TimeoutLabel, "10") == "10";
    assert Label(labels, MaxCoresLabel, "1") == "1";
    assert Label(labels, CoreCountEnvsLabel, "") == "";
    assert PyInt("1") == Some(1) by {
      PyIntOfDigits("1");
      assert DigitsValue("1") == 1;
    }
    assert PyInt("10") == Some(10) by {
      PyIntOfDigits("10");
      assert "10"[..1] == "1";
      assert DigitsValue("10") == 10;
    }
    assert EnvEntries([], 1) == [];
  }

  /** A label that `int` refuses is the error of that label; version is read first. */
  lemma {:induction false} BadLabelRejected(labels: Labels, configTimeout: int, availableCores: int, restartCores: Option<nat>)
    ensures PyInt(Label(labels, VersionLabel, "1")).None? ==>
      DeriveLimits(labels, configTimeout, availableCores, restartCores) == Err(BadVersion)
    ensures PyInt(Label(labels, VersionLabel, "1")).Some? && PyInt(Label(labels, TimeoutLabel, "10")).None? ==>
      DeriveLimits(labels, configTimeout, availableCores, restartCores) == Err(BadTimeout)
    ensures && PyInt(Label(labels, VersionLabel, "1")).Some? && PyInt(Label(labels, TimeoutLabel, "10")).Some?
            && restartCores.None? && PyInt(Label(labels, MaxCoresLabel, "1")).None? ==>
      DeriveLimits(labels, configTimeout, availableCores, restartCores) == Err(BadMaxCores)
  {
  }

  /** A version label padded with an information separator fails, as `int` refuses it. */
  lemma {:induction false} SeparatorPaddedVersionRejected(labels: Labels, configTimeout: int, availableCores: int, restartCores: Option<nat>)
    requires VersionLabel in labels && labels[VersionLabel] == [28 as char, '5']
    ensures DeriveLimits(labels, configTimeout, availableCores, restartCores) == Err(BadVersion)
  {
    PyIntRefusesSeparator();
    BadLabelRejected(labels, configTimeout, availableCores, restartCores);
  }

  /** Two items for the same value set the same variable only if they are the same item. */
  lemma {:induction false} EnvEntryInjective(a: string, b: string, v: string)
    requires EnvEntry(a, v) == EnvEntry(b, v)
    ensures a == b
  {
    assert |a| == |b|;
    assert a == EnvEntry(a, v)[..|a|];
    assert b == EnvEntry(b, v)[..|b|];
  }

  /**
   * Every core-count variable is set to the number of cores, each named variable exactly
   * once, and no other variable is set; an empty or missing label sets none.
   */
  lemma {:induction false} EnvAnnouncesCores(names: seq<string>, n: int)
    ensures forall k :: k in names ==> EnvEntry(k, IntToString(n)) in EnvEntries(names, n)
    ensures forall e :: e in EnvEntries(names, n) ==> exists k :: k in names && e == EnvEntry(k, IntToString(n))
    ensures Distinct(EnvEntries(names, n))
    ensures names == [] ==> EnvEntries(names, n) == []
  {
    var keys := Dedup(names);
    var env := EnvEntries(names, n);
    var v := IntToString(n);
    forall k | k in names ensures EnvEntry(k, IntToString(n)) in env {
      var i :| 0 <= i < |keys| && keys[i] == k;
      assert env[i] == EnvEntry(k, IntToString(n));
    }
    forall e | e in env ensures exists k :: k in names && e == EnvEntry(k, IntToString(n)) {
      var i :| 0 <= i < |env| && env[i] == e;
      assert keys[i] in names;
    }
    forall i, j | 0 <= i < j < |env| ensures env[i] != env[j] {
      if env[i] == env[j] {
        EnvEntryInjective(keys[i], keys[j], v);
      }
    }
  }

  /**
   * Every item of the derived `Env` list sets a variable named in the core-count label to a
   * value that reads back as the number of cores.
   */
  lemma {:induction false} EnvValueReadsBack(labels: Labels, configTimeout: int, availableCores: int, restartCores: Option<nat>, l: KernelLimits)
    requires DeriveLimits(labels, configTimeout, availableCores, restartCores) == Ok(l)
    ensures forall e :: e in l.env ==>
      exists k, v :: e == EnvEntry(k, v) && k in CoreCountEnvNames(Label(labels, CoreCountEnvsLabel, "")) && PyInt(v) == Some(l.numCores)
  {
    var names := CoreCountEnvNames(Label(labels, CoreCountEnvsLabel, ""));
    assert l.env == EnvEntries(names, l.numCores);
    EnvAnnouncesCores(names, l.numCores);
    PyIntOfIntToString(l.numCores);
    forall e | e in l.env
      ensures exists k, v :: e == EnvEntry(k, v) && k in names && PyInt(v) == Some(l.numCores)
    {
      var k :| k in names && e == EnvEntry(k, IntToString(l.numCores));
      assert e == EnvEntry(k, IntToString(l.numCores)) && PyInt(IntToString(l.numCores)) == Some(l.numCores);
    }
  }

  // ---------------------------------------------------------------------------
  // Cpuset

  predicate IsLeast(s: set<nat>, m: nat) {
    m in s && forall y :: y in s ==> m <= y
  }

  lemma {:induction false} LeastExists(s: set<nat>)
    requires s != {}
    ensures exists m :: IsLeast(s, m)
    decreases |s|
  {
    var x :| x in s;
    if s - {x} == {} {
      assert s == {x};
      assert IsLeast(s, x);
    } else {
      LeastExists(s - {x});
      var m :| IsLeast(s - {x}, m);
      assert forall y :: y in s ==> y == x || y in s - {x};
      if x < m { assert IsLeast(s, x); } else { assert IsLeast(s, m); }
    }
  }

  function Least(s: set<nat>): (m: nat)
    requires s != {}
    ensures IsLeast(s, m)
  {
    LeastExists(s);
    var m :| IsLeast(s, m);
    m
  }

  /** `sorted(s)`. */
  function SortedCores(s: set<nat>): (r: seq<nat>)
    ensures forall i, j :: 0 <= i < j < |r| ==> r[i] < r[j]
    ensures forall x :: x in r <==> x in s
    decreases |s|
  {
    if s == {} then []
    else
      var m := Least(s);
      var rest := SortedCores(s - {m});
      assert forall i :: 0 <= i < |rest| ==> m < rest[i] by {
        forall i | 0 <= i < |rest| ensures m < rest[i] {
          assert rest[i] in s - {m};
        }
      }
      [m] + rest
  }

  /** `','.join(map(str, sorted(s)))`, the CpusetCpus value. */
  function Cpuset(s: set<nat>): (r: string)
    ensures r == "" <==> s == {}
  {
    var ps := IntStrings(SortedCores(s));
    assert s != {} ==> |ps| > 0 && |ps[0]| > 0 by {
      if s != {} {
        assert Least(s) in SortedCores(s);
      }
    }
    Join(ps, ',')
  }

  /** An empty core set pins to nothing; otherwise the cpuset reads back as the sorted cores. */
  lemma {:induction false} CpusetRoundTrip(s: set<nat>)
    ensures s == {} ==> Cpuset(s) == ""
    ensures s != {} ==> ParseAll(Split(Cpuset(s), ','), PyInt) == Some(SortedCores(s))
  {
    if s != {} {
      var cores := SortedCores(s);
      var x := Least(s);
      assert x in cores;
      var ps := IntStrings(cores);
      forall i | 0 <= i < |ps| ensures ',' !in ps[i] {
        assert AllDigits(ps[i]);
        assert forall j :: 0 <= j < |ps[i]| ==> ps[i][j] != ',';
      }
      SplitJoin(ps, ',');
      PyIntsOfIntStrings(cores);
    }
  }
}
