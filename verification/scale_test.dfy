/**
 * The benchmark driver (`scale_test.py`): counts the provisioned hosts,
 * selects tests from a fixed registry, times each test once through Ansible
 * and once through FTL2, and records a speedup when both succeeded.
 * Running a playbook or an FTL2 procedure is outside the model: their
 * outcomes are parameters.
 */
module ScaleTest {
  import opened Wrappers
  import opened Ledger

  /** One registry entry: name, description and the Ansible playbook path. */
  datatype TestCase = TestCase(name: string, description: string, playbook: string)

  /** `TESTS`, in its declaration order. */
  const Tests: seq<TestCase> := [
    TestCase("gather_facts", "Gather facts from all hosts", "playbooks/gather_facts.yml"),
    TestCase("file_operations", "5x file create/stat/remove on all hosts (15 tasks)", "playbooks/file_operations.yml"),
    TestCase("install_package", "Install and remove a package on all hosts", "playbooks/install_package.yml"),
    TestCase("copy_and_template", "Copy 3 config files to all hosts, then clean up", "playbooks/copy_and_template.yml")
  ]

  /** A recorded run: seconds as stored in the result, and whether it succeeded. */
  datatype Timing = Timing(time: real, success: bool)

  /** What running `ansible-playbook` on a playbook amounts to: whether the file exists, the exit status, the seconds it took. */
  datatype AnsibleRun = AnsibleRun(playbookExists: bool, exitCode: int, elapsed: real)

  /** What awaiting an FTL2 test procedure amounts to: it returns or raises, after some seconds. */
  datatype Ftl2Run = Returned(elapsed: real) | Raised(elapsed: real, message: string)

  datatype BenchResult = BenchResult(name: string, description: string, hosts: nat,
                                     ansible: Option<Timing>, ftl2: Option<Timing>, speedup: Option<real>)

  /** Why the benchmark stops. */
  datatype BenchError =
    | NoHosts                  // `sys.exit(1)` when no host is provisioned
    | UnknownTest(name: string) // `TESTS[args.test]` raises KeyError
    | ZeroDivision(name: string) // the speedup divides by an FTL2 time of zero

  /** `run_ansible(playbook)`: a missing playbook fails in no time; otherwise success is a zero exit status. */
  function RunAnsible(run: AnsibleRun): (t: Timing)
    ensures t.success <==> run.playbookExists && run.exitCode == 0
    ensures !run.playbookExists ==> t.time == 0.0
    ensures run.playbookExists ==> t.time == run.elapsed
  {
    if !run.playbookExists then Timing(0.0, false)
    else Timing(run.elapsed, run.exitCode == 0)
  }

  /** `run_ftl2(func)`: success is returning without raising; the time is measured either way. */
  function RunFtl2(run: Ftl2Run): (t: Timing)
    ensures t.success <==> run.Returned?
    ensures t.time == run.elapsed
  {
    match run
    case Returned(elapsed) => Timing(elapsed, true)
    case Raised(elapsed, _) => Timing(elapsed, false)
  }

  /** `TESTS[name]`, if present. */
  function Lookup(tests: seq<TestCase>, name: string): (r: Option<TestCase>)
    ensures r.Some? ==> r.value in tests && r.value.name == name
    ensures r.None? <==> forall k :: 0 <= k < |tests| ==> tests[k].name != name
  {
    if |tests| == 0 then None
    else if tests[0].name == name then Some(tests[0])
    else
      var r := Lookup(tests[1..], name);
      assert forall k :: 1 <= k < |tests| ==> tests[k] == tests[1..][k - 1];
      r
  }

  /**
   * `{args.test: TESTS[args.test]} if args.test else TESTS`: no test name, or
   * the empty one, selects the whole registry in order; a known name selects
   * that test alone; an unknown one is an error.
   */
  function Select(test: Option<string>): (r: Result<seq<TestCase>, BenchError>)
    ensures test.None? || test == Some("") ==> r == Ok(Tests)
    ensures test.Some? && test.value != "" && r.Ok? ==>
      |r.value| == 1 && r.value[0] in Tests && r.value[0].name == test.value
    ensures r.Err? <==>
      test.Some? && test.value != "" && forall k :: 0 <= k < |Tests| ==> Tests[k].name != test.value
    ensures r.Err? ==> r.error == UnknownTest(test.value)
    ensures test.Some? && test.value != "" && r.Ok? ==>
      forall k :: 0 <= k < |Tests| && Tests[k].name == test.value ==> r.value == [Tests[k]]
  {
    RegistryNamesDistinct();
    if test.None? || test.value == "" then Ok(Tests)
    else
      match Lookup(Tests, test.value)
      case Some(t) => Ok([t])
      case None => Err(UnknownTest(test.value))
  }

  /** The registry names its tests without repetition, so a selected name picks one test. */
  lemma RegistryNamesDistinct()
    ensures forall i, j :: 0 <= i < j < |Tests| ==> Tests[i].name != Tests[j].name
  {
  }

  /**
   * One iteration of the result loop for test `t`. The result records the
   * test's name, description and the host count; an Ansible timing exactly
   * when not FTL2-only and an FTL2 timing exactly when not Ansible-only, each
   * from its own run; and a speedup exactly when both are present and
   * succeeded, equal to the Ansible time over the FTL2 time. It fails
   * exactly when that division is by zero.
   */
  function Measure(t: TestCase, hosts: nat, ftl2Only: bool, ansibleOnly: bool,
                   ansible: string -> AnsibleRun, ftl2: string -> Ftl2Run): (m: Result<BenchResult, BenchError>)
    ensures m.Err? <==> && !ftl2Only && !ansibleOnly && RunAnsible(ansible(t.playbook)).success
                        && ftl2(t.name).Returned? && ftl2(t.name).elapsed == 0.0
    ensures m.Err? ==> m.error == ZeroDivision(t.name)
    ensures m.Ok? ==>
      var b := m.value;
      && b.name == t.name && b.description == t.description && b.hosts == hosts
      && (b.ansible.Some? <==> !ftl2Only) && (b.ftl2.Some? <==> !ansibleOnly)
      && (b.ansible.Some? ==> b.ansible.value == RunAnsible(ansible(t.playbook)))
      && (b.ftl2.Some? ==> b.ftl2.value == RunFtl2(ftl2(t.name)))
      && (b.speedup.Some? <==> b.ansible.Some? && b.ftl2.Some? && b.ansible.value.success && b.ftl2.value.success)
      && (b.speedup.Some? ==> b.ftl2.value.time != 0.0 && b.speedup.value * b.ftl2.value.time == b.ansible.value.time)
  {
    var a := if ftl2Only then None else Some(RunAnsible(ansible(t.playbook)));
    var f := if ansibleOnly then None else Some(RunFtl2(ftl2(t.name)));
    if a.Some? && f.Some? && a.value.success && f.value.success then
      if f.value.time == 0.0 then Err(ZeroDivision(t.name))
      else Ok(BenchResult(t.name, t.description, hosts, a, f, Some(a.value.time / f.value.time)))
    else Ok(BenchResult(t.name, t.description, hosts, a, f, None))
  }

  /** `count_hosts()`: the number of ledger names with the scale prefix. */
  method CountHosts(store: StateStore) returns (n: nat)
    ensures n == |PrefixNames(store.entries)|
  {
    var names := store.Resources();
    n := |Matching(names)|;
    CountMatching(names, store.entries);
  }

  /**
   * `main()` up to the summary: stops when no host is provisioned or the
   * named test is unknown; otherwise measures the selected tests in registry
   * order and collects one result per test, stopping at the first division
   * by zero.
   */
  method Benchmark(store: StateStore, test: Option<string>, ftl2Only: bool, ansibleOnly: bool,
                   ansible: string -> AnsibleRun, ftl2: string -> Ftl2Run)
    returns (r: Result<seq<BenchResult>, BenchError>)
    ensures PrefixNames(store.entries) == {} ==> r == Err(NoHosts)
    ensures PrefixNames(store.entries) != {} && Select(test).Err? ==> r == Err(Select(test).error)
    ensures PrefixNames(store.entries) != {} && Select(test).Ok? ==>
      var tests := Select(test).value;
      var hosts := |PrefixNames(store.entries)|;
      && (r.Ok? ==>
            && |r.value| == |tests|
            && forall k :: 0 <= k < |tests| ==>
                 Measure(tests[k], hosts, ftl2Only, ansibleOnly, ansible, ftl2) == Ok(r.value[k]))
      && (r.Err? ==>
            exists k :: && 0 <= k < |tests|
                        && Measure(tests[k], hosts, ftl2Only, ansibleOnly, ansible, ftl2) == Err(r.error)
                        && forall i :: 0 <= i < k ==> Measure(tests[i], hosts, ftl2Only, ansibleOnly, ansible, ftl2).Ok?)
      && (r.Ok? <==> forall k :: 0 <= k < |tests| ==> Measure(tests[k], hosts, ftl2Only, ansibleOnly, ansible, ftl2).Ok?)
  {
    var hosts := CountHosts(store);
    if hosts == 0 {
      return Err(NoHosts);
    }
    var selected := Select(test);
    if selected.Err? {
      return Err(selected.error);
    }
    var tests := selected.value;
    var results: seq<BenchResult> := [];
    for k := 0 to |tests|
      invariant |results| == k
      invariant forall i :: 0 <= i < k ==> Measure(tests[i], hosts, ftl2Only, ansibleOnly, ansible, ftl2) == Ok(results[i])
    {
      var t := tests[k];
      var result := BenchResult(t.name, t.description, hosts, None, None, None);
      if !ftl2Only {
        var timing := RunAnsible(ansible(t.playbook));
        result := result.(ansible := Some(timing));
      }
      if !ansibleOnly {
        var timing := RunFtl2(ftl2(t.name));
        result := result.(ftl2 := Some(timing));
      }
      if result.ansible.Some? && result.ftl2.Some? {
        if result.ansible.value.success && result.ftl2.value.success {
          if result.ftl2.value.time == 0.0 {
            return Err(ZeroDivision(t.name));
          }
          result := result.(speedup := Some(result.ansible.value.time / result.ftl2.value.time));
        }
      }
      results := results + [result];
    }
    r := Ok(results);
  }
}
