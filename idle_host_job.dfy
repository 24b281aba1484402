/**
 * The idle-host termination job: one pass over the idle ephemeral hosts of
 * every distro. Per distro it computes how many of the oldest idle hosts to
 * evaluate unconditionally, walks the hosts oldest first, evaluates the
 * first that many and after them only those with an outdated AMI, and for
 * every evaluated host that the per-host decision marks for termination
 * bumps the job's counter and records the host's id.
 *
 * The host, distro, scheduler-config and task queries, the decommissioning
 * of hosts whose distro is missing and the enqueueing of termination jobs
 * are answers of an Environment given to the job.
 */
module IdleHostJobs {
  import opened Wrappers
  import opened IdleHostPolicy

  /** The idle ephemeral hosts of one distro, oldest creation time first, and the distro's running host count. */
  datatype IdleHostsByDistro = IdleHostsByDistro(distroId: string, runningHostsCount: int, idleHosts: seq<Host>)

  /** The answers of the stores and services one pass of the job consults. */
  datatype Environment = Environment(
    policy: Collaborators,
    idleEphemeralGroupedByDistroId: Result<seq<IdleHostsByDistro>, Error>,
    findDistros: seq<string> -> Result<seq<Distro>, Error>,
    findHostsInDistros: seq<string> -> Result<seq<Host>, Error>,
    setDecommissioned: Host -> Option<Error>,
    schedulerConfig: Result<SchedulerConfig, Error>,
    enqueueTermination: (Host, Reason) -> Option<Error>)

  /** The zero value a Go map lookup yields for a distro id it does not hold. */
  const ZeroDistro: Distro := Distro("", "", 0, 0)

  // ---------------------------------------------------------------------
  // The evaluation budget and the hosts evaluated
  // ---------------------------------------------------------------------

  /** How many of the oldest idle hosts are evaluated whatever their AMI: the surplus over the minimum, at most all idle hosts. */
  function GetMinNumHostsToEvaluate(info: IdleHostsByDistro, minimumHosts: int): (r: int)
    ensures 0 <= r <= |info.idleHosts|
    ensures info.runningHostsCount - minimumHosts <= 0 ==> r == 0
    ensures info.runningHostsCount - minimumHosts > 0 ==>
      r <= info.runningHostsCount - minimumHosts &&
      (r == |info.idleHosts| || r == info.runningHostsCount - minimumHosts)
  {
    var maxHostsToTerminate := info.runningHostsCount - minimumHosts;
    if maxHostsToTerminate <= 0 then 0
    else if |info.idleHosts| > maxHostsToTerminate then maxHostsToTerminate
    else |info.idleHosts|
  }

  /** The budget for five running hosts over a minimum of three with four idle, and for two under a minimum of five. */
  lemma BudgetExamples(a: Host, b: Host, c: Host, e: Host)
    ensures GetMinNumHostsToEvaluate(IdleHostsByDistro("d", 5, [a, b, c, e]), 3) == 2
    ensures GetMinNumHostsToEvaluate(IdleHostsByDistro("d", 2, [a, b, c, e]), 5) == 0
  {
  }

  /** The hosts with an outdated AMI, in their original order. */
  function OutdatedOnly(hosts: seq<Host>, d: Distro): (r: seq<Host>)
    ensures |r| <= |hosts|
    ensures forall x :: x in r <==> x in hosts && HostHasOutdatedAMI(x, d)
  {
    if hosts == [] then []
    else (if HostHasOutdatedAMI(hosts[0], d) then [hosts[0]] else []) + OutdatedOnly(hosts[1..], d)
  }

  /** Keeping the outdated hosts of a concatenation keeps those of each part, in order. */
  lemma {:induction false} OutdatedOnlyConcat(a: seq<Host>, b: seq<Host>, d: Distro)
    ensures OutdatedOnly(a + b, d) == OutdatedOnly(a, d) + OutdatedOnly(b, d)
  {
    if a == [] {
      assert a + b == b;
    } else {
      assert (a + b)[0] == a[0];
      assert (a + b)[1..] == a[1..] + b;
      OutdatedOnlyConcat(a[1..], b, d);
    }
  }

  /** The hosts a pass evaluates: the first budget ones, then those with an outdated AMI. */
  function HostsToEvaluate(hosts: seq<Host>, budget: nat, d: Distro): seq<Host> {
    var n := if budget <= |hosts| then budget else |hosts|;
    hosts[..n] + OutdatedOnly(hosts[n..], d)
  }

  /** The evaluated hosts: all of the first budget, then exactly the outdated ones, in their original order. */
  lemma HostsToEvaluateShape(hosts: seq<Host>, budget: nat, d: Distro)
    requires budget <= |hosts|
    ensures var r := HostsToEvaluate(hosts, budget, d);
      |r| >= budget && r[..budget] == hosts[..budget] &&
      r[budget..] == OutdatedOnly(hosts[budget..], d) &&
      (forall x :: x in r[budget..] <==> x in hosts[budget..] && HostHasOutdatedAMI(x, d))
  {
    var r := HostsToEvaluate(hosts, budget, d);
    assert r[budget..] == OutdatedOnly(hosts[budget..], d);
  }

  /** Within the surplus every idle host is evaluated; with no surplus only the outdated ones are. */
  lemma HostsToEvaluateExtremes(hosts: seq<Host>, d: Distro)
    ensures HostsToEvaluate(hosts, |hosts|, d) == hosts
    ensures HostsToEvaluate(hosts, 0, d) == OutdatedOnly(hosts, d)
  {
    assert hosts[..|hosts|] == hosts;
    assert hosts[|hosts|..] == [];
    assert hosts[..0] == [];
    assert hosts[0..] == hosts;
  }

  // ---------------------------------------------------------------------
  // What evaluating hosts records
  // ---------------------------------------------------------------------

  /** The error the job records for a host: the exemption's, the idle-info failure, or the enqueue failure. */
  function HostError(cfg: SchedulerConfig, h: Host, d: Distro, env: Environment): Option<Error> {
    match Decide(cfg, h, d, env.policy)
    case Exempted(e) => e
    case IdleInfoFailed(e) => Some(GettingIdleInfo(e))
    case Retain => None
    case Terminate(r) => env.enqueueTermination(h, r)
  }

  /** What adding an optional error appends to the job's errors: nothing for nil. */
  function ErrorList(e: Option<Error>): seq<Error> {
    if e.Some? then [e.value] else []
  }

  /** The ids of the hosts marked for termination, in evaluation order. */
  function TerminatedIds(cfg: SchedulerConfig, hosts: seq<Host>, d: Distro, env: Environment): seq<string> {
    if hosts == [] then []
    else
      var h := hosts[|hosts| - 1];
      TerminatedIds(cfg, hosts[..|hosts| - 1], d, env) +
      (if Decide(cfg, h, d, env.policy).Terminate? then [h.id] else [])
  }

  /** The errors evaluating the hosts records, in evaluation order. */
  function HostErrors(cfg: SchedulerConfig, hosts: seq<Host>, d: Distro, env: Environment): seq<Error> {
    if hosts == [] then []
    else HostErrors(cfg, hosts[..|hosts| - 1], d, env) + ErrorList(HostError(cfg, hosts[|hosts| - 1], d, env))
  }

  /** Evaluating one more host appends its record. */
  lemma EvaluationStep(cfg: SchedulerConfig, hosts: seq<Host>, h: Host, d: Distro, env: Environment)
    ensures TerminatedIds(cfg, hosts + [h], d, env) ==
      TerminatedIds(cfg, hosts, d, env) + (if Decide(cfg, h, d, env.policy).Terminate? then [h.id] else [])
    ensures HostErrors(cfg, hosts + [h], d, env) == HostErrors(cfg, hosts, d, env) + ErrorList(HostError(cfg, h, d, env))
  {
    assert (hosts + [h])[..|hosts|] == hosts;
  }

  /** Within the budget, the walked prefix is evaluated whole. */
  lemma SelectionWithinBudget(hosts: seq<Host>, i: nat, budget: nat, d: Distro)
    requires i <= |hosts| && i <= budget
    ensures HostsToEvaluate(hosts[..i], budget, d) == hosts[..i]
  {
    assert hosts[..i][..i] == hosts[..i];
    assert hosts[..i][i..] == [];
  }

  /** Past the budget, one more walked host is evaluated exactly when it is outdated. */
  lemma SelectionPastBudget(hosts: seq<Host>, i: nat, budget: nat, d: Distro)
    requires budget <= i < |hosts|
    ensures HostsToEvaluate(hosts[..i + 1], budget, d) ==
      HostsToEvaluate(hosts[..i], budget, d) + (if HostHasOutdatedAMI(hosts[i], d) then [hosts[i]] else [])
  {
    var h := hosts[i];
    var head := hosts[..budget];
    var mid := hosts[budget..i];
    assert hosts[..i + 1][..budget] == head && hosts[..i][..budget] == head;
    assert hosts[..i + 1][budget..] == mid + [h];
    assert hosts[..i][budget..] == mid;
    OutdatedOnlyConcat(mid, [h], d);
    assert OutdatedOnly([h], d) == (if HostHasOutdatedAMI(h, d) then [h] else []) by {
      assert [h][1..] == [];
    }
    Assoc(head, OutdatedOnly(mid, d), OutdatedOnly([h], d));
  }

  /** Walking one more idle host adds it to the evaluated hosts when it is within the budget or outdated. */
  lemma SelectionStep(hosts: seq<Host>, i: nat, budget: nat, d: Distro)
    requires i < |hosts|
    ensures |HostsToEvaluate(hosts[..i], budget, d)| >= budget <==> i >= budget
    ensures HostsToEvaluate(hosts[..i + 1], budget, d) ==
      HostsToEvaluate(hosts[..i], budget, d) +
      (if i < budget || HostHasOutdatedAMI(hosts[i], d) then [hosts[i]] else [])
  {
    if i >= budget {
      SelectionPastBudget(hosts, i, budget, d);
      assert |hosts[..i][..budget]| == budget;
    } else {
      SelectionWithinBudget(hosts, i, budget, d);
      SelectionWithinBudget(hosts, i + 1, budget, d);
      assert hosts[..i + 1] == hosts[..i] + [hosts[i]];
    }
  }

  /** Exactly the hosts whose decision is to terminate are recorded. */
  lemma {:induction false} TerminatedIdsExact(cfg: SchedulerConfig, hosts: seq<Host>, d: Distro, env: Environment)
    ensures |TerminatedIds(cfg, hosts, d, env)| <= |hosts|
    ensures forall k :: 0 <= k < |TerminatedIds(cfg, hosts, d, env)| ==>
      exists j :: 0 <= j < |hosts| && hosts[j].id == TerminatedIds(cfg, hosts, d, env)[k] &&
                  Decide(cfg, hosts[j], d, env.policy).Terminate?
    ensures forall j :: 0 <= j < |hosts| && Decide(cfg, hosts[j], d, env.policy).Terminate? ==>
      hosts[j].id in TerminatedIds(cfg, hosts, d, env)
  {
    if hosts != [] {
      var n := |hosts| - 1;
      var front := hosts[..n];
      TerminatedIdsExact(cfg, front, d, env);
      var ids := TerminatedIds(cfg, hosts, d, env);
      var frontIds := TerminatedIds(cfg, front, d, env);
      assert ids == frontIds + (if Decide(cfg, hosts[n], d, env.policy).Terminate? then [hosts[n].id] else []);
      forall k | 0 <= k < |ids|
        ensures exists j :: 0 <= j < |hosts| && hosts[j].id == ids[k] && Decide(cfg, hosts[j], d, env.policy).Terminate?
      {
        if k < |frontIds| {
          var j :| 0 <= j < |front| && front[j].id == frontIds[k] && Decide(cfg, front[j], d, env.policy).Terminate?;
          assert hosts[j] == front[j];
        } else {
          assert ids[k] == hosts[n].id;
        }
      }
      forall j | 0 <= j < |hosts| && Decide(cfg, hosts[j], d, env.policy).Terminate?
        ensures hosts[j].id in ids
      {
        if j < n {
          assert front[j] == hosts[j];
        }
      }
    }
  }

  /** A host that is exempt (a static host, say) is never recorded as terminated. */
  lemma ExemptHostsNotTerminated(cfg: SchedulerConfig, hosts: seq<Host>, d: Distro, env: Environment, id: string)
    requires forall j :: 0 <= j < |hosts| && hosts[j].id == id ==>
      CheckTerminationExemptions(hosts[j], env.policy.billing(hosts[j])).exitEarly
    ensures id !in TerminatedIds(cfg, hosts, d, env)
  {
    TerminatedIdsExact(cfg, hosts, d, env);
  }

  // ---------------------------------------------------------------------
  // One pass over all distros
  // ---------------------------------------------------------------------

  /** The distro ids of the snapshot, in its order. */
  function DistroIds(infos: seq<IdleHostsByDistro>): seq<string> {
    seq(|infos|, k requires 0 <= k < |infos| => infos[k].distroId)
  }

  /** The ids of the distros found. */
  function FoundIds(found: seq<Distro>): seq<string> {
    seq(|found|, k requires 0 <= k < |found| => found[k].id)
  }

  /** The ids of a that are not in b, in the order of a. */
  function SetDifference(a: seq<string>, b: seq<string>): (r: seq<string>)
    ensures forall x :: x in r <==> x in a && x !in b
    ensures |r| <= |a|
  {
    if a == [] then []
    else (if a[0] in b then [] else [a[0]]) + SetDifference(a[1..], b)
  }

  /** The distros keyed by id; of two distros with one id, the later wins. */
  function DistrosById(found: seq<Distro>): map<string, Distro> {
    if found == [] then map[]
    else DistrosById(found[..|found| - 1])[found[|found| - 1].id := found[|found| - 1]]
  }

  /** Every found id is a key, mapped to the last distro in the list carrying it. */
  lemma {:induction false} DistrosByIdLastWins(found: seq<Distro>)
    ensures forall id :: id in DistrosById(found) <==> id in FoundIds(found)
    ensures forall id :: id in DistrosById(found) ==>
      exists k :: 0 <= k < |found| && found[k] == DistrosById(found)[id] && found[k].id == id &&
                  forall j :: k < j < |found| ==> found[j].id != id
  {
    if found != [] {
      var n := |found| - 1;
      var front := found[..n];
      DistrosByIdLastWins(front);
      var m := DistrosById(found);
      assert m == DistrosById(front)[found[n].id := found[n]];
      assert FoundIds(found) == FoundIds(front) + [found[n].id];
      forall id | id in m
        ensures exists k :: 0 <= k < |found| && found[k] == m[id] && found[k].id == id &&
                            forall j :: k < j < |found| ==> found[j].id != id
      {
        if id == found[n].id {
          assert found[n] == m[id];
        } else {
          var k :| 0 <= k < |front| && front[k] == DistrosById(front)[id] && front[k].id == id &&
                   forall j :: k < j < |front| ==> front[j].id != id;
          assert found[k] == front[k];
          forall j | k < j < |found| ensures found[j].id != id {
            if j < n { assert found[j] == front[j]; }
          }
        }
      }
    }
  }

  /** The distro a group is evaluated against: the one found, or the zero distro. */
  function DistroFor(distros: map<string, Distro>, id: string): Distro {
    if id in distros then distros[id] else ZeroDistro
  }

  /** The hosts of one group the pass evaluates. */
  function Evaluated(info: IdleHostsByDistro, d: Distro): seq<Host> {
    HostsToEvaluate(info.idleHosts, GetMinNumHostsToEvaluate(info, d.minimumHosts), d)
  }

  /** The ids a pass over the groups records as terminated, group by group. */
  function CycleTerminatedIds(cfg: SchedulerConfig, infos: seq<IdleHostsByDistro>, distros: map<string, Distro>, env: Environment): seq<string> {
    if infos == [] then []
    else
      var info := infos[|infos| - 1];
      var d := DistroFor(distros, info.distroId);
      CycleTerminatedIds(cfg, infos[..|infos| - 1], distros, env) + TerminatedIds(cfg, Evaluated(info, d), d, env)
  }

  /** The errors a pass over the groups records, group by group. */
  function CycleErrors(cfg: SchedulerConfig, infos: seq<IdleHostsByDistro>, distros: map<string, Distro>, env: Environment): seq<Error> {
    if infos == [] then []
    else
      var info := infos[|infos| - 1];
      var d := DistroFor(distros, info.distroId);
      CycleErrors(cfg, infos[..|infos| - 1], distros, env) + HostErrors(cfg, Evaluated(info, d), d, env)
  }

  /** Evaluating one more group appends its records. */
  lemma CycleStep(cfg: SchedulerConfig, infos: seq<IdleHostsByDistro>, k: nat, distros: map<string, Distro>, env: Environment)
    requires k < |infos|
    ensures var d := DistroFor(distros, infos[k].distroId);
      CycleTerminatedIds(cfg, infos[..k + 1], distros, env) ==
        CycleTerminatedIds(cfg, infos[..k], distros, env) + TerminatedIds(cfg, Evaluated(infos[k], d), d, env) &&
      CycleErrors(cfg, infos[..k + 1], distros, env) ==
        CycleErrors(cfg, infos[..k], distros, env) + HostErrors(cfg, Evaluated(infos[k], d), d, env)
  {
    assert infos[..k + 1][..k] == infos[..k];
  }

  /** The errors decommissioning the hosts of missing distros records. */
  function DecommissionErrors(hosts: seq<Host>, env: Environment): seq<Error> {
    if hosts == [] then []
    else
      var h := hosts[|hosts| - 1];
      DecommissionErrors(hosts[..|hosts| - 1], env) +
      (match env.setDecommissioned(h) case None => [] case Some(e) => [SettingDecommissioned(h.id, e)])
  }

  /** Whether a pass gets to evaluate hosts, and with what; or the errors it stops with. */
  datatype Preparation =
    | Abort(abortErrors: seq<Error>)
    | Proceed(infos: seq<IdleHostsByDistro>, distros: map<string, Distro>, cfg: SchedulerConfig)

  function Prepare(env: Environment): Preparation {
    match env.idleEphemeralGroupedByDistroId
    case Err(e) => Abort([FindingIdleHosts(e)])
    case Ok(infos) =>
      var ids := DistroIds(infos);
      match env.findDistros(ids)
      case Err(e) => Abort([FindingDistros(e)])
      case Ok(found) =>
        var missingHosts :=
          if |ids| > |found| then env.findHostsInDistros(SetDifference(ids, FoundIds(found))) else Ok([]);
        match missingHosts
        case Err(e) => Abort([FindingHostsInMissingDistros(e)])
        case Ok(hosts) =>
          if DecommissionErrors(hosts, env) != [] then Abort(DecommissionErrors(hosts, env))
          else
            match env.schedulerConfig
            case Err(e) => Abort([GettingSchedulerConfig(e)])
            case Ok(cfg) => Proceed(infos, DistrosById(found), cfg)
  }

  lemma Assoc<T>(a: seq<T>, b: seq<T>, c: seq<T>)
    ensures a + b + c == a + (b + c)
  {
  }

  /** Distinct elements. */
  predicate NoDuplicates(s: seq<string>) {
    forall i, j :: 0 <= i < j < |s| ==> s[i] != s[j]
  }

  lemma {:induction false} DistinctCardinality(s: seq<string>)
    requires NoDuplicates(s)
    ensures |set x | x in s| == |s|
  {
    if s != [] {
      var rest := s[1..];
      assert NoDuplicates(rest) by {
        forall i, j | 0 <= i < j < |rest| ensures rest[i] != rest[j] {
          assert rest[i] == s[i + 1] && rest[j] == s[j + 1];
        }
      }
      DistinctCardinality(rest);
      assert (set x | x in s) == {s[0]} + (set x | x in rest);
      assert s[0] !in (set x | x in rest);
    }
  }

  /**
   * When the snapshot's distro ids are distinct and the distros found are
   * distinct ones among them, comparing the two counts detects exactly the
   * passes where some distro is missing.
   */
  lemma MissingDistrosIffCountShort(ids: seq<string>, foundIds: seq<string>)
    requires NoDuplicates(ids) && NoDuplicates(foundIds)
    requires forall x :: x in foundIds ==> x in ids
    ensures |ids| > |foundIds| <==> SetDifference(ids, foundIds) != []
  {
    var a := set x | x in ids;
    var b := set x | x in foundIds;
    DistinctCardinality(ids);
    DistinctCardinality(foundIds);
    assert b <= a;
    if SetDifference(ids, foundIds) == [] {
      assert a == b;
    } else {
      var x := SetDifference(ids, foundIds)[0];
      assert x in a - b;
      assert |a - b| + |b| == |a| by {
        assert a == (a - b) + b;
      }
    }
  }

  /** A pass stopped by a failing lookup reports exactly that failure. */
  lemma LookupFailuresAbort(env: Environment)
    ensures env.idleEphemeralGroupedByDistroId.Err? ==>
      Prepare(env) == Abort([FindingIdleHosts(env.idleEphemeralGroupedByDistroId.error)])
    ensures (env.idleEphemeralGroupedByDistroId.Ok? &&
             env.findDistros(DistroIds(env.idleEphemeralGroupedByDistroId.value)).Err?) ==>
      Prepare(env) == Abort([FindingDistros(env.findDistros(DistroIds(env.idleEphemeralGroupedByDistroId.value)).error)])
    ensures Prepare(env).Proceed? ==> env.schedulerConfig.Ok? && Prepare(env).cfg == env.schedulerConfig.value
  {
  }

  /** Every id a pass records belongs to an evaluated host of some group, decided for termination. */
  lemma {:induction false} CycleTerminatedIdsSound(cfg: SchedulerConfig, infos: seq<IdleHostsByDistro>, distros: map<string, Distro>, env: Environment)
    ensures forall id :: id in CycleTerminatedIds(cfg, infos, distros, env) ==>
      exists g :: 0 <= g < |infos| && id in TerminatedIds(cfg, Evaluated(infos[g], DistroFor(distros, infos[g].distroId)), DistroFor(distros, infos[g].distroId), env)
  {
    if infos != [] {
      var n := |infos| - 1;
      CycleTerminatedIdsSound(cfg, infos[..n], distros, env);
      forall id | id in CycleTerminatedIds(cfg, infos, distros, env)
        ensures exists g :: 0 <= g < |infos| && id in TerminatedIds(cfg, Evaluated(infos[g], DistroFor(distros, infos[g].distroId)), DistroFor(distros, infos[g].distroId), env)
      {
        if id in CycleTerminatedIds(cfg, infos[..n], distros, env) {
          var g :| 0 <= g < |infos[..n]| && id in TerminatedIds(cfg, Evaluated(infos[..n][g], DistroFor(distros, infos[..n][g].distroId)), DistroFor(distros, infos[..n][g].distroId), env);
          assert infos[..n][g] == infos[g];
        } else {
          assert id in TerminatedIds(cfg, Evaluated(infos[n], DistroFor(distros, infos[n].distroId)), DistroFor(distros, infos[n].distroId), env);
        }
      }
    }
  }

  // ---------------------------------------------------------------------
  // Loops of the pass
  // ---------------------------------------------------------------------

  method CollectDistroIdsToFind(infos: seq<IdleHostsByDistro>) returns (ids: seq<string>)
    ensures ids == DistroIds(infos)
  {
    ids := [];
    for k := 0 to |infos|
      invariant ids == DistroIds(infos[..k])
    {
      ids := ids + [infos[k].distroId];
    }
    assert infos[..|infos|] == infos;
  }

  method CollectDistroIdsFound(found: seq<Distro>) returns (ids: seq<string>)
    ensures ids == FoundIds(found)
  {
    ids := [];
    for k := 0 to |found|
      invariant ids == FoundIds(found[..k])
    {
      ids := ids + [found[k].id];
    }
    assert found[..|found|] == found;
  }

  method BuildDistrosMap(found: seq<Distro>) returns (m: map<string, Distro>)
    ensures m == DistrosById(found)
  {
    m := map[];
    for k := 0 to |found|
      invariant m == DistrosById(found[..k])
    {
      assert found[..k + 1][..k] == found[..k];
      m := m[found[k].id := found[k]];
    }
    assert found[..|found|] == found;
  }

  // ---------------------------------------------------------------------
  // The job
  // ---------------------------------------------------------------------

  class IdleHostJob {
    var terminated: int
    var terminatedHosts: seq<string>
    var errors: seq<Error>

    /** The counter counts the recorded ids. */
    ghost predicate Valid()
      reads this
    {
      terminated == |terminatedHosts|
    }

    constructor ()
      ensures Valid() && terminatedHosts == [] && errors == []
    {
      terminated := 0;
      terminatedHosts := [];
      errors := [];
    }

    /** Adds an error; a nil error adds nothing. */
    method AddError(e: Option<Error>)
      modifies this
      ensures errors == old(errors) + ErrorList(e)
      ensures terminated == old(terminated) && terminatedHosts == old(terminatedHosts)
    {
      if e.Some? {
        errors := errors + [e.value];
      }
    }

    /** Decides for one host; records it when it is to be terminated, and asks for its termination. */
    method CheckAndTerminateHost(cfg: SchedulerConfig, h: Host, d: Distro, env: Environment) returns (err: Option<Error>)
      requires Valid()
      modifies this
      ensures Valid()
      ensures err == HostError(cfg, h, d, env)
      ensures Decide(cfg, h, d, env.policy).Terminate? ==>
        terminated == old(terminated) + 1 && terminatedHosts == old(terminatedHosts) + [h.id]
      ensures !Decide(cfg, h, d, env.policy).Terminate? ==>
        terminated == old(terminated) && terminatedHosts == old(terminatedHosts)
      ensures errors == old(errors)
    {
      var exemption := CheckTerminationExemptions(h, env.policy.billing(h));
      if exemption.exitEarly {
        return exemption.err;
      }
      var idleInfo := GetIdleInfo(h, d, cfg, env.policy);
      if idleInfo.Err? {
        return Some(GettingIdleInfo(idleInfo.error));
      }
      var terminateReason := GetTerminationReason(idleInfo.value, env.policy.maxTeardownGroupThreshold);
      if terminateReason.Some? {
        terminated := terminated + 1;
        terminatedHosts := terminatedHosts + [h.id];
        return env.enqueueTermination(h, terminateReason.value);
      }
      return None;
    }

    /** Evaluates one host and adds the error it reports. */
    method EvaluateHost(cfg: SchedulerConfig, evaluated: seq<Host>, h: Host, d: Distro, env: Environment)
      requires Valid()
      modifies this
      ensures Valid()
      ensures terminatedHosts == old(terminatedHosts) + (if Decide(cfg, h, d, env.policy).Terminate? then [h.id] else [])
      ensures errors == old(errors) + ErrorList(HostError(cfg, h, d, env))
    {
      var err := CheckAndTerminateHost(cfg, h, d, env);
      AddError(err);
    }

    /** Walks one group's idle hosts oldest first, evaluating the budget's worth and then the outdated ones. */
    method EvaluateDistroHosts(cfg: SchedulerConfig, info: IdleHostsByDistro, d: Distro, env: Environment)
      returns (evaluated: seq<Host>)
      requires Valid()
      modifies this
      ensures Valid()
      ensures evaluated == Evaluated(info, d)
      ensures terminatedHosts == old(terminatedHosts) + TerminatedIds(cfg, evaluated, d, env)
      ensures terminated == old(terminated) + |TerminatedIds(cfg, evaluated, d, env)|
      ensures errors == old(errors) + HostErrors(cfg, evaluated, d, env)
    {
      var minNumHostsToEvaluate := GetMinNumHostsToEvaluate(info, d.minimumHosts);
      var hosts := info.idleHosts;
      evaluated := [];
      ghost var hosts0, errors0 := terminatedHosts, errors;
      for i := 0 to |hosts|
        invariant evaluated == HostsToEvaluate(hosts[..i], minNumHostsToEvaluate, d)
        invariant Valid()
        invariant terminatedHosts == hosts0 + TerminatedIds(cfg, evaluated, d, env)
        invariant errors == errors0 + HostErrors(cfg, evaluated, d, env)
      {
        var h := hosts[i];
        SelectionStep(hosts, i, minNumHostsToEvaluate, d);
        if |evaluated| < minNumHostsToEvaluate || HostHasOutdatedAMI(h, d) {
          EvaluationStep(cfg, evaluated, h, d, env);
          evaluated := evaluated + [h];
          EvaluateHost(cfg, evaluated, h, d, env);
        }
      }
      assert hosts[..|hosts|] == hosts;
    }

    /** Evaluates every group against its distro, in snapshot order. */
    method EvaluateAllDistros(cfg: SchedulerConfig, distroHosts: seq<IdleHostsByDistro>, distrosMap: map<string, Distro>, env: Environment)
      requires Valid()
      modifies this
      ensures Valid()
      ensures terminatedHosts == old(terminatedHosts) + CycleTerminatedIds(cfg, distroHosts, distrosMap, env)
      ensures errors == old(errors) + CycleErrors(cfg, distroHosts, distrosMap, env)
    {
      ghost var hosts0, errors0 := terminatedHosts, errors;
      for k := 0 to |distroHosts|
        invariant Valid()
        invariant terminatedHosts == hosts0 + CycleTerminatedIds(cfg, distroHosts[..k], distrosMap, env)
        invariant errors == errors0 + CycleErrors(cfg, distroHosts[..k], distrosMap, env)
      {
        CycleStep(cfg, distroHosts, k, distrosMap, env);
        var info := distroHosts[k];
        var currentDistro := DistroFor(distrosMap, info.distroId);
        var evaluated := EvaluateDistroHosts(cfg, info, currentDistro, env);
        Assoc(hosts0, CycleTerminatedIds(cfg, distroHosts[..k], distrosMap, env), TerminatedIds(cfg, evaluated, currentDistro, env));
        Assoc(errors0, CycleErrors(cfg, distroHosts[..k], distrosMap, env), HostErrors(cfg, evaluated, currentDistro, env));
      }
      assert distroHosts[..|distroHosts|] == distroHosts;
    }

    /** Decommissions the hosts of the distros that were not found, adding each failure. */
    method DecommissionHosts(hosts: seq<Host>, env: Environment)
      modifies this
      ensures errors == old(errors) + DecommissionErrors(hosts, env)
      ensures terminated == old(terminated) && terminatedHosts == old(terminatedHosts)
    {
      ghost var errors0 := errors;
      for k := 0 to |hosts|
        invariant errors == errors0 + DecommissionErrors(hosts[..k], env)
        invariant terminatedHosts == old(terminatedHosts) && terminated == old(terminated)
      {
        assert hosts[..k + 1][..k] == hosts[..k];
        var e := env.setDecommissioned(hosts[k]);
        AddError(if e.Some? then Some(SettingDecommissioned(hosts[k].id, e.value)) else None);
      }
      assert hosts[..|hosts|] == hosts;
    }

    /** One pass of the job over every distro's idle hosts. */
    method Run(env: Environment)
      requires Valid()
      modifies this
      ensures Valid()
      ensures old(errors) != [] ==> errors == old(errors) && terminatedHosts == old(terminatedHosts)
      ensures old(errors) == [] ==>
        match Prepare(env)
        case Abort(errs) => errors == errs && terminatedHosts == old(terminatedHosts)
        case Proceed(infos, distros, cfg) =>
          terminatedHosts == old(terminatedHosts) + CycleTerminatedIds(cfg, infos, distros, env) &&
          terminated == old(terminated) + |CycleTerminatedIds(cfg, infos, distros, env)| &&
          errors == CycleErrors(cfg, infos, distros, env)
    {
      if errors != [] {
        return;
      }
      if env.idleEphemeralGroupedByDistroId.Err? {
        AddError(Some(FindingIdleHosts(env.idleEphemeralGroupedByDistroId.error)));
        return;
      }
      var distroHosts := env.idleEphemeralGroupedByDistroId.value;
      var distroIdsToFind := CollectDistroIdsToFind(distroHosts);
      var distrosFound := env.findDistros(distroIdsToFind);
      if distrosFound.Err? {
        AddError(Some(FindingDistros(distrosFound.error)));
        return;
      }
      var found := distrosFound.value;
      if |distroIdsToFind| > |found| {
        var distroIdsFound := CollectDistroIdsFound(found);
        var missingDistroIds := SetDifference(distroIdsToFind, distroIdsFound);
        var hostsFound := env.findHostsInDistros(missingDistroIds);
        if hostsFound.Err? {
          AddError(Some(FindingHostsInMissingDistros(hostsFound.error)));
          return;
        }
        DecommissionHosts(hostsFound.value, env);
        if errors != [] {
          return;
        }
      }
      assert DecommissionErrors([], env) == [];
      var distrosMap := BuildDistrosMap(found);
      if env.schedulerConfig.Err? {
        AddError(Some(GettingSchedulerConfig(env.schedulerConfig.error)));
        return;
      }
      EvaluateAllDistros(env.schedulerConfig.value, distroHosts, distrosMap, env);
    }
  }
}
