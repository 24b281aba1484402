/**
 * The per-host decision of the idle-host termination job: the exemption
 * chain, the resolution of a host's idle threshold (task-group aware) and
 * the first-match-wins choice of a termination reason.
 *
 * Everything here is a pure function of a host record, its distro, the
 * scheduler configuration and the answers of the collaborators the job
 * consults (the task store and the cloud manager), which are inputs.
 */
module IdleHostPolicy {
  import opened Wrappers

  /** A Go time.Duration: a count of nanoseconds. */
  type Duration = int

  const Second: Duration := 1_000_000_000
  const Minute: Duration := 60 * Second

  /** A host waiting for its agent is left alone while under this much idle or silent time. */
  const IdleWaitingForAgentCutoff: Duration := 10 * Minute
  /** A host with more than this much time left before its next payment is left alone. */
  const MaxTimeTilNextPayment: Duration := 5 * Minute
  /** The fixed idle threshold of a host assigned to a single-host task group. */
  const SingleHostTaskGroupIdleCutoff: Duration := 5 * Minute

  /** The status a task has once it has succeeded. */
  const TaskSucceeded: string := "success"

  /** The errors the job collects; External stands for an error a collaborator reported. */
  datatype Error =
    | External(detail: string)
    | FindingIdleHosts(cause: Error)
    | FindingDistros(cause: Error)
    | FindingHostsInMissingDistros(cause: Error)
    | SettingDecommissioned(hostId: string, cause: Error)
    | GettingSchedulerConfig(cause: Error)
    | NonEphemeralHost(hostId: string)
    | GettingManagerOptions(hostId: string, cause: Error)
    | GettingManager(hostId: string, cause: Error)
    | FindingRunningTask(taskId: string, execution: int, cause: Error)
    | RunningTaskNotFound(taskId: string, execution: int)
    | FindingLastTask(taskId: string, cause: Error)
    | LastTaskNotFound(taskId: string)
    | CheckingSingleHostTaskGroup(cause: Error)
    | GettingIdleInfo(cause: Error)

  /**
   * What the job reads of a host. The accessor methods of the host record
   * (IsEphemeral, IsWaitingForAgent, IsTearingDown, IdleTime,
   * GetElapsedCommunicationTime, GetAMI) and the elapsed time since the
   * teardown of its task group started are given as values.
   */
  datatype Host = Host(
    id: string,
    isEphemeral: bool,
    isWaitingForAgent: bool,
    isTearingDown: bool,
    idleTime: Duration,
    elapsedCommunicationTime: Duration,
    timeSinceTeardownStart: Duration,
    runningTask: string,
    runningTaskExecution: int,
    runningTaskGroup: string,
    lastTask: string,
    lastGroup: string,
    ami: string)

  /** A distro: its default AMI and its host allocator settings. */
  datatype Distro = Distro(
    id: string,
    defaultAMI: string,
    minimumHosts: int,
    acceptableHostIdleTime: Duration)

  datatype SchedulerConfig = SchedulerConfig(acceptableHostIdleTimeSeconds: int)

  /** What the job reads of a task. */
  datatype Task = Task(isPartOfSingleHostTaskGroup: bool, status: string)

  /** The answer of a task-store lookup: a task, no task, or a store error. */
  datatype TaskLookup = TaskFound(task: Task) | TaskMissing | TaskLookupFailed(cause: Error)

  /** Getting the host's cloud manager options and manager, then asking it the time until the next payment. */
  datatype BillingLookup =
    | ManagerOptionsFailed(cause: Error)
    | ManagerFailed(cause: Error)
    | TilNextPayment(untilPayment: Duration)

  /** The collaborators the per-host decision consults, and the global teardown threshold. */
  datatype Collaborators = Collaborators(
    findTaskByIdAndExecution: (string, int) -> TaskLookup,
    findTaskById: string -> TaskLookup,
    billing: Host -> BillingLookup,
    maxTeardownGroupThreshold: Duration)

  predicate HostHasOutdatedAMI(h: Host, d: Distro) {
    h.ami != d.defaultAMI
  }

  // ---------------------------------------------------------------------
  // Exemptions
  // ---------------------------------------------------------------------

  /** Whether the job must leave the host alone, and the error to report if any. */
  datatype Exemption = Exemption(exitEarly: bool, err: Option<Error>)

  /** The waiting-for-agent grace window: either duration under the cutoff suffices. */
  predicate InAgentGraceWindow(h: Host) {
    h.isWaitingForAgent &&
    (h.elapsedCommunicationTime < IdleWaitingForAgentCutoff || h.idleTime < IdleWaitingForAgentCutoff)
  }

  /** The exemption chain, first match wins. */
  function CheckTerminationExemptions(h: Host, billing: BillingLookup): Exemption {
    if !h.isEphemeral then
      Exemption(true, Some(NonEphemeralHost(h.id)))
    else if InAgentGraceWindow(h) then
      Exemption(true, None)
    else
      match billing
      case ManagerOptionsFailed(e) => Exemption(true, Some(GettingManagerOptions(h.id, e)))
      case ManagerFailed(e) => Exemption(true, Some(GettingManager(h.id, e)))
      case TilNextPayment(t) => Exemption(t > MaxTimeTilNextPayment, None)
  }

  /** A host is open to termination exactly when no link of the chain applies. */
  lemma NotExemptIff(h: Host, billing: BillingLookup)
    ensures !CheckTerminationExemptions(h, billing).exitEarly <==>
      h.isEphemeral && !InAgentGraceWindow(h) &&
      billing.TilNextPayment? && billing.untilPayment <= MaxTimeTilNextPayment
    ensures !CheckTerminationExemptions(h, billing).exitEarly ==> CheckTerminationExemptions(h, billing).err == None
  {
  }

  /** Which exemptions report an error: a non-ephemeral host and a failure to reach the cloud manager. */
  lemma ExemptionErrors(h: Host, billing: BillingLookup)
    ensures !h.isEphemeral ==> CheckTerminationExemptions(h, billing) == Exemption(true, Some(NonEphemeralHost(h.id)))
    ensures CheckTerminationExemptions(h, billing).err.Some? <==>
      !h.isEphemeral || (!InAgentGraceWindow(h) && !billing.TilNextPayment?)
  {
  }

  /**
   * The grace window is a disjunction: a host waiting for its agent that has
   * communicated recently is exempt however long it has been idle.
   */
  lemma AgentGraceNeedsOnlyOneDuration(h: Host, billing: BillingLookup)
    requires h.isEphemeral && h.isWaitingForAgent
    requires h.elapsedCommunicationTime < IdleWaitingForAgentCutoff || h.idleTime < IdleWaitingForAgentCutoff
    ensures CheckTerminationExemptions(h, billing) == Exemption(true, None)
  {
  }

  // ---------------------------------------------------------------------
  // Idle information
  // ---------------------------------------------------------------------

  /** Whether the host is running, or has just succeeded at a task of, a single-host task group. */
  function IsAssignedSingleHostTaskGroup(h: Host, c: Collaborators): Result<bool, Error> {
    if h.runningTaskGroup != "" && h.runningTask != "" then
      match c.findTaskByIdAndExecution(h.runningTask, h.runningTaskExecution)
      case TaskLookupFailed(e) => Err(FindingRunningTask(h.runningTask, h.runningTaskExecution, e))
      case TaskMissing => Err(RunningTaskNotFound(h.runningTask, h.runningTaskExecution))
      case TaskFound(t) => Ok(t.isPartOfSingleHostTaskGroup)
    else if h.lastGroup != "" && h.runningTask == "" then
      match c.findTaskById(h.lastTask)
      case TaskLookupFailed(e) => Err(FindingLastTask(h.lastTask, e))
      case TaskMissing => Err(LastTaskNotFound(h.lastTask))
      case TaskFound(t) => Ok(t.isPartOfSingleHostTaskGroup && t.status == TaskSucceeded)
    else
      Ok(false)
  }

  /** The running task decides while the host runs a task of a task group. */
  lemma AssignedByRunningTask(h: Host, c: Collaborators)
    requires h.runningTaskGroup != "" && h.runningTask != ""
    ensures match c.findTaskByIdAndExecution(h.runningTask, h.runningTaskExecution)
      case TaskFound(t) => IsAssignedSingleHostTaskGroup(h, c) == Ok(t.isPartOfSingleHostTaskGroup)
      case _ => IsAssignedSingleHostTaskGroup(h, c).Err?
  {
  }

  /** Between tasks of a group, the last task decides, and only a succeeded one keeps the assignment. */
  lemma AssignedByLastTask(h: Host, c: Collaborators)
    requires h.lastGroup != "" && h.runningTask == ""
    ensures match c.findTaskById(h.lastTask)
      case TaskFound(t) =>
        IsAssignedSingleHostTaskGroup(h, c) == Ok(t.isPartOfSingleHostTaskGroup && t.status == TaskSucceeded)
      case _ => IsAssignedSingleHostTaskGroup(h, c).Err?
  {
  }

  /** With neither a running group task nor a last group between tasks, the host is not assigned and nothing is looked up. */
  lemma NotAssignedOtherwise(h: Host, c: Collaborators, c': Collaborators)
    requires !(h.runningTaskGroup != "" && h.runningTask != "")
    requires !(h.lastGroup != "" && h.runningTask == "")
    ensures IsAssignedSingleHostTaskGroup(h, c) == IsAssignedSingleHostTaskGroup(h, c') == Ok(false)
  {
  }

  /** The per-host, per-cycle record the termination reason is chosen from. */
  datatype IdleInfo = IdleInfo(
    timeSinceLastCommunication: Duration,
    idleTime: Duration,
    idleThreshold: Duration,
    timeSinceTaskGroupTeardownStartTime: Duration,
    isRunningSingleHostTaskGroup: bool,
    isRunningTearDownTaskGroup: bool,
    hasOutdatedAMI: bool)

  /** The distro's acceptable idle time, or the scheduler default when the distro leaves it at zero. */
  function BaseIdleThreshold(d: Distro, cfg: SchedulerConfig): Duration {
    if d.acceptableHostIdleTime == 0 then cfg.acceptableHostIdleTimeSeconds * Second
    else d.acceptableHostIdleTime
  }

  function GetIdleInfo(h: Host, d: Distro, cfg: SchedulerConfig, c: Collaborators): Result<IdleInfo, Error> {
    match IsAssignedSingleHostTaskGroup(h, c)
    case Err(e) => Err(CheckingSingleHostTaskGroup(e))
    case Ok(single) =>
      var threshold :=
        if single then SingleHostTaskGroupIdleCutoff
        else if h.runningTaskGroup != "" then BaseIdleThreshold(d, cfg) * 2
        else BaseIdleThreshold(d, cfg);
      Ok(IdleInfo(
        h.elapsedCommunicationTime,
        h.idleTime,
        threshold,
        h.timeSinceTeardownStart,
        single,
        h.isTearingDown,
        HostHasOutdatedAMI(h, d)))
  }

  /** The idle information fails exactly when the task-group lookup fails, and otherwise copies the host's durations. */
  lemma IdleInfoFromHost(h: Host, d: Distro, cfg: SchedulerConfig, c: Collaborators)
    ensures GetIdleInfo(h, d, cfg, c).Err? <==> IsAssignedSingleHostTaskGroup(h, c).Err?
    ensures GetIdleInfo(h, d, cfg, c).Ok? ==>
      var i := GetIdleInfo(h, d, cfg, c).value;
      i.idleTime == h.idleTime && i.timeSinceLastCommunication == h.elapsedCommunicationTime &&
      i.timeSinceTaskGroupTeardownStartTime == h.timeSinceTeardownStart &&
      i.isRunningTearDownTaskGroup == h.isTearingDown &&
      i.hasOutdatedAMI == HostHasOutdatedAMI(h, d) &&
      i.isRunningSingleHostTaskGroup == IsAssignedSingleHostTaskGroup(h, c).value
  {
  }

  /** A single-host task group gets exactly five minutes, whatever the distro and the scheduler say. */
  lemma SingleHostGroupThresholdIsFixed(h: Host, d: Distro, d': Distro, cfg: SchedulerConfig, cfg': SchedulerConfig, c: Collaborators)
    requires IsAssignedSingleHostTaskGroup(h, c) == Ok(true)
    ensures GetIdleInfo(h, d, cfg, c).Ok? && GetIdleInfo(h, d', cfg', c).Ok?
    ensures GetIdleInfo(h, d, cfg, c).value.idleThreshold == GetIdleInfo(h, d', cfg', c).value.idleThreshold
              == SingleHostTaskGroupIdleCutoff
  {
  }

  /** Outside a single-host group, a running task group doubles the base threshold; no group leaves it as is. */
  lemma TaskGroupThreshold(h: Host, d: Distro, cfg: SchedulerConfig, c: Collaborators)
    requires IsAssignedSingleHostTaskGroup(h, c) == Ok(false)
    ensures GetIdleInfo(h, d, cfg, c).Ok?
    ensures h.runningTaskGroup != "" ==> GetIdleInfo(h, d, cfg, c).value.idleThreshold == 2 * BaseIdleThreshold(d, cfg)
    ensures h.runningTaskGroup == "" ==> GetIdleInfo(h, d, cfg, c).value.idleThreshold == BaseIdleThreshold(d, cfg)
  {
  }

  /** A distro that sets its own idle time is not affected by the scheduler default; one that does not uses it in seconds. */
  lemma BaseThresholdFallback(d: Distro, cfg: SchedulerConfig, cfg': SchedulerConfig)
    ensures d.acceptableHostIdleTime != 0 ==> BaseIdleThreshold(d, cfg) == BaseIdleThreshold(d, cfg') == d.acceptableHostIdleTime
    ensures d.acceptableHostIdleTime == 0 ==> BaseIdleThreshold(d, cfg) == cfg.acceptableHostIdleTimeSeconds * 1_000_000_000
  {
  }

  // ---------------------------------------------------------------------
  // Termination reason
  // ---------------------------------------------------------------------

  datatype Reason =
    | OutdatedAMI
    | CommunicationOverThreshold
    | IdleTimeOverThreshold
    | TeardownOverThreshold

  predicate OutdatedAMIRule(i: IdleInfo) {
    i.hasOutdatedAMI && i.idleTime > 0 && !i.isRunningSingleHostTaskGroup
  }

  predicate CommunicationRule(i: IdleInfo) {
    i.timeSinceLastCommunication >= i.idleThreshold && !i.isRunningTearDownTaskGroup
  }

  predicate IdleTimeRule(i: IdleInfo) {
    i.idleTime > 0 && i.idleTime >= i.idleThreshold
  }

  predicate TeardownRule(i: IdleInfo, maxTeardown: Duration) {
    i.timeSinceTaskGroupTeardownStartTime > maxTeardown && i.isRunningTearDownTaskGroup
  }

  /** The reason a host should be terminated, or None; the first matching rule wins. */
  function GetTerminationReason(i: IdleInfo, maxTeardown: Duration): Option<Reason> {
    if i.hasOutdatedAMI && i.idleTime > 0 && !i.isRunningSingleHostTaskGroup then Some(OutdatedAMI)
    else if i.timeSinceLastCommunication >= i.idleThreshold && !i.isRunningTearDownTaskGroup then Some(CommunicationOverThreshold)
    else if i.idleTime > 0 && i.idleTime >= i.idleThreshold then Some(IdleTimeOverThreshold)
    else if i.timeSinceTaskGroupTeardownStartTime > maxTeardown && i.isRunningTearDownTaskGroup then Some(TeardownOverThreshold)
    else None
  }

  /** Each reason is given exactly when its rule matches and no earlier rule does. */
  lemma ReasonPrecedence(i: IdleInfo, maxTeardown: Duration)
    ensures GetTerminationReason(i, maxTeardown) == Some(OutdatedAMI) <==> OutdatedAMIRule(i)
    ensures GetTerminationReason(i, maxTeardown) == Some(CommunicationOverThreshold) <==>
      !OutdatedAMIRule(i) && CommunicationRule(i)
    ensures GetTerminationReason(i, maxTeardown) == Some(IdleTimeOverThreshold) <==>
      !OutdatedAMIRule(i) && !CommunicationRule(i) && IdleTimeRule(i)
    ensures GetTerminationReason(i, maxTeardown) == Some(TeardownOverThreshold) <==>
      !OutdatedAMIRule(i) && !CommunicationRule(i) && !IdleTimeRule(i) && TeardownRule(i, maxTeardown)
    ensures GetTerminationReason(i, maxTeardown) == None <==>
      !OutdatedAMIRule(i) && !CommunicationRule(i) && !IdleTimeRule(i) && !TeardownRule(i, maxTeardown)
  {
  }

  /** An idle host with an outdated AMI is retired whatever its thresholds, unless it holds a single-host task group. */
  lemma OutdatedAMIIgnoresThresholds(i: IdleInfo, i': IdleInfo, maxTeardown: Duration)
    requires OutdatedAMIRule(i)
    requires i'.hasOutdatedAMI == i.hasOutdatedAMI && i'.idleTime == i.idleTime
    requires i'.isRunningSingleHostTaskGroup == i.isRunningSingleHostTaskGroup
    ensures GetTerminationReason(i, maxTeardown) == GetTerminationReason(i', maxTeardown) == Some(OutdatedAMI)
  {
  }

  /** A host in a single-host task group is never retired for its AMI. */
  lemma SingleHostGroupNotRetiredForAMI(i: IdleInfo, maxTeardown: Duration)
    requires i.isRunningSingleHostTaskGroup
    ensures GetTerminationReason(i, maxTeardown) != Some(OutdatedAMI)
  {
  }

  /**
   * A host tearing down its task group whose idle time reads zero can only
   * be terminated for overrunning the teardown threshold.
   */
  lemma TearingDownWithZeroIdleTime(i: IdleInfo, maxTeardown: Duration)
    requires i.isRunningTearDownTaskGroup && i.idleTime == 0
    ensures GetTerminationReason(i, maxTeardown) == None || GetTerminationReason(i, maxTeardown) == Some(TeardownOverThreshold)
    ensures GetTerminationReason(i, maxTeardown) == Some(TeardownOverThreshold) <==>
      i.timeSinceTaskGroupTeardownStartTime > maxTeardown
  {
  }

  /**
   * The idle-time rule has no teardown guard: a tearing-down host whose idle
   * time is nonzero and at its threshold, and that the AMI rule does not
   * catch first, gets the idle-time reason.
   */
  lemma TearingDownWithIdleTimeHitsIdleRule(i: IdleInfo, maxTeardown: Duration)
    requires i.isRunningTearDownTaskGroup && !OutdatedAMIRule(i) && IdleTimeRule(i)
    ensures GetTerminationReason(i, maxTeardown) == Some(IdleTimeOverThreshold)
  {
  }

  // ---------------------------------------------------------------------
  // The per-host decision
  // ---------------------------------------------------------------------

  datatype Decision =
    | Exempted(exemptionError: Option<Error>)
    | IdleInfoFailed(cause: Error)
    | Retain
    | Terminate(reason: Reason)

  /** Exemptions first; then the idle information; then the termination reason. */
  function Decide(cfg: SchedulerConfig, h: Host, d: Distro, c: Collaborators): Decision {
    var ex := CheckTerminationExemptions(h, c.billing(h));
    if ex.exitEarly then Exempted(ex.err)
    else
      match GetIdleInfo(h, d, cfg, c)
      case Err(e) => IdleInfoFailed(e)
      case Ok(i) =>
        match GetTerminationReason(i, c.maxTeardownGroupThreshold)
        case None => Retain
        case Some(r) => Terminate(r)
  }

  /** A host is terminated only when no exemption applies and its idle information yields a reason. */
  lemma TerminateNeedsEveryStep(cfg: SchedulerConfig, h: Host, d: Distro, c: Collaborators)
    ensures Decide(cfg, h, d, c).Terminate? <==>
      !CheckTerminationExemptions(h, c.billing(h)).exitEarly &&
      GetIdleInfo(h, d, cfg, c).Ok? &&
      GetTerminationReason(GetIdleInfo(h, d, cfg, c).value, c.maxTeardownGroupThreshold).Some?
    ensures Decide(cfg, h, d, c).Terminate? ==>
      h.isEphemeral && !InAgentGraceWindow(h) &&
      c.billing(h).TilNextPayment? && c.billing(h).untilPayment <= MaxTimeTilNextPayment
  {
    NotExemptIff(h, c.billing(h));
  }

  /** A host not assigned to a single-host task group, idle past its threshold and not exempt, is terminated. */
  lemma IdleHostIsTerminated(cfg: SchedulerConfig, h: Host, d: Distro, c: Collaborators)
    requires h.isEphemeral && !InAgentGraceWindow(h)
    requires c.billing(h).TilNextPayment? && c.billing(h).untilPayment <= MaxTimeTilNextPayment
    requires IsAssignedSingleHostTaskGroup(h, c) == Ok(false) && h.runningTaskGroup == ""
    requires h.idleTime > 0 && h.idleTime >= BaseIdleThreshold(d, cfg)
    ensures Decide(cfg, h, d, c).Terminate?
  {
  }
}
