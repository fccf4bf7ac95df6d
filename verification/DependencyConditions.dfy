/**
 When a dependency counts as met, as settled for good, or as about to change.
 One snapshot of the dependency's state is judged at a time.
 */
module DependencyConditions {
  import opened Wrappers

  datatype ServiceStatus =
    | Stopped | Waiting | Starting | Running | Stopping | Restarting
    | Failed | Healthy | Unhealthy | Exited | Killed | Skipped

  datatype ServiceState = ServiceState(status: ServiceStatus, exitCode: Option<int>, wasHealthy: bool)

  datatype DependencyCondition =
    | ServiceStarted | ServiceHealthy | ServiceCompletedSuccessfully
    | ServiceUnhealthy | ServiceFailed | ServiceStopped

  datatype ExitCodeRange = ExitCodeRange(start: int, end: int)

  datatype DependencyConfig = DependencyConfig(
    condition: DependencyCondition, exitCode: seq<ExitCodeRange>, allowSkipped: bool)

  /** The restart flags; `always` is all three and `no` is none. */
  datatype RestartPolicy = RestartPolicy(onFailure: bool, onSuccess: bool, onUnhealthy: bool)

  predicate FilterMatches(ranges: seq<ExitCodeRange>, code: int) {
    ranges == [] || exists i :: 0 <= i < |ranges| && ranges[i].start <= code <= ranges[i].end
  }

  predicate RestartOnExit(policy: RestartPolicy, exitCode: Option<int>) {
    if exitCode == Some(0) then policy.onSuccess else policy.onFailure
  }

  predicate RestartFollows(status: ServiceStatus, exitCode: Option<int>, policy: RestartPolicy) {
    status != Failed && RestartOnExit(policy, exitCode)
  }

  predicate IsTransient(state: ServiceState, policy: RestartPolicy) {
    (state.status == Exited || state.status == Killed) && RestartFollows(state.status, state.exitCode, policy)
  }

  predicate Holds(state: ServiceState, config: DependencyConfig) {
    var code := if state.exitCode.Some? then state.exitCode.value else -1;
    match config.condition
    case ServiceStarted => state.status == Running || state.status == Healthy || state.status == Unhealthy
    case ServiceHealthy => state.status == Healthy
    case ServiceCompletedSuccessfully =>
      (state.status == Stopped || state.status == Exited) && state.exitCode == Some(0)
    case ServiceUnhealthy => state.status == Unhealthy && state.wasHealthy
    case ServiceFailed =>
      (state.status == Failed || state.status == Killed || (state.status == Exited && state.exitCode != Some(0)))
      && FilterMatches(config.exitCode, code)
    case ServiceStopped =>
      (state.status == Stopped || state.status == Exited || state.status == Failed || state.status == Killed)
      && FilterMatches(config.exitCode, code)
  }

  /** `is_condition_met`; `restart` is given where transient exits are to be ignored. */
  predicate IsConditionMet(state: ServiceState, config: DependencyConfig, restart: Option<RestartPolicy>) {
    if state.status == Skipped then config.allowSkipped
    else
      && Holds(state, config)
      && !(restart.Some? && IsTransient(state, restart.value))
  }

  /** `is_running` */
  predicate IsRunning(status: ServiceStatus) {
    status == Running || status == Healthy || status == Unhealthy
  }

  /** `is_active` */
  predicate IsActive(status: ServiceStatus) {
    status != Stopped && status != Failed && status != Exited && status != Killed && status != Skipped
  }

  /** On the way from one to another: no condition is met meanwhile. */
  predicate InTransit(status: ServiceStatus) {
    status == Waiting || status == Starting || status == Stopping || status == Restarting
  }

  /** A filter without ranges accepts every code; otherwise a code is accepted by the range that contains it. */
  lemma FilterAccepts(a: seq<ExitCodeRange>, b: seq<ExitCodeRange>, start: int, end: int, code: int)
    ensures FilterMatches([], code)
    ensures FilterMatches([ExitCodeRange(start, end)], code) <==> start <= code <= end
    ensures a != [] && b != [] ==> (FilterMatches(a + b, code) <==> FilterMatches(a, code) || FilterMatches(b, code))
  {
    var r := [ExitCodeRange(start, end)];
    assert r[0] == ExitCodeRange(start, end);
    if a != [] && b != [] {
      if FilterMatches(a + b, code) {
        var i :| 0 <= i < |a + b| && (a + b)[i].start <= code <= (a + b)[i].end;
        assert if i < |a| then (a + b)[i] == a[i] else (a + b)[i] == b[i - |a|];
      }
      if FilterMatches(a, code) {
        var i :| 0 <= i < |a| && a[i].start <= code <= a[i].end;
        assert (a + b)[i] == a[i];
      }
      if FilterMatches(b, code) {
        var i :| 0 <= i < |b| && b[i].start <= code <= b[i].end;
        assert (a + b)[|a| + i] == b[i];
      }
    }
  }

  predicate Met(state: ServiceState, condition: DependencyCondition, filter: seq<ExitCodeRange>) {
    IsConditionMet(state, DependencyConfig(condition, filter, false), None)
  }

  /**
   What the conditions on a live service mean: started is exactly running, and every
   service that was not skipped is exactly one of started, stopped and in transit.
   */
  lemma StartedIsRunning(state: ServiceState)
    ensures Met(state, ServiceStarted, []) <==> IsRunning(state.status)
    ensures state.status != Skipped ==>
              ExactlyOne(Met(state, ServiceStarted, []), Met(state, ServiceStopped, []), InTransit(state.status))
    ensures IsActive(state.status) <==> Met(state, ServiceStarted, []) || InTransit(state.status)
  {
  }

  /** Among the started services: healthy ones, unhealthy ones that were healthy before, and the rest. */
  lemma HealthOfStarted(state: ServiceState)
    requires Met(state, ServiceStarted, [])
    ensures Met(state, ServiceHealthy, []) <==> state.status == Healthy
    ensures Met(state, ServiceUnhealthy, []) <==> state.status == Unhealthy && state.wasHealthy
    ensures !Met(state, ServiceHealthy, []) && !Met(state, ServiceUnhealthy, []) <==>
              state.status == Running || (state.status == Unhealthy && !state.wasHealthy)
  {
  }

  /**
   How the conditions exclude and imply each other in one state, for any exit-code filter.
   A stopped service has failed or succeeded, unless it was stopped explicitly.
   */
  lemma ConditionsRelate(state: ServiceState, filter: seq<ExitCodeRange>)
    ensures Met(state, ServiceHealthy, filter) || Met(state, ServiceUnhealthy, filter) ==> Met(state, ServiceStarted, filter)
    ensures !(Met(state, ServiceStarted, filter) && Met(state, ServiceStopped, filter))
    ensures Met(state, ServiceFailed, filter) ==> Met(state, ServiceStopped, filter)
    ensures !(Met(state, ServiceFailed, filter) && Met(state, ServiceCompletedSuccessfully, filter))
    ensures Met(state, ServiceCompletedSuccessfully, filter) && FilterMatches(filter, 0) ==> Met(state, ServiceStopped, filter)
    ensures Met(state, ServiceStopped, filter) && state.status != Stopped ==>
              Met(state, ServiceFailed, filter) || Met(state, ServiceCompletedSuccessfully, filter)
    ensures Met(state, ServiceStopped, filter) <==>
              Met(state, ServiceStopped, []) && FilterMatches(filter, if state.exitCode.Some? then state.exitCode.value else -1)
    ensures Met(state, ServiceStopped, []) <==> IsTerminal(state.status) && state.status != Skipped
  {
  }

  predicate IsTerminal(status: ServiceStatus) {
    status == Stopped || status == Exited || status == Failed || status == Killed || status == Skipped
  }

  /** `is_dependency_permanently_unsatisfied` on the snapshot `state`, if the service has one. */
  predicate IsPermanentlyUnsatisfied(state: Option<ServiceState>, config: DependencyConfig, policy: RestartPolicy) {
    if state.None? then false
    else if state.value.status == Skipped then !config.allowSkipped
    else if !IsTerminal(state.value.status) then false
    else if IsConditionMet(state.value, config, None) then false
    else state.value.status == Stopped || !RestartFollows(state.value.status, state.value.exitCode, policy)
  }

  predicate ExactlyOne(a: bool, b: bool, c: bool) {
    (a || b || c) && !(a && b) && !(b && c) && !(a && c)
  }

  /**
   A dependent waiting on a finished dependency always has exactly one verdict: go
   ahead, give up, or wait for the restart that is coming. While the dependency is
   active it never gives up.
   */
  lemma VerdictsPartition(state: ServiceState, config: DependencyConfig, policy: RestartPolicy)
    ensures IsTerminal(state.status) ==>
              ExactlyOne(IsConditionMet(state, config, Some(policy)),
                         IsPermanentlyUnsatisfied(Some(state), config, policy),
                         IsTransient(state, policy))
    ensures !IsTerminal(state.status) ==>
              !IsPermanentlyUnsatisfied(Some(state), config, policy) && !IsTransient(state, policy)
    ensures !IsPermanentlyUnsatisfied(None, config, policy)
  {
  }

  /** `is_condition_unreachable_by_policy`, the reason text left out. */
  predicate IsUnreachableByPolicy(condition: DependencyCondition, policy: RestartPolicy) {
    match condition
    case ServiceFailed => policy.onFailure
    case ServiceStopped => policy.onFailure && policy.onSuccess
    case ServiceCompletedSuccessfully => policy.onSuccess
    case _ => false
  }

  /** A process that ran and ended: by itself with a code, or by a signal without one. */
  predicate ProcessEnded(state: ServiceState) {
    (state.status == Exited && state.exitCode.Some?) || (state.status == Killed && state.exitCode.None?)
  }

  predicate AwaitsAnEnd(condition: DependencyCondition) {
    condition == ServiceFailed || condition == ServiceStopped || condition == ServiceCompletedSuccessfully
  }

  /** An `Exited` or `Killed` status is that of a process that ended; other statuses carry any code. */
  predicate Recorded(state: ServiceState) {
    state.status == Exited || state.status == Killed ==> ProcessEnded(state)
  }

  /**
   What "unreachable" really rules out, for a condition that waits for an end: exactly the
   case that no end of a process can meet it, whatever the exit-code filter.
   */
  lemma UnreachableExactly(condition: DependencyCondition, policy: RestartPolicy, allowSkipped: bool)
    requires AwaitsAnEnd(condition)
    ensures IsUnreachableByPolicy(condition, policy) <==>
              forall state, filter :: ProcessEnded(state) ==>
                !IsConditionMet(state, DependencyConfig(condition, filter, allowSkipped), Some(policy))
  {
    if !IsUnreachableByPolicy(condition, policy) {
      var code := if condition == ServiceFailed || (condition == ServiceStopped && !policy.onFailure) then 1 else 0;
      var state := ServiceState(Exited, Some(code), false);
      assert ProcessEnded(state) && IsConditionMet(state, DependencyConfig(condition, [], allowSkipped), Some(policy));
    }
  }

  /**
   The states that still meet a condition called unreachable: a skip that is allowed, and
   a start-up failure or an explicit stop in which the condition holds. No others.
   */
  lemma UnreachableMeets(state: ServiceState, config: DependencyConfig, policy: RestartPolicy)
    requires IsUnreachableByPolicy(config.condition, policy) && Recorded(state)
    ensures IsConditionMet(state, config, Some(policy)) <==>
              || (state.status == Skipped && config.allowSkipped)
              || ((state.status == Failed || state.status == Stopped) && Holds(state, config))
  {
  }

  /** So it can be met at all exactly when a skip is allowed or the filter, where it applies, accepts some code. */
  lemma UnreachableYetMet(config: DependencyConfig, policy: RestartPolicy)
    requires IsUnreachableByPolicy(config.condition, policy)
    ensures (exists state :: Recorded(state) && IsConditionMet(state, config, Some(policy))) <==>
              || config.allowSkipped
              || config.condition == ServiceCompletedSuccessfully
              || exists code :: FilterMatches(config.exitCode, code)
  {
    forall state | Recorded(state) && IsConditionMet(state, config, Some(policy))
      ensures || config.allowSkipped || config.condition == ServiceCompletedSuccessfully
              || exists code :: FilterMatches(config.exitCode, code)
    {
      UnreachableMeets(state, config, policy);
    }
    if config.allowSkipped {
      var state := ServiceState(Skipped, None, false);
      assert Recorded(state) && IsConditionMet(state, config, Some(policy));
    } else if config.condition == ServiceCompletedSuccessfully {
      var state := ServiceState(Stopped, Some(0), false);
      assert Recorded(state) && IsConditionMet(state, config, Some(policy));
    } else if code :| FilterMatches(config.exitCode, code) {
      var state := ServiceState(Failed, Some(code), false);
      assert Recorded(state) && IsConditionMet(state, config, Some(policy));
    }
  }
}
