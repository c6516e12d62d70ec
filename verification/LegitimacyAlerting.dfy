/** The alerting service and the alert state it updates in place, proved to compute the
    functions of `AlertingModel`. */
module LegitimacyAlerting {
  import opened Prelude
  import opened AlertingModel

  class LegitimacyAlertState {
    var alertId: Option<nat>
    var isActive: bool
    var severity: Option<Severity>
    var triggeredCycle: Option<string>
    var triggeredScore: Option<real>
    var consecutiveBreaches: int

    function View(): AlertState
      reads this
    {
      AlertState(alertId, isActive, severity, triggeredCycle, triggeredScore, consecutiveBreaches)
    }

    constructor NoAlert()
      ensures View() == NO_ALERT
    {
      alertId, isActive, severity := None, false, None;
      triggeredCycle, triggeredScore, consecutiveBreaches := None, None, 0;
    }

    constructor ActiveAlert(id: nat, severity: Severity, cycle: string, score: real, breaches: int)
      ensures View() == AlertState(Some(id), true, Some(severity), Some(cycle), Some(score), breaches)
    {
      alertId, isActive, this.severity := Some(id), true, Some(severity);
      triggeredCycle, triggeredScore, consecutiveBreaches := Some(cycle), Some(score), breaches;
    }

    /** An alert keeps the severity and score it was triggered with. */
    method UpdateBreachCount() returns (ok: bool)
      modifies this
      ensures ok == old(isActive)
      ensures View() == if ok then old(View()).(consecutiveBreaches := old(consecutiveBreaches) + 1) else old(View())
    {
      if !isActive {
        return false;
      }
      consecutiveBreaches := consecutiveBreaches + 1;
      return true;
    }

    method ClearAlert() returns (ok: bool)
      modifies this
      ensures ok == old(isActive)
      ensures View() == if ok then old(View()).(isActive := false) else old(View())
    {
      if !isActive {
        return false;
      }
      isActive := false;
      return true;
    }
  }

  class LegitimacyAlertingService {
    const cfg: Thresholds
    var nextAlertId: nat

    constructor (cfg: Thresholds)
      requires Rejection(cfg).None?
      ensures this.cfg == cfg && nextAlertId == 0
    {
      this.cfg := cfg;
      nextAlertId := 0;
    }

    /** Construction from unchecked thresholds: a service, or the error raised. */
    static method Create(cfg: Thresholds) returns (service: LegitimacyAlertingService?, error: Option<ConfigError>)
      ensures error.None? <==> cfg.critical < cfg.warning && 0.0 <= cfg.buffer <= 0.1 && cfg.minBreaches >= 1
      ensures error == Some(ThresholdOrder) <==> cfg.critical >= cfg.warning
      ensures error == Some(BufferRange) <==> cfg.critical < cfg.warning && !(0.0 <= cfg.buffer <= 0.1)
      ensures service != null <==> error.None?
      ensures service != null ==> fresh(service) && service.cfg == cfg && service.nextAlertId == 0
    {
      service, error := null, Rejection(cfg);
      if error.None? {
        service := new LegitimacyAlertingService(cfg);
      }
    }

    method TriggerRecovery(c: Cycle, state: LegitimacyAlertState) returns (event: Event)
      modifies state
      ensures Reaction(World(state.View(), nextAlertId), event)
              == Recover(World(old(state.View()), nextAlertId), c)
    {
      if state.alertId.None? || state.triggeredScore.None? {
        return Rejected;
      }
      event := Recovered(state.alertId.value, c.id, c.score.GetOr(0.0), state.triggeredScore.value);
      var cleared := state.ClearAlert();
      if !cleared {
        return Rejected;
      }
      state.consecutiveBreaches := 0;
    }

    method HandleActiveAlert(c: Cycle, state: LegitimacyAlertState, severity: Option<Severity>) returns (event: Event)
      requires state.isActive && severity == DetermineSeverity(cfg, c.score)
      modifies state
      ensures Reaction(World(state.View(), nextAlertId), event)
              == WhileActive(cfg, World(old(state.View()), nextAlertId), c)
    {
      if ShouldRecover(cfg, c.score, state.severity) {
        event := TriggerRecovery(c, state);
        return;
      }
      if severity.Some? && c.score.Some? {
        var updated := state.UpdateBreachCount();
      }
      event := Quiet;
    }

    method HandleAlertTrigger(c: Cycle, state: LegitimacyAlertState, severity: Severity, score: real) returns (event: Event)
      modifies this, state
      ensures Reaction(World(state.View(), nextAlertId), event)
              == OnBreach(cfg, World(old(state.View()), old(nextAlertId)), c, severity, score)
    {
      state.consecutiveBreaches := state.consecutiveBreaches + 1;
      if state.consecutiveBreaches < cfg.minBreaches {
        return Quiet;
      }
      var id := nextAlertId;
      nextAlertId := nextAlertId + 1;
      var active := new LegitimacyAlertState.ActiveAlert(id, severity, c.id, score, state.consecutiveBreaches);
      state.alertId, state.isActive, state.severity := active.alertId, active.isActive, active.severity;
      state.triggeredCycle, state.triggeredScore := active.triggeredCycle, active.triggeredScore;
      event := Triggered(id, c.id, score, ThresholdFor(cfg, severity), severity);
    }

    /** One cycle. Without a previous state a fresh one is used, and lost. */
    method CheckAndAlert(c: Cycle, previous: LegitimacyAlertState?) returns (event: Event)
      modifies this, previous
      ensures previous != null ==>
                Reaction(World(previous.View(), nextAlertId), event)
                == React(cfg, World(old(previous.View()), old(nextAlertId)), c)
      ensures previous == null ==> event == React(cfg, World(NO_ALERT, old(nextAlertId)), c).event
    {
      var state: LegitimacyAlertState;
      if previous == null {
        state := new LegitimacyAlertState.NoAlert();
      } else {
        state := previous;
      }
      var severity := DetermineSeverity(cfg, c.score);
      if state.isActive {
        event := HandleActiveAlert(c, state, severity);
        return;
      }
      if severity.Some? {
        event := HandleAlertTrigger(c, state, severity.value, c.score.value);
        return;
      }
      state.consecutiveBreaches := 0;
      event := Quiet;
    }

    /** A caller that keeps one state object over a sequence of cycles. */
    method Monitor(cycles: seq<Cycle>, state: LegitimacyAlertState) returns (events: seq<Event>)
      modifies this, state
      ensures History(World(state.View(), nextAlertId), events)
              == Run(cfg, World(old(state.View()), old(nextAlertId)), cycles)
    {
      events := [];
      for i := 0 to |cycles|
        invariant History(World(state.View(), nextAlertId), events)
                  == Run(cfg, World(old(state.View()), old(nextAlertId)), cycles[..i])
      {
        assert cycles[..i + 1][..i] == cycles[..i];
        var event := CheckAndAlert(cycles[i], state);
        events := events + [event];
      }
      assert cycles[..|cycles|] == cycles;
    }
  }
}
