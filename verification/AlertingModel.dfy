/** Legitimacy alerting on values: what one governance cycle does to the alert state, and
    what a sequence of cycles reports. */
module AlertingModel {
  import opened Prelude

  datatype Severity = Warning | Critical

  datatype Thresholds = Thresholds(warning: real, critical: real, buffer: real, minBreaches: int)

  datatype ConfigError = ThresholdOrder | BufferRange | BreachCount

  /** The checks of the service's constructor, in order. */
  function Rejection(cfg: Thresholds): Option<ConfigError> {
    if cfg.critical >= cfg.warning then Some(ThresholdOrder)
    else if cfg.buffer < 0.0 || cfg.buffer > 0.1 then Some(BufferRange)
    else if cfg.minBreaches < 1 then Some(BreachCount)
    else None
  }

  datatype AlertState = AlertState(
    alertId: Option<nat>,
    isActive: bool,
    severity: Option<Severity>,
    triggeredCycle: Option<string>,
    triggeredScore: Option<real>,
    consecutiveBreaches: int)

  const NO_ALERT := AlertState(None, false, None, None, None, 0)

  /** The metrics of one cycle; a cycle without petitions has no score. */
  datatype Cycle = Cycle(id: string, score: Option<real>)

  datatype Event =
    | Quiet
    | Triggered(alertId: nat, cycleId: string, score: real, threshold: real, severity: Severity)
    | Recovered(alertId: nat, cycleId: string, score: real, previousScore: real)
    | Rejected  // the service raised ValueError

  function DetermineSeverity(cfg: Thresholds, score: Option<real>): Option<Severity> {
    match score
    case None => None
    case Some(x) =>
      if x < cfg.critical then Some(Critical) else if x < cfg.warning then Some(Warning) else None
  }

  function ThresholdFor(cfg: Thresholds, severity: Severity): real {
    if severity == Critical then cfg.critical else cfg.warning
  }

  predicate ShouldRecover(cfg: Thresholds, score: Option<real>, severity: Option<Severity>) {
    score.Some? && severity.Some? && score.value >= ThresholdFor(cfg, severity.value) + cfg.buffer
  }

  /** `nextId` is the supply of fresh alert ids. */
  datatype World = World(state: AlertState, nextId: nat)

  datatype Reaction = Reaction(world: World, event: Event)

  function Recover(w: World, c: Cycle): Reaction {
    var s := w.state;
    if s.alertId.None? || s.triggeredScore.None? || !s.isActive then Reaction(w, Rejected)
    else Reaction(w.(state := s.(isActive := false, consecutiveBreaches := 0)),
                  Recovered(s.alertId.value, c.id, c.score.GetOr(0.0), s.triggeredScore.value))
  }

  function WhileActive(cfg: Thresholds, w: World, c: Cycle): Reaction {
    if ShouldRecover(cfg, c.score, w.state.severity) then Recover(w, c)
    else if DetermineSeverity(cfg, c.score).Some? then
      Reaction(w.(state := w.state.(consecutiveBreaches := w.state.consecutiveBreaches + 1)), Quiet)
    else Reaction(w, Quiet)
  }

  function OnBreach(cfg: Thresholds, w: World, c: Cycle, severity: Severity, score: real): Reaction {
    var count := w.state.consecutiveBreaches + 1;
    if count < cfg.minBreaches then
      Reaction(w.(state := w.state.(consecutiveBreaches := count)), Quiet)
    else
      Reaction(World(AlertState(Some(w.nextId), true, Some(severity), Some(c.id), Some(score), count), w.nextId + 1),
               Triggered(w.nextId, c.id, score, ThresholdFor(cfg, severity), severity))
  }

  function React(cfg: Thresholds, w: World, c: Cycle): Reaction {
    if w.state.isActive then WhileActive(cfg, w, c)
    else
      match DetermineSeverity(cfg, c.score)
      case Some(severity) => OnBreach(cfg, w, c, severity, c.score.value)
      case None => Reaction(w.(state := w.state.(consecutiveBreaches := 0)), Quiet)
  }

  datatype History = History(world: World, events: seq<Event>)

  /** The events reported over a sequence of cycles, one per cycle. */
  function Run(cfg: Thresholds, w: World, cycles: seq<Cycle>): (h: History)
    ensures |h.events| == |cycles|
  {
    if cycles == [] then History(w, []) else
      var h := Run(cfg, w, cycles[..|cycles| - 1]);
      var r := React(cfg, h.world, cycles[|cycles| - 1]);
      History(r.world, h.events + [r.event])
  }
}
