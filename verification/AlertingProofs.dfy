/** Whole-run theorems of legitimacy alerting. */
module AlertingProofs {
  import opened Prelude
  import opened AlertingModel

  /** Thresholds as the service's constructor accepts them. */
  ghost predicate Valid(cfg: Thresholds) {
    cfg.critical < cfg.warning && 0.0 <= cfg.buffer <= 0.1 && cfg.minBreaches >= 1
  }

  /** The cycle has a score below the warning threshold. */
  predicate Breaches(cfg: Thresholds, c: Cycle) {
    c.score.Some? && c.score.value < cfg.warning
  }

  /** The threshold of the severity a score below the warning threshold has. */
  function Floor(cfg: Thresholds, score: real): real {
    if score < cfg.critical then cfg.critical else cfg.warning
  }

  /** A start with no active alert. */
  ghost predicate Idle(w: World) {
    !w.state.isActive
  }

  /** A start as the store holds it: an active alert has its id, severity and score. */
  ghost predicate WellFormed(s: AlertState) {
    s.isActive ==> s.alertId.Some? && s.severity.Some? && s.triggeredScore.Some?
  }

  /** Whether an alert was already active at the start. */
  function Inherited(w: World): nat {
    if w.state.isActive then 1 else 0
  }

  function Recoveries(events: seq<Event>): nat {
    if events == [] then 0
    else Recoveries(events[..|events| - 1]) + if events[|events| - 1].Recovered? then 1 else 0
  }

  function Triggers(events: seq<Event>): nat {
    if events == [] then 0
    else Triggers(events[..|events| - 1]) + if events[|events| - 1].Triggered? then 1 else 0
  }

  function LastScore(cycles: seq<Cycle>): Option<real> {
    if cycles == [] then None
    else if cycles[|cycles| - 1].score.Some? then cycles[|cycles| - 1].score
    else LastScore(cycles[..|cycles| - 1])
  }

  /** Total upward variation: the sum of all rises between consecutive observed scores. */
  function Rise(cycles: seq<Cycle>): real {
    if cycles == [] then 0.0 else
      var front, last := cycles[..|cycles| - 1], cycles[|cycles| - 1];
      var before := LastScore(front);
      Rise(front) + if last.score.Some? && before.Some? && last.score.value > before.value
                    then last.score.value - before.value else 0.0
  }

  lemma RunSnoc(cfg: Thresholds, w: World, cycles: seq<Cycle>)
    requires cycles != []
    ensures var h := Run(cfg, w, cycles[..|cycles| - 1]);
            var r := React(cfg, h.world, cycles[|cycles| - 1]);
            Run(cfg, w, cycles) == History(r.world, h.events + [r.event])
            && (h.events + [r.event])[..|h.events|] == h.events
  {
  }

  // ---------- alternation ----------

  /** The latest trigger reported. */
  function LatestTrigger(events: seq<Event>): (t: Option<Event>)
    ensures t.Some? ==> t.value.Triggered?
  {
    if events == [] then None
    else if events[|events| - 1].Triggered? then Some(events[|events| - 1])
    else LatestTrigger(events[..|events| - 1])
  }

  /** While active, the state is the latest trigger's, or the inherited alert's. */
  ghost predicate Tracks(cfg: Thresholds, start: AlertState, s: AlertState, events: seq<Event>) {
    s.isActive ==>
      match LatestTrigger(events)
      case None =>
        start.isActive && s == start.(consecutiveBreaches := s.consecutiveBreaches) && Recoveries(events) == 0
      case Some(t) =>
        && s.alertId == Some(t.alertId) && s.triggeredScore == Some(t.score)
        && s.severity == Some(t.severity) && s.triggeredCycle == Some(t.cycleId)
        && t.score < ThresholdFor(cfg, t.severity)
        && ThresholdFor(cfg, t.severity) == Floor(cfg, t.score)
  }

  ghost predicate Alternates(cfg: Thresholds, w: World, h: History) {
    && Inherited(w) + Triggers(h.events) == Recoveries(h.events) + (if h.world.state.isActive then 1 else 0)
    && Tracks(cfg, w.state, h.world.state, h.events)
    && WellFormed(h.world.state)
    && Rejected !in h.events
  }

  /** The history after one more cycle. */
  function Next(cfg: Thresholds, h: History, c: Cycle): History {
    var r := React(cfg, h.world, c);
    History(r.world, h.events + [r.event])
  }

  lemma AlternatesNext(cfg: Thresholds, w: World, h: History, c: Cycle)
    requires Alternates(cfg, w, h)
    ensures Alternates(cfg, w, Next(cfg, h, c))
  {
    var h' := Next(cfg, h, c);
    assert h'.events[..|h'.events| - 1] == h.events;
  }

  lemma {:induction false} AlternationInvariant(cfg: Thresholds, w: World, cycles: seq<Cycle>)
    requires WellFormed(w.state)
    ensures Alternates(cfg, w, Run(cfg, w, cycles))
  {
    if cycles != [] {
      AlternationInvariant(cfg, w, cycles[..|cycles| - 1]);
      AlternatesNext(cfg, w, Run(cfg, w, cycles[..|cycles| - 1]), cycles[|cycles| - 1]);
    }
  }

  /** Triggers and recoveries alternate, and the ValueError of recovery is never raised. */
  lemma Alternation(cfg: Thresholds, w: World, cycles: seq<Cycle>)
    requires WellFormed(w.state)
    ensures var h := Run(cfg, w, cycles);
            && Inherited(w) + Triggers(h.events) - Recoveries(h.events) == (if h.world.state.isActive then 1 else 0)
            && forall i :: 0 <= i < |h.events| ==> h.events[i] != Rejected
  {
    AlternationInvariant(cfg, w, cycles);
  }

  /** A recovery names the latest trigger, repeats its score, and reports a score that has
      risen by more than the buffer since; it still breaches the warning threshold exactly
      when the alert was critical and the score is below that threshold. Before the first
      trigger it can only end the inherited alert. */
  lemma RecoveryMatchesTrigger(cfg: Thresholds, w: World, cycles: seq<Cycle>, c: Cycle)
    requires Valid(cfg) && WellFormed(w.state)
    ensures var h := Run(cfg, w, cycles);
            var e := React(cfg, h.world, c).event;
            e.Recovered? ==>
              && c.score == Some(e.score) && e.cycleId == c.id
              && match LatestTrigger(h.events)
                 case None =>
                   w.state.isActive && Some(e.alertId) == w.state.alertId && Some(e.previousScore) == w.state.triggeredScore
                 case Some(t) =>
                   && e.alertId == t.alertId && e.previousScore == t.score
                   && e.score - e.previousScore > cfg.buffer
                   && (Breaches(cfg, c) <==> t.score < cfg.critical && e.score < cfg.warning)
  {
    AlternationInvariant(cfg, w, cycles);
  }

  /** The threshold an active alert must be recovered from: that of the score that triggered it,
      or of the severity an inherited alert is stored with. */
  function HeldFloor(cfg: Thresholds, start: AlertState, events: seq<Event>): real {
    match LatestTrigger(events)
    case Some(t) => Floor(cfg, t.score)
    case None => if start.severity == Some(Critical) then cfg.critical else cfg.warning
  }

  /** In any run, a cycle recovers exactly when an alert is active and the score has reached that
      threshold and the buffer. */
  lemma RecoveryTiming(cfg: Thresholds, w: World, cycles: seq<Cycle>, c: Cycle)
    requires Valid(cfg) && WellFormed(w.state)
    ensures var h := Run(cfg, w, cycles);
            React(cfg, h.world, c).event.Recovered? <==>
              h.world.state.isActive && c.score.Some? && c.score.value >= HeldFloor(cfg, w.state, h.events) + cfg.buffer
  {
    AlternationInvariant(cfg, w, cycles);
  }

  /** Whether an alert is active after the events. */
  predicate ActiveAfter(start: bool, events: seq<Event>) {
    if events == [] then start
    else if events[|events| - 1].Triggered? then true
    else if events[|events| - 1].Recovered? then false
    else ActiveAfter(start, events[..|events| - 1])
  }

  /** The breach count the state holds: reset by a recovery, raised by every breach, and by a
      cycle without one reset too unless an alert is active. */
  function HeldCount(cfg: Thresholds, start: AlertState, cycles: seq<Cycle>, events: seq<Event>): int
    requires |events| == |cycles|
  {
    if cycles == [] then start.consecutiveBreaches else
      var before, earlier := HeldCount(cfg, start, cycles[..|cycles| - 1], events[..|events| - 1]), events[..|events| - 1];
      if events[|events| - 1].Recovered? then 0
      else if Breaches(cfg, cycles[|cycles| - 1]) then before + 1
      else if ActiveAfter(start.isActive, earlier) then before
      else 0
  }

  /** What is stored after any run follows from the scores and the events reported. */
  ghost predicate StoredAs(cfg: Thresholds, start: AlertState, cycles: seq<Cycle>, h: History)
    requires |h.events| == |cycles|
  {
    && h.world.state.isActive == ActiveAfter(start.isActive, h.events)
    && h.world.state.consecutiveBreaches == HeldCount(cfg, start, cycles, h.events)
  }

  lemma HeldNext(cfg: Thresholds, start: AlertState, cycles: seq<Cycle>, events: seq<Event>, c: Cycle, e: Event)
    requires |events| == |cycles|
    ensures HeldCount(cfg, start, cycles + [c], events + [e]) ==
            if e.Recovered? then 0
            else if Breaches(cfg, c) then HeldCount(cfg, start, cycles, events) + 1
            else if ActiveAfter(start.isActive, events) then HeldCount(cfg, start, cycles, events)
            else 0
    ensures ActiveAfter(start.isActive, events + [e]) ==
            if e.Triggered? then true else if e.Recovered? then false else ActiveAfter(start.isActive, events)
  {
    assert (cycles + [c])[..|cycles|] == cycles && (events + [e])[..|events|] == events;
  }

  lemma StoredNext(cfg: Thresholds, w: World, cycles: seq<Cycle>, h: History, c: Cycle)
    requires Valid(cfg) && |h.events| == |cycles|
    requires Alternates(cfg, w, h) && StoredAs(cfg, w.state, cycles, h)
    ensures StoredAs(cfg, w.state, cycles + [c], Next(cfg, h, c))
  {
    HeldNext(cfg, w.state, cycles, h.events, c, React(cfg, h.world, c).event);
  }

  lemma {:induction false} StoredExactly(cfg: Thresholds, w: World, cycles: seq<Cycle>)
    requires Valid(cfg) && WellFormed(w.state)
    ensures StoredAs(cfg, w.state, cycles, Run(cfg, w, cycles))
    ensures Tracks(cfg, w.state, Run(cfg, w, cycles).world.state, Run(cfg, w, cycles).events)
  {
    AlternationInvariant(cfg, w, cycles);
    if cycles != [] {
      var front, last := cycles[..|cycles| - 1], cycles[|cycles| - 1];
      StoredExactly(cfg, w, front);
      AlternationInvariant(cfg, w, front);
      StoredNext(cfg, w, front, Run(cfg, w, front), last);
      SplitLast(cycles);
    }
  }

  /** Alert ids are never reused. */
  lemma {:induction false} AlertIdsFresh(cfg: Thresholds, w: World, cycles: seq<Cycle>)
    ensures var h := Run(cfg, w, cycles);
            && w.nextId <= h.world.nextId
            && (forall i :: 0 <= i < |h.events| && h.events[i].Triggered? ==>
                  w.nextId <= h.events[i].alertId < h.world.nextId)
            && (forall i, j :: 0 <= i < j < |h.events| && h.events[i].Triggered? && h.events[j].Triggered? ==>
                  h.events[i].alertId < h.events[j].alertId)
  {
    if cycles != [] {
      AlertIdsFresh(cfg, w, cycles[..|cycles| - 1]);
      RunSnoc(cfg, w, cycles);
    }
  }

  /** A trigger reports its cycle, a score below the threshold it names, and that threshold's
      severity, which is critical exactly when the critical threshold is breached. */
  ghost predicate Reports(cfg: Thresholds, c: Cycle, e: Event) {
    e.Triggered? ==>
      && c.score == Some(e.score) && e.cycleId == c.id
      && e.score < e.threshold && e.threshold == Floor(cfg, e.score)
      && (e.severity == Critical <==> e.score < cfg.critical)
  }

  /** In any run, every trigger reports its own cycle. */
  lemma {:induction false} EveryTriggerReports(cfg: Thresholds, w: World, cycles: seq<Cycle>)
    requires Valid(cfg)
    ensures var h := Run(cfg, w, cycles);
            forall i :: 0 <= i < |cycles| ==> Reports(cfg, cycles[i], h.events[i])
  {
    if cycles != [] {
      EveryTriggerReports(cfg, w, cycles[..|cycles| - 1]);
      RunSnoc(cfg, w, cycles);
      assert Reports(cfg, cycles[|cycles| - 1], React(cfg, Run(cfg, w, cycles[..|cycles| - 1]).world, cycles[|cycles| - 1]).event);
    }
  }

  // ---------- trigger timing ----------

  /** Length of the trailing run of breaching cycles since the last recovery or non-breach,
      or, reaching back to the start, on top of the breaches counted there. */
  function Trailing(cfg: Thresholds, start: int, cycles: seq<Cycle>, events: seq<Event>): int
    requires |events| == |cycles|
  {
    if cycles == [] then start
    else if events[|events| - 1].Recovered? || !Breaches(cfg, cycles[|cycles| - 1]) then 0
    else 1 + Trailing(cfg, start, cycles[..|cycles| - 1], events[..|events| - 1])
  }

  /** While no alert is active, the stored count is the trailing run, below the minimum unless
      nothing has happened yet. */
  ghost predicate CountsRun(cfg: Thresholds, start: int, cycles: seq<Cycle>, h: History)
    requires |h.events| == |cycles|
  {
    !h.world.state.isActive ==>
      && h.world.state.consecutiveBreaches == Trailing(cfg, start, cycles, h.events)
      && (cycles != [] ==> h.world.state.consecutiveBreaches < cfg.minBreaches)
  }

  /** The event of the last cycle fits the trailing run it ends. */
  ghost predicate TriggersOnTime(cfg: Thresholds, start: int, active: bool, cycles: seq<Cycle>, events: seq<Event>)
    requires |events| == |cycles| > 0
  {
    var run := Trailing(cfg, start, cycles, events);
    && (events[|events| - 1].Triggered? <==> !active && run >= cfg.minBreaches)
    && (!active && run > cfg.minBreaches ==> |cycles| == 1 && start >= cfg.minBreaches)
  }

  lemma TrailingNext(cfg: Thresholds, start: int, cycles: seq<Cycle>, events: seq<Event>, c: Cycle, e: Event)
    requires |events| == |cycles|
    ensures Trailing(cfg, start, cycles + [c], events + [e]) ==
            if e.Recovered? || !Breaches(cfg, c) then 0 else 1 + Trailing(cfg, start, cycles, events)
  {
    assert (cycles + [c])[..|cycles|] == cycles && (events + [e])[..|events|] == events;
  }

  lemma CountsRunNext(cfg: Thresholds, start: int, cycles: seq<Cycle>, h: History, c: Cycle)
    requires Valid(cfg) && |h.events| == |cycles| && CountsRun(cfg, start, cycles, h)
    ensures CountsRun(cfg, start, cycles + [c], Next(cfg, h, c))
    ensures TriggersOnTime(cfg, start, h.world.state.isActive, cycles + [c], Next(cfg, h, c).events)
  {
    TrailingNext(cfg, start, cycles, h.events, c, React(cfg, h.world, c).event);
  }

  lemma {:induction false} BreachCount(cfg: Thresholds, w: World, cycles: seq<Cycle>)
    requires Valid(cfg)
    ensures CountsRun(cfg, w.state.consecutiveBreaches, cycles, Run(cfg, w, cycles))
  {
    if cycles != [] {
      var front, last := cycles[..|cycles| - 1], cycles[|cycles| - 1];
      BreachCount(cfg, w, front);
      CountsRunNext(cfg, w.state.consecutiveBreaches, front, Run(cfg, w, front), last);
      SplitLast(cycles);
    }
  }

  /** An alert triggers exactly when none is active and the trailing run of scores below the
      warning threshold reaches the configured length. It never exceeds that length, but in the
      first cycle of a start whose stored count already reaches it. */
  lemma TriggerTiming(cfg: Thresholds, w: World, cycles: seq<Cycle>)
    requires Valid(cfg) && cycles != []
    ensures TriggersOnTime(cfg, w.state.consecutiveBreaches, Run(cfg, w, cycles[..|cycles| - 1]).world.state.isActive,
                           cycles, Run(cfg, w, cycles).events)
  {
    var front, last := cycles[..|cycles| - 1], cycles[|cycles| - 1];
    BreachCount(cfg, w, front);
    CountsRunNext(cfg, w.state.consecutiveBreaches, front, Run(cfg, w, front), last);
    SplitLast(cycles);
  }

  /** Immediate from the definitions: a caller without a state object sees a trigger on every
      breach if one breach suffices, and never otherwise. */
  lemma StatelessCaller(cfg: Thresholds, nextId: nat, c: Cycle)
    requires Valid(cfg)
    ensures React(cfg, World(NO_ALERT, nextId), c).event.Triggered? <==>
            Breaches(cfg, c) && cfg.minBreaches == 1
  {
  }

  // ---------- the anti-flapping bound ----------

  /** The product of n and x, as a sum. */
  function Times(n: nat, x: real): real {
    if n == 0 then 0.0 else Times(n - 1, x) + x
  }

  lemma {:induction false} TimesIsProduct(n: nat, x: real)
    ensures Times(n, x) == n as real * x
  {
    if n > 0 {
      TimesIsProduct(n - 1, x);
      var m := (n - 1) as real;
      assert (m + 1.0) * x == m * x + x;
    }
  }

  /** The rises so far, with one free recovery for an inherited alert. */
  function Budget(cfg: Thresholds, w: World, cycles: seq<Cycle>): real {
    Rise(cycles) + Times(Inherited(w), cfg.buffer)
  }

  ghost predicate Paid(cfg: Thresholds, w: World, h: History, cycles: seq<Cycle>) {
    var n, spent, budget := Recoveries(h.events), Times(Recoveries(h.events), cfg.buffer), Budget(cfg, w, cycles);
    && 0.0 <= Rise(cycles) && spent <= budget
    && (n > Inherited(w) ==> spent < budget)
    && (h.world.state.isActive ==>
          || (n == 0 && !Idle(w) && Triggers(h.events) == 0)
          || (h.world.state.severity.Some? && LastScore(cycles).Some?
              && spent + LastScore(cycles).value - ThresholdFor(cfg, h.world.state.severity.value) < budget))
  }

  lemma PaidNext(cfg: Thresholds, w: World, h: History, cycles: seq<Cycle>, c: Cycle)
    requires Valid(cfg) && Paid(cfg, w, h, cycles)
    ensures Paid(cfg, w, Next(cfg, h, c), cycles + [c])
  {
    var h' := Next(cfg, h, c);
    Extended(cycles, c);
    assert h'.events[..|h'.events| - 1] == h.events;
  }

  lemma {:induction false} PaidInvariant(cfg: Thresholds, w: World, cycles: seq<Cycle>)
    requires Valid(cfg)
    ensures Paid(cfg, w, Run(cfg, w, cycles), cycles)
  {
    if cycles == [] {
      assert Times(1, cfg.buffer) == Times(0, cfg.buffer) + cfg.buffer == cfg.buffer;
    } else {
      PaidInvariant(cfg, w, cycles[..|cycles| - 1]);
      PaidNext(cfg, w, Run(cfg, w, cycles[..|cycles| - 1]), cycles[..|cycles| - 1], cycles[|cycles| - 1]);
      SplitLast(cycles);
    }
  }

  /** The bound with the product as a sum. */
  lemma SumBound(cfg: Thresholds, w: World, cycles: seq<Cycle>)
    requires Valid(cfg)
    ensures var n, free := Recoveries(Run(cfg, w, cycles).events), if Idle(w) then 0.0 else cfg.buffer;
            && Times(n, cfg.buffer) <= Rise(cycles) + free
            && (n > Inherited(w) ==> Times(n, cfg.buffer) < Rise(cycles) + free)
  {
    PaidInvariant(cfg, w, cycles);
    assert Times(1, cfg.buffer) == Times(0, cfg.buffer) + cfg.buffer == cfg.buffer;
  }

  /** n times x is at most, and when `strictly` below, the total. */
  ghost predicate AtMost(n: nat, x: real, total: real, strictly: bool) {
    n as real * x <= total && (strictly ==> n as real * x < total)
  }

  lemma SumIsProduct(n: nat, x: real, total: real, strictly: bool)
    requires Times(n, x) <= total && (strictly ==> Times(n, x) < total)
    ensures AtMost(n, x, total, strictly)
  {
    TimesIsProduct(n, x);
  }

  /** Every recovery is paid for by a rise of more than the buffer: over any scores, the
      recoveries times the buffer stay below the total upward variation. An alert inherited at
      the start may recover once for free. */
  lemma AntiFlapBound(cfg: Thresholds, w: World, cycles: seq<Cycle>)
    requires Valid(cfg)
    ensures var n, free := Recoveries(Run(cfg, w, cycles).events), if Idle(w) then 0.0 else cfg.buffer;
            AtMost(n, cfg.buffer, Rise(cycles) + free, n > Inherited(w))
  {
    var n, free := Recoveries(Run(cfg, w, cycles).events), if Idle(w) then 0.0 else cfg.buffer;
    SumBound(cfg, w, cycles);
    SumIsProduct(n, cfg.buffer, Rise(cycles) + free, n > Inherited(w));
  }

  // ---------- the bound is tight ----------

  function Repeat(c: Cycle, n: nat): seq<Cycle> {
    if n == 0 then [] else Repeat(c, n - 1) + [c]
  }

  /** n times: just enough cycles at the low score, then one at the high score. */
  function Flapping(low: Cycle, high: Cycle, m: nat, n: nat): seq<Cycle> {
    if n == 0 then [] else Flapping(low, high, m, n - 1) + Repeat(low, m) + [high]
  }

  /** What has been reported, observed and paid at a given point. */
  ghost predicate At(cfg: Thresholds, w: World, cycles: seq<Cycle>, active: bool, breaches: int,
                     n: nat, last: Option<real>, rise: real) {
    var h := Run(cfg, w, cycles);
    && h.world.state.isActive == active
    && (active ==> h.world.state.severity == Some(Warning)
                   && h.world.state.alertId.Some? && h.world.state.triggeredScore.Some?)
    && (!active ==> h.world.state.consecutiveBreaches == breaches)
    && Recoveries(h.events) == n && LastScore(cycles) == last && Rise(cycles) == rise
  }

  lemma LowCycle(cfg: Thresholds, w: World, cycles: seq<Cycle>, low: Cycle, k: nat, n: nat, last: Option<real>, rise: real)
    requires Valid(cfg) && k < cfg.minBreaches && At(cfg, w, cycles, false, k, n, last, rise)
    requires low.score.Some? && cfg.critical <= low.score.value < cfg.warning
    requires last.Some? ==> low.score.value <= last.value
    ensures At(cfg, w, cycles + [low], k + 1 == cfg.minBreaches, k + 1, n, low.score, rise)
  {
    Extended(cycles, low);
    RunSnoc(cfg, w, cycles + [low]);
  }

  lemma RepeatSnoc(cycles: seq<Cycle>, c: Cycle, k: nat)
    requires k > 0
    ensures cycles + Repeat(c, k) == cycles + Repeat(c, k - 1) + [c]
  {
  }

  lemma {:induction false} LowPhase(cfg: Thresholds, w: World, cycles: seq<Cycle>, low: Cycle, k: nat, n: nat, last: Option<real>, rise: real)
    requires Valid(cfg) && k <= cfg.minBreaches
    requires At(cfg, w, cycles, false, 0, n, last, rise)
    requires low.score.Some? && cfg.critical <= low.score.value < cfg.warning
    requires last.Some? ==> low.score.value <= last.value
    ensures At(cfg, w, cycles + Repeat(low, k), k == cfg.minBreaches, k, n,
               if k == 0 then last else low.score, rise)
  {
    if k == 0 {
      assert cycles + Repeat(low, 0) == cycles;
    } else {
      LowPhase(cfg, w, cycles, low, k - 1, n, last, rise);
      LowCycle(cfg, w, cycles + Repeat(low, k - 1), low, k - 1, n, if k == 1 then last else low.score, rise);
      RepeatSnoc(cycles, low, k);
    }
  }

  lemma Extended(cycles: seq<Cycle>, c: Cycle)
    ensures cycles + [c] != [] && (cycles + [c])[..|cycles + [c]| - 1] == cycles
    ensures (cycles + [c])[|cycles + [c]| - 1] == c
  {
  }

  lemma HighPhase(cfg: Thresholds, w: World, cycles: seq<Cycle>, high: Cycle, breaches: int, n: nat, last: real, rise: real)
    requires Valid(cfg) && At(cfg, w, cycles, true, breaches, n, Some(last), rise)
    requires high.score == Some(cfg.warning + cfg.buffer) && last < cfg.warning
    ensures At(cfg, w, cycles + [high], false, 0, n + 1, high.score, rise + high.score.value - last)
  {
    Extended(cycles, high);
    RunSnoc(cfg, w, cycles + [high]);
  }

  lemma FlapRound(cfg: Thresholds, w: World, cycles: seq<Cycle>, low: Cycle, high: Cycle, n: nat, last: Option<real>, rise: real)
    requires Valid(cfg) && At(cfg, w, cycles, false, 0, n, last, rise)
    requires low.score.Some? && cfg.critical <= low.score.value < cfg.warning
    requires high.score == Some(cfg.warning + cfg.buffer) && (last.Some? ==> last == high.score)
    ensures At(cfg, w, cycles + Repeat(low, cfg.minBreaches) + [high], false, 0, n + 1, high.score,
               rise + (high.score.value - low.score.value))
  {
    LowPhase(cfg, w, cycles, low, cfg.minBreaches, n, last, rise);
    HighPhase(cfg, w, cycles + Repeat(low, cfg.minBreaches), high, cfg.minBreaches, n, low.score.value, rise);
  }

  lemma {:induction false} FlappingRun(cfg: Thresholds, w: World, low: Cycle, high: Cycle, n: nat)
    requires Valid(cfg) && Idle(w) && w.state.consecutiveBreaches == 0
    requires low.score.Some? && cfg.critical <= low.score.value < cfg.warning
    requires high.score == Some(cfg.warning + cfg.buffer)
    ensures At(cfg, w, Flapping(low, high, cfg.minBreaches, n), false, 0, n,
               if n == 0 then None else high.score,
               Times(n, high.score.value - low.score.value))
  {
    if n > 0 {
      FlappingRun(cfg, w, low, high, n - 1);
      FlapRound(cfg, w, Flapping(low, high, cfg.minBreaches, n - 1), low, high, n - 1,
                if n == 1 then None else high.score, Times(n - 1, high.score.value - low.score.value));
    }
  }

  /** Some scores make n recoveries with this upward variation. */
  ghost predicate Attained(cfg: Thresholds, w: World, n: nat, variation: real) {
    exists cycles :: Recoveries(Run(cfg, w, cycles).events) == n && Rise(cycles) == variation
  }

  lemma FlappingAttains(cfg: Thresholds, w: World, n: nat, margin: real, variation: real)
    requires Valid(cfg) && Idle(w) && w.state.consecutiveBreaches == 0
    requires 0.0 < margin <= cfg.warning - cfg.critical
    requires variation == Times(n, cfg.buffer + margin)
    ensures Attained(cfg, w, n, variation)
  {
    var low, high := Cycle("low", Some(cfg.warning - margin)), Cycle("high", Some(cfg.warning + cfg.buffer));
    FlappingRun(cfg, w, low, high, n);
    var cycles := Flapping(low, high, cfg.minBreaches, n);
    assert high.score.value - low.score.value == cfg.buffer + margin;
    assert Recoveries(Run(cfg, w, cycles).events) == n && Rise(cycles) == variation;
  }

  /** No better bound exists: for every n and every margin, some scores make n recoveries with
      an upward variation of n times the buffer plus that margin. */
  lemma BoundIsTight(cfg: Thresholds, w: World, n: nat, margin: real)
    requires Valid(cfg) && Idle(w) && w.state.consecutiveBreaches == 0
    requires 0.0 < margin <= cfg.warning - cfg.critical
    ensures Attained(cfg, w, n, n as real * (cfg.buffer + margin))
  {
    TimesIsProduct(n, cfg.buffer + margin);
    FlappingAttains(cfg, w, n, margin, n as real * (cfg.buffer + margin));
  }
}
