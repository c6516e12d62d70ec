/** The reroute step on values, and the refusal loop it drives: decline, reroute, perhaps
    decline again, and in the end an escalation. */
module RerouteModel {
  import opened Prelude
  import opened Lexicographic

  datatype Tool = Tool(toolId: string, toolClass: Option<string>, status: Option<string>, capabilities: seq<string>)

  datatype Requirement = Requirement(capabilities: seq<string>, toolClass: string)

  predicate Eligible(req: Requirement, t: Tool) {
    && t.toolClass == Some(req.toolClass)
    && t.status == Some("AVAILABLE")
    && forall i :: 0 <= i < |req.capabilities| ==> req.capabilities[i] in t.capabilities
  }

  /** The administrative pipeline's selection, in registry order. */
  function EligibleTools(req: Requirement, tools: seq<Tool>): seq<Tool> {
    if tools == [] then [] else
      EligibleTools(req, tools[..|tools| - 1])
      + if Eligible(req, tools[|tools| - 1]) then [tools[|tools| - 1]] else []
  }

  function Untried(tools: seq<Tool>, excluded: set<string>): seq<Tool> {
    if tools == [] then [] else
      Untried(tools[..|tools| - 1], excluded)
      + if tools[|tools| - 1].toolId in excluded then [] else [tools[|tools| - 1]]
  }

  /** Stable insertion into a list sorted by tool id. */
  function InsertById(sorted: seq<Tool>, t: Tool): seq<Tool> {
    if sorted == [] then [t]
    else if Leq(sorted[|sorted| - 1].toolId, t.toolId) then sorted + [t]
    else InsertById(sorted[..|sorted| - 1], t) + [sorted[|sorted| - 1]]
  }

  /** The list sorted by tool id; equal ids keep their order. */
  function SortById(tools: seq<Tool>): seq<Tool> {
    if tools == [] then [] else InsertById(SortById(tools[..|tools| - 1]), tools[|tools| - 1])
  }

  /** Reroute candidates: the administrative pipeline's tools, less those excluded, sorted. */
  function Candidates(req: Requirement, tools: seq<Tool>, excluded: set<string>): seq<Tool> {
    SortById(Untried(EligibleTools(req, tools), excluded))
  }

  datatype Strategy = RoundRobin | Priority | Random

  /** `draw` is the random choice; it matters for the random strategy only. */
  function SelectTool(candidates: seq<Tool>, strategy: Strategy, draw: nat): Option<Tool> {
    if candidates == [] then None
    else if strategy == Random then Some(candidates[draw % |candidates|])
    else Some(candidates[0])
  }

  // ---------- the task state ----------

  datatype Phase = NeedsReroute | ActivationSent | Blocked | Elsewhere(name: string)

  datatype Attempt = Attempt(tarId: string, toolId: string)

  datatype Policy = Policy(maxAttempts: Option<int>, escalateOnExhaustion: Option<bool>)

  datatype Escalation = Escalation(to: string, reason: string)

  datatype TaskState = TaskState(
    state: Phase,
    tarId: string,
    attemptCount: int,
    attemptHistory: seq<Attempt>,
    excludedTools: seq<string>,
    policy: Option<Policy>,
    escalations: seq<Escalation>)

  const DEFAULT_POLICY := Policy(Some(3), Some(true))
  const MAX_ATTEMPTS_REACHED := "REROUTE_MAX_ATTEMPTS_REACHED"
  const EXHAUSTED := "REROUTE_EXHAUSTED"

  function Excluded(s: TaskState): set<string> {
    (set t | t in s.excludedTools) + (set a | a in s.attemptHistory :: a.toolId)
  }

  function MaxAttempts(s: TaskState): int {
    if s.policy.None? then 3 else s.policy.value.maxAttempts.GetOr(3)
  }

  predicate Escalates(s: TaskState) {
    s.policy.None? || s.policy.value.escalateOnExhaustion.GetOr(true)
  }

  predicate CheckMaxAttempts(s: TaskState) {
    s.attemptCount >= MaxAttempts(s)
  }

  function UpdateForReroute(s: TaskState, tarId: string, toolId: string): TaskState {
    s.(state := ActivationSent,
       tarId := tarId,
       attemptCount := s.attemptCount + 1,
       attemptHistory := s.attemptHistory + [Attempt(tarId, toolId)],
       excludedTools := if toolId in s.excludedTools then s.excludedTools else s.excludedTools + [toolId],
       policy := if s.policy.None? then Some(DEFAULT_POLICY) else s.policy)
  }

  function UpdateForExhaustion(s: TaskState, reason: string): TaskState {
    s.(state := Blocked,
       escalations := s.escalations + [Escalation("DUKE", reason)],
       policy := if s.policy.None? then Some(DEFAULT_POLICY) else s.policy)
  }

  /** `notified`: whether an escalation event was also emitted. */
  datatype Outcome =
    | Refused
    | Exhausted(reason: string, notified: bool)
    | TaskMissing
    | Rerouted(toolId: string)

  /** What one invocation finds: the registry, the strategy and its draw, a fresh activation
      id, and whether the program lists the task. */
  datatype Round = Round(tools: seq<Tool>, strategy: Strategy, draw: nat, tarId: string, inProgram: bool)

  datatype Step = Step(state: TaskState, outcome: Outcome)

  function Reroute(req: Requirement, s: TaskState, r: Round): Step {
    if s.state != NeedsReroute then Step(s, Refused)
    else if CheckMaxAttempts(s) then
      Step(UpdateForExhaustion(s, MAX_ATTEMPTS_REACHED), Exhausted(MAX_ATTEMPTS_REACHED, Escalates(s)))
    else
      var selected := SelectTool(Candidates(req, r.tools, Excluded(s)), r.strategy, r.draw);
      if selected.None? then Step(UpdateForExhaustion(s, EXHAUSTED), Exhausted(EXHAUSTED, Escalates(s)))
      else if !r.inProgram then Step(s, TaskMissing)
      else Step(UpdateForReroute(s, r.tarId, selected.value.toolId), Rerouted(selected.value.toolId))
  }

  /** The tool declines: the task needs rerouting again, everything else stays. */
  function Decline(s: TaskState): TaskState {
    s.(state := NeedsReroute)
  }

  datatype Played = Played(state: TaskState, picks: seq<string>)

  /** A sequence of invocations, each against its own registry; every tool picked declines. */
  function Play(req: Requirement, s: TaskState, rounds: seq<Round>): Played {
    if rounds == [] then Played(s, []) else
      var p := Play(req, s, rounds[..|rounds| - 1]);
      var step := Reroute(req, p.state, rounds[|rounds| - 1]);
      if step.outcome.Rerouted? then Played(Decline(step.state), p.picks + [step.outcome.toolId])
      else Played(step.state, p.picks)
  }

  function Remaining(s: TaskState): nat {
    if MaxAttempts(s) <= s.attemptCount then 0 else MaxAttempts(s) - s.attemptCount
  }

  /** The refusal loop against a fixed registry, until no tool is picked any more; the n-th
      invocation uses the n-th choice of strategy, draw and activation id. */
  function Exhaust(req: Requirement, s: TaskState, tools: seq<Tool>, choices: nat -> Round, n: nat): Played
    decreases Remaining(s)
  {
    var step := Reroute(req, s, choices(n).(tools := tools, inProgram := true));
    if step.outcome.Rerouted? then
      var rest := Exhaust(req, Decline(step.state), tools, choices, n + 1);
      Played(rest.state, [step.outcome.toolId] + rest.picks)
    else Played(step.state, [])
  }
}
