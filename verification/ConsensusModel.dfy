/** The consensus aggregator on values: what one message does to one vote, and what a log
    does to the whole aggregator. The classes in `ConsensusAggregator` are proved to
    compute exactly these functions; the theorems are about them. */
module ConsensusModel {
  import opened Prelude

  // ---------- entities ----------

  datatype Role = SecretaryText | SecretaryJson {
    function Name(): string {
      match this
      case SecretaryText => "secretary_text"
      case SecretaryJson => "secretary_json"
    }
  }

  datatype Status =
    | Pending
    | Consensus
    | WitnessPending
    | Disagreement
    | RetryPending
    | Validated
    | DeadLetter

  datatype ValidatorResponse =
    ValidatorResponse(validatorId: string, choice: string, confidence: real, attempt: int)

  datatype SecretaryResponse =
    SecretaryResponse(secretaryId: string, role: Role, choice: string, confidence: real,
                      reasoning: string, attempt: int)

  datatype Verdict = Agrees | Dissents

  datatype WitnessObservation =
    WitnessObservation(witnessId: string, verdict: Verdict, statement: string)

  /** The state of one vote. `attempts` (publish attempts made for this vote) and
      `disagreements` (evaluations counted as a disagreement) are history variables. */
  datatype Vote = Vote(
    voteId: string,
    sessionId: string,
    archonId: string,
    rawResponse: string,
    motionText: string,
    optimisticChoice: string,
    responses: Table<ValidatorResponse>,
    secretaryResponses: Table<SecretaryResponse>,
    observation: Option<WitnessObservation>,
    status: Status,
    retryCount: nat,
    consensusChoice: Option<string>,
    consensusConfidence: Option<real>,
    attempts: nat,
    disagreements: nat)

  function NewVote(voteId: string, sessionId: string, archonId: string, rawResponse: string,
                   motionText: string, optimisticChoice: string): Vote
  {
    Vote(voteId, sessionId, archonId, rawResponse, motionText, optimisticChoice,
         Table(map[], []), Table(map[], []), None, Pending, 0, None, None, 0, 0)
  }

  predicate Terminal(v: Vote) {
    v.status == Validated || v.status == DeadLetter
  }

  // ---------- published records ----------

  datatype Determination =
    Determination(secretaryId: string, choice: string, confidence: real, reasoning: string)

  datatype ValidatorLine = ValidatorLine(validatorId: string, choice: string, confidence: real)

  datatype Record =
    | WitnessRequest(voteId: string, sessionId: string, archonId: string, rawResponse: string,
                     motionText: string, textChoice: string, jsonChoice: string,
                     consensusChoice: string)
    | WitnessedVote(voteId: string, sessionId: string, archonId: string,
                    validatedChoice: Option<string>, confidence: real,
                    text: Option<Determination>, json: Option<Determination>,
                    observation: Option<WitnessObservation>)
    | LegacyVote(voteId: string, sessionId: string, optimisticChoice: string,
                 validatedChoice: Option<string>, requiresOverride: bool, confidence: real,
                 lines: seq<ValidatorLine>)
    | DeadLetterVote(voteId: string, sessionId: string, reason: string,
                     lines: seq<ValidatorLine>, retryCount: nat)

  /** A record on the validated or the dead-letter topic. */
  predicate Final(r: Record) {
    !r.WitnessRequest?
  }

  // ---------- latest responses ----------

  function SecretaryKey(r: SecretaryResponse): string {
    AttemptKey(r.role.Name(), r.attempt)
  }

  function ValidatorKey(r: ValidatorResponse): string {
    AttemptKey(r.validatorId, r.attempt)
  }

  /** The fold of `get_secretary_responses` over the responses in iteration order. */
  function LatestByRole(rs: seq<SecretaryResponse>, only: Option<int>): map<Role, SecretaryResponse> {
    if rs == [] then map[] else
      var m := LatestByRole(rs[..|rs| - 1], only);
      var r := rs[|rs| - 1];
      if only.Some? && r.attempt != only.value then m
      else if r.role !in m || r.attempt > m[r.role].attempt then m[r.role := r]
      else m
  }

  /** Position of a validator in a list of responses, or the length of the list. */
  function Find(rs: seq<ValidatorResponse>, id: string): (i: nat)
    ensures i <= |rs|
    ensures i < |rs| ==> rs[i].validatorId == id
  {
    if rs == [] then 0 else if rs[0].validatorId == id then 0 else 1 + Find(rs[1..], id)
  }

  /** One iteration of `get_latest_responses`: replaces the validator's response by a later
      one in place, or appends the response of a validator not seen before. */
  function Upsert(latest: seq<ValidatorResponse>, r: ValidatorResponse): seq<ValidatorResponse> {
    var i := Find(latest, r.validatorId);
    if i == |latest| then latest + [r]
    else if r.attempt > latest[i].attempt then latest[i := r]
    else latest
  }

  /** The fold of `get_latest_responses` over the responses in iteration order. */
  function LatestByValidator(rs: seq<ValidatorResponse>): seq<ValidatorResponse> {
    if rs == [] then [] else Upsert(LatestByValidator(rs[..|rs| - 1]), rs[|rs| - 1])
  }

  function LatestSecretary(rs: seq<SecretaryResponse>, role: Role): Option<SecretaryResponse> {
    var m := LatestByRole(rs, None);
    if role in m then Some(m[role]) else None
  }

  predicate Unanimous(rs: seq<ValidatorResponse>) {
    rs != [] && forall i :: 0 <= i < |rs| ==> rs[i].choice == rs[0].choice
  }

  function Min(a: real, b: real): real {
    if b < a then b else a
  }

  function LeastConfidence(rs: seq<ValidatorResponse>): real
    requires rs != []
  {
    if |rs| == 1 then rs[0].confidence
    else Min(LeastConfidence(rs[..|rs| - 1]), rs[|rs| - 1].confidence)
  }

  function Line(r: ValidatorResponse): ValidatorLine {
    ValidatorLine(r.validatorId, r.choice, r.confidence)
  }

  function Lines(rs: seq<ValidatorResponse>): seq<ValidatorLine> {
    seq(|rs|, i requires 0 <= i < |rs| => Line(rs[i]))
  }

  function Determined(r: Option<SecretaryResponse>): Option<Determination> {
    match r
    case Some(x) => Some(Determination(x.secretaryId, x.choice, x.confidence, x.reasoning))
    case None => None
  }

  // ---------- payloads ----------

  function ToWitnessRequest(v: Vote): Record
  {
    var text, json := LatestSecretary(v.secretaryResponses.order, SecretaryText), LatestSecretary(v.secretaryResponses.order, SecretaryJson);
    WitnessRequest(v.voteId, v.sessionId, v.archonId, v.rawResponse, v.motionText,
                   if text.Some? then text.value.choice else "",
                   if json.Some? then json.value.choice else "",
                   v.consensusChoice.GetOr(""))
  }

  function ToWitnessedVote(v: Vote): Record
  {
    WitnessedVote(v.voteId, v.sessionId, v.archonId, v.consensusChoice,
                  v.consensusConfidence.GetOr(0.0),
                  Determined(LatestSecretary(v.secretaryResponses.order, SecretaryText)),
                  Determined(LatestSecretary(v.secretaryResponses.order, SecretaryJson)),
                  v.observation)
  }

  function ToLegacyVote(v: Vote): Record
  {
    LegacyVote(v.voteId, v.sessionId, v.optimisticChoice, v.consensusChoice,
               v.consensusChoice != Some(v.optimisticChoice), v.consensusConfidence.GetOr(0.0),
               Lines(LatestByValidator(v.responses.order)))
  }

  function ToDeadLetter(v: Vote, reason: string): Record
  {
    DeadLetterVote(v.voteId, v.sessionId, reason, Lines(LatestByValidator(v.responses.order)), v.retryCount)
  }

  // ---------- metrics ----------

  datatype Counter =
    | MessagesConsumed
    | MessagesProcessed
    | DuplicatesSkipped
    | ConsensusReached
    | Disagreements
    | RetriesScheduled
    | DeadLetterRoutes
    | ValidatedPublished
    | SessionFiltered
    | SecretaryResponses
    | WitnessRequests
    | WitnessVerdicts
    | WitnessAgrees
    | WitnessDissents
    | PublishAttempts

  /** The metrics record: the multiplicity of a counter is its value. `PublishAttempts` is a
      history count the program does not keep: all publish attempts, confirmed or not. */
  type Metrics = multiset<Counter>

  // ---------- messages, configuration, publish outcomes ----------

  datatype Body =
    | SecretaryResult(voteId: string, sessionId: string, archonId: string, rawResponse: string,
                      motionText: string, response: SecretaryResponse)
    | WitnessResult(voteId: string, observation: WitnessObservation)
    | LegacyResult(voteId: string, sessionId: string, legacy: ValidatorResponse)
    | Undecodable

  /** `header` is the session id carried by the message headers, if any. */
  datatype Message = Message(header: Option<string>, body: Body)

  /** `validatorCount` is the number of configured legacy validators; none stands for two. */
  datatype Limits = Limits(maxRetries: int, validatorCount: nat) {
    function Required(): nat {
      if validatorCount == 0 then 2 else validatorCount
    }
  }

  datatype Config = Config(session: Option<string>, limits: Limits) {
    /** An absent or empty session id disables filtering. */
    predicate Accepts(header: Option<string>) {
      session.None? || session.value == "" || header == session
    }
  }

  /** Outcome of a publish attempt: circuit breaker, serializer and broker failures all read as
      false. It may depend on the vote, on how many attempts were made for that vote before,
      and, since all votes share one broker and one circuit breaker, on how many attempts the
      aggregator made before. */
  type Oracle = (string, nat, nat) -> bool

  // ---------- one message, one vote ----------

  /** What a message does to its vote: the new vote, the records confirmed, the counts. */
  datatype Effect = Effect(vote: Vote, out: seq<Record>, delta: Metrics)

  /** The same effect after further counters have been incremented. */
  function Counting(counters: Metrics, e: Effect): Effect {
    e.(delta := counters + e.delta)
  }

  /** A publish attempt; a confirmed record moves the vote to the given status. */
  function Publish(ok: bool, v: Vote, record: Record, status: Status, counters: Metrics): Effect {
    var tried := v.(attempts := v.attempts + 1);
    if ok then Effect(tried.(status := status), [record], multiset{PublishAttempts} + counters)
    else Effect(tried, [], multiset{PublishAttempts})
  }

  function PublishWitnessRequest(ok: bool, v: Vote): Effect {
    Publish(ok, v, ToWitnessRequest(v), WitnessPending, multiset{WitnessRequests})
  }

  function PublishWitnessed(ok: bool, v: Vote): Effect {
    Publish(ok, v, ToWitnessedVote(v), Validated,
            match v.observation
            case None => multiset{ValidatedPublished}
            case Some(o) =>
              multiset{ValidatedPublished} + multiset{if o.verdict == Agrees then WitnessAgrees else WitnessDissents})
  }

  function PublishLegacy(ok: bool, v: Vote): Effect {
    Publish(ok, v, ToLegacyVote(v), Validated, multiset{ValidatedPublished})
  }

  function PublishDeadLetter(ok: bool, v: Vote, reason: string): Effect {
    Publish(ok, v, ToDeadLetter(v, reason), DeadLetter, multiset{DeadLetterRoutes})
  }

  /** A disagreement is retried while the budget lasts and dead-lettered afterwards. */
  function OnDisagreement(lim: Limits, ok: bool, v: Vote, reason: string): Effect {
    var seen := v.(disagreements := v.disagreements + 1);
    if v.retryCount < lim.maxRetries then
      Effect(seen.(retryCount := v.retryCount + 1, status := RetryPending), [],
             multiset{Disagreements} + multiset{RetriesScheduled})
    else
      Counting(multiset{Disagreements}, PublishDeadLetter(ok, seen, reason))
  }

  /** What the stored responses say: not enough of them, agreement, or disagreement. */
  datatype Reading = Waiting | Agreed(choice: string, confidence: real) | Differs

  function ReadSecretaries(rs: seq<SecretaryResponse>): Reading {
    var text, json := LatestSecretary(rs, SecretaryText), LatestSecretary(rs, SecretaryJson);
    if text.None? || json.None? then Waiting
    else if text.value.choice == json.value.choice
    then Agreed(text.value.choice, Min(text.value.confidence, json.value.confidence))
    else Differs
  }

  function ReadValidators(rs: seq<ValidatorResponse>, required: nat): Reading {
    var latest := LatestByValidator(rs);
    if |latest| < required then Waiting
    else if Unanimous(latest) then Agreed(latest[0].choice, LeastConfidence(latest))
    else Differs
  }

  /** The vote after a consensus check that found the given reading. */
  function Checked(v: Vote, reading: Reading): Vote {
    match reading
    case Waiting => v
    case Agreed(choice, confidence) =>
      v.(consensusChoice := Some(choice), consensusConfidence := Some(confidence), status := Consensus)
    case Differs => v.(status := Disagreement)
  }

  const SECRETARY_REASON := "secretary_disagreement_max_retries"
  const LEGACY_REASON := "max_retries_exhausted_disagreement"

  function OnSecretary(lim: Limits, ok: bool, v: Vote, r: SecretaryResponse): Effect {
    if Terminal(v) then Effect(v, [], multiset{})
    else if SecretaryKey(r) in v.secretaryResponses.vals then
      Effect(v, [], multiset{DuplicatesSkipped})
    else
      var added := v.(secretaryResponses := v.secretaryResponses.Add(SecretaryKey(r), r));
      ConcludeSecretary(lim, ok, added, ReadSecretaries(added.secretaryResponses.order))
  }

  function ConcludeSecretary(lim: Limits, ok: bool, v: Vote, reading: Reading): Effect {
    var received := multiset{SecretaryResponses, MessagesProcessed};
    var checked := Checked(v, reading);
    if reading.Agreed? then
      Counting(received + multiset{ConsensusReached}, PublishWitnessRequest(ok, checked))
    else if checked.status == Disagreement then
      Counting(received, OnDisagreement(lim, ok, checked, SECRETARY_REASON))
    else Effect(checked, [], received)
  }

  function OnLegacy(lim: Limits, ok: bool, v: Vote, r: ValidatorResponse): Effect {
    if Terminal(v) then Effect(v, [], multiset{})
    else if ValidatorKey(r) in v.responses.vals then
      Effect(v, [], multiset{DuplicatesSkipped})
    else
      var added := v.(responses := v.responses.Add(ValidatorKey(r), r));
      ConcludeLegacy(lim, ok, added, ReadValidators(added.responses.order, lim.Required()))
  }

  function ConcludeLegacy(lim: Limits, ok: bool, v: Vote, reading: Reading): Effect {
    var received := multiset{MessagesProcessed};
    var checked := Checked(v, reading);
    if reading.Agreed? then
      Counting(received + multiset{ConsensusReached}, PublishLegacy(ok, checked))
    else if checked.status == Disagreement then
      Counting(received, OnDisagreement(lim, ok, checked, LEGACY_REASON))
    else Effect(checked, [], received)
  }

  function OnWitness(ok: bool, v: Vote, o: WitnessObservation): Effect
  {
    if v.status != WitnessPending then Effect(v, [], multiset{})
    else Counting(multiset{WitnessVerdicts, MessagesProcessed}, PublishWitnessed(ok, v.(observation := Some(o))))
  }

  /** The vote a message finds or creates; a witness verdict never creates one. */
  function Addressed(cur: Option<Vote>, b: Body): Option<Vote> {
    match b
    case Undecodable => cur
    case WitnessResult(_, _) => cur
    case SecretaryResult(id, session, archon, raw, motion, _) =>
      if cur.Some? then cur else Some(NewVote(id, session, archon, raw, motion, ""))
    case LegacyResult(id, session, r) =>
      if cur.Some? then cur else Some(NewVote(id, session, "", "", "", r.choice))
  }

  /** What a message does to its vote, if a publish attempt would be answered `ok`. */
  function React(lim: Limits, ok: bool, v: Vote, b: Body): Effect
  {
    match b
    case Undecodable => Effect(v, [], multiset{})
    case WitnessResult(_, o) => OnWitness(ok, v, o)
    case SecretaryResult(_, _, _, _, _, r) => OnSecretary(lim, ok, v, r)
    case LegacyResult(_, _, r) => OnLegacy(lim, ok, v, r)
  }

  // ---------- the whole aggregator ----------

  /** `ids` lists the tracked votes in the order in which they were first seen. */
  datatype State = State(ids: seq<string>, votes: map<string, Vote>, outbox: seq<Record>, metrics: Metrics)

  const EMPTY := State([], map[], [], multiset{})

  function Lookup(s: State, id: string): Option<Vote> {
    if id in s.votes then Some(s.votes[id]) else None
  }

  function Apply(s: State, id: string, e: Effect): State {
    State(if id in s.votes then s.ids else s.ids + [id], s.votes[id := e.vote],
          s.outbox + e.out, s.metrics + e.delta)
  }

  /** The answer the next publish attempt for the vote would get. */
  function Answer(oracle: Oracle, s: State, v: Vote): bool {
    oracle(v.voteId, v.attempts, s.metrics[PublishAttempts])
  }

  function Deliver(cfg: Config, oracle: Oracle, s: State, b: Body): State {
    if b.Undecodable? then s else
      var v := Addressed(Lookup(s, b.voteId), b);
      if v.None? then s
      else Apply(s, b.voteId, React(cfg.limits, Answer(oracle, s, v.value), v.value, b))
  }

  /** One iteration of the consumer loop. */
  function Step(cfg: Config, oracle: Oracle, s: State, m: Message): State {
    var counted := s.(metrics := s.metrics + multiset{MessagesConsumed});
    if !cfg.Accepts(m.header) then
      counted.(metrics := counted.metrics + multiset{SessionFiltered})
    else Deliver(cfg, oracle, counted, m.body)
  }

  function Run(cfg: Config, oracle: Oracle, s: State, log: seq<Message>): State
    decreases |log|
  {
    if log == [] then s else Run(cfg, oracle, Step(cfg, oracle, s, log[0]), log[1..])
  }

  /** The ids of the votes that are not terminal, in order. */
  function PendingIds(ids: seq<string>, votes: map<string, Vote>): seq<string>
    requires forall i :: 0 <= i < |ids| ==> ids[i] in votes
  {
    if ids == [] then [] else
      var last := ids[|ids| - 1];
      PendingIds(ids[..|ids| - 1], votes) + if Terminal(votes[last]) then [] else [last]
  }
}
