/** What one message leads to in any run, in terms of the responses stored: who was heard, what
    their latest responses say, and what is published. */
module ConsensusDecisions {
  import opened Prelude
  import opened ConsensusModel
  import opened ConsensusViews
  import opened ConsensusReplay
  import opened ConsensusSafety

  // ---------- what the secretaries' responses say ----------

  predicate Silent(rs: seq<SecretaryResponse>, role: Role) {
    forall i :: 0 <= i < |rs| ==> rs[i].role != role
  }

  function Lower(a: real, b: real): (c: real)
    ensures c <= a && c <= b && (c == a || c == b)
  {
    if a < b then a else b
  }

  lemma LatestIs(t: Table<SecretaryResponse>, role: Role, r: SecretaryResponse)
    requires StoredSecretaries(t) && LatestOf(t.order, role, None, r)
    ensures LatestSecretary(t.order, role) == Some(r)
  {
    LatestByRoleExact(t.order, role, None);
    var i :| 0 <= i < |t.order| && t.order[i] == r;
    assert Considered(t.order[i], role, None);
    SameSecretaryKey(t, LatestByRole(t.order, None)[role], r);
  }

  lemma SilentIsNone(rs: seq<SecretaryResponse>, role: Role)
    ensures LatestSecretary(rs, role).None? <==> Silent(rs, role)
  {
    LatestByRoleExact(rs, role, None);
    if LatestSecretary(rs, role).Some? {
      var r := LatestByRole(rs, None)[role];
      var i :| 0 <= i < |rs| && rs[i] == r;
      assert rs[i].role == role;
    } else {
      forall i | 0 <= i < |rs| ensures rs[i].role != role {
        assert !Considered(rs[i], role, None);
      }
    }
  }

  /** Whatever was stored, and over however many attempts, the two latest responses decide:
      equal choices are agreement at the lower of their confidences. */
  lemma SecretaryReadingExactly(t: Table<SecretaryResponse>, text: SecretaryResponse, json: SecretaryResponse)
    requires StoredSecretaries(t)
    requires LatestOf(t.order, SecretaryText, None, text) && LatestOf(t.order, SecretaryJson, None, json)
    ensures ReadSecretaries(t.order) == if text.choice == json.choice
                                        then Agreed(text.choice, Lower(text.confidence, json.confidence))
                                        else Differs
  {
    LatestIs(t, SecretaryText, text);
    LatestIs(t, SecretaryJson, json);
  }

  /** The check waits exactly while a role is unheard. */
  lemma SecretaryWaitsExactly(rs: seq<SecretaryResponse>)
    ensures ReadSecretaries(rs).Waiting? <==> Silent(rs, SecretaryText) || Silent(rs, SecretaryJson)
  {
    SilentIsNone(rs, SecretaryText);
    SilentIsNone(rs, SecretaryJson);
  }

  // ---------- what the validators' responses say ----------

  /** The validators heard. */
  function Heard(rs: seq<ValidatorResponse>): set<string> {
    set r | r in rs :: r.validatorId
  }

  function Voters(rs: seq<ValidatorResponse>): seq<string> {
    seq(|rs|, i requires 0 <= i < |rs| => rs[i].validatorId)
  }

  lemma OneLatestEach(rs: seq<ValidatorResponse>)
    ensures |LatestByValidator(rs)| == |Heard(rs)|
  {
    var latest := LatestByValidator(rs);
    var voters := Voters(latest);
    LatestByValidatorExact(rs);
    DistinctCount(voters);
    forall id ensures id in voters <==> id in Heard(rs) {
      if id in voters {
        var i :| 0 <= i < |voters| && voters[i] == id;
        assert latest[i] in latest && latest[i] in rs;
      }
      if id in Heard(rs) {
        var r :| r in rs && r.validatorId == id;
        var i :| 0 <= i < |rs| && rs[i] == r;
        var j := Find(latest, id);
        assert voters[j] == id;
      }
    }
    assert (set id | id in voters) == Heard(rs);
  }

  /** All validators' latest responses carry the choice. */
  ghost predicate AllChose(rs: seq<ValidatorResponse>, choice: string) {
    forall r :: LatestOfValidator(rs, r) ==> r.choice == choice
  }

  /** The least confidence among the latest responses. */
  ghost predicate Least(rs: seq<ValidatorResponse>, confidence: real) {
    && (forall r :: LatestOfValidator(rs, r) ==> confidence <= r.confidence)
    && (exists r :: LatestOfValidator(rs, r) && r.confidence == confidence)
  }

  ghost predicate SomeDiffer(rs: seq<ValidatorResponse>) {
    exists a, b :: LatestOfValidator(rs, a) && LatestOfValidator(rs, b) && a.choice != b.choice
  }

  lemma ViewMembers(t: Table<ValidatorResponse>)
    requires StoredValidators(t)
    ensures forall r :: r in LatestByValidator(t.order) <==> LatestOfValidator(t.order, r)
  {
    forall r ensures r in LatestByValidator(t.order) <==> LatestOfValidator(t.order, r) {
      ValidatorViewExact(t, t.order, r);
    }
  }

  lemma ReadsUnanimity(t: Table<ValidatorResponse>, required: nat, choice: string, confidence: real)
    requires StoredValidators(t) && 0 < required <= |Heard(t.order)|
    requires AllChose(t.order, choice) && Least(t.order, confidence)
    ensures ReadValidators(t.order, required) == Agreed(choice, confidence)
  {
    OneLatestEach(t.order);
    ViewMembers(t);
    ViewAgrees(t.order, LatestByValidator(t.order), choice, confidence);
  }

  lemma ReadsDissent(t: Table<ValidatorResponse>, required: nat)
    requires StoredValidators(t) && 0 < required <= |Heard(t.order)| && SomeDiffer(t.order)
    ensures ReadValidators(t.order, required) == Differs
  {
    OneLatestEach(t.order);
    ViewMembers(t);
    UnanimousByMembership(LatestByValidator(t.order));
  }

  /** The legacy check waits exactly while fewer validators were heard than required; then it
      finds agreement exactly when all latest responses carry one choice. */
  lemma ValidatorReadingExactly(t: Table<ValidatorResponse>, required: nat)
    requires StoredValidators(t) && required > 0
    ensures ReadValidators(t.order, required).Waiting? <==> |Heard(t.order)| < required
    ensures |Heard(t.order)| >= required && SomeDiffer(t.order) ==> ReadValidators(t.order, required) == Differs
    ensures forall choice, confidence ::
              |Heard(t.order)| >= required && AllChose(t.order, choice) && Least(t.order, confidence) ==>
                ReadValidators(t.order, required) == Agreed(choice, confidence)
  {
    OneLatestEach(t.order);
    if |Heard(t.order)| >= required {
      if SomeDiffer(t.order) {
        ReadsDissent(t, required);
      }
      forall choice, confidence | AllChose(t.order, choice) && Least(t.order, confidence)
        ensures ReadValidators(t.order, required) == Agreed(choice, confidence)
      {
        ReadsUnanimity(t, required, choice, confidence);
      }
    }
  }

  lemma ViewAgrees(rs: seq<ValidatorResponse>, latest: seq<ValidatorResponse>, choice: string, confidence: real)
    requires latest != [] && forall r :: r in latest <==> LatestOfValidator(rs, r)
    requires AllChose(rs, choice) && Least(rs, confidence)
    ensures Unanimous(latest) && latest[0].choice == choice && LeastConfidence(latest) == confidence
  {
    assert latest[0] in latest;
    UnanimousByMembership(latest);
    LeastConfidenceExact(latest);
  }

  // ---------- delivering one more message ----------

  /** A session filter is set, and the header names another session or none. */
  predicate Foreign(cfg: Config, header: Option<string>) {
    cfg.session.Some? && cfg.session.value != "" && header != cfg.session
  }

  /** A message about the vote `v` has the given effect. */
  ghost predicate LeadsTo(s: State, s': State, v: Vote, e: Effect) {
    && s'.ids == (if v.voteId in s.votes then s.ids else s.ids + [v.voteId])
    && s'.votes == s.votes[v.voteId := e.vote] && s'.outbox == s.outbox + e.out
    && s'.metrics == s.metrics + multiset{MessagesConsumed} + e.delta
  }

  /** The vote a message is about in the state reached, tracked or to be created by it. */
  ghost predicate Meets(cfg: Config, oracle: Oracle, log: seq<Message>, m: Message, v: Vote) {
    && !Foreign(cfg, m.header) && !m.body.Undecodable?
    && Addressed(Lookup(Run(cfg, oracle, EMPTY, log), m.body.voteId), m.body) == Some(v)
  }

  function Asked(cfg: Config, oracle: Oracle, log: seq<Message>, v: Vote): bool {
    Answer(oracle, Run(cfg, oracle, EMPTY, log), v)
  }

  /** The message has the given effect on the vote. */
  ghost predicate Reacts(lim: Limits, ok: bool, v: Vote, b: Body, e: Effect) {
    React(lim, ok, v, b) == e
  }

  /** The vote met is one of a sound state, under its own id. */
  lemma MetVote(cfg: Config, oracle: Oracle, log: seq<Message>, m: Message, v: Vote)
    requires Meets(cfg, oracle, log, m, v)
    ensures StoredKeys(v) && v.voteId == m.body.voteId
  {
    RunKeyed(cfg, oracle, EMPTY, log);
    ReachableSound(cfg, oracle, log, m.body.voteId);
  }

  lemma StepLeads(cfg: Config, oracle: Oracle, s: State, m: Message, v: Vote, e: Effect)
    requires cfg.Accepts(m.header) && !m.body.Undecodable? && v.voteId == m.body.voteId
    requires Addressed(Lookup(s, m.body.voteId), m.body) == Some(v)
    requires Reacts(cfg.limits, Answer(oracle, s, v), v, m.body, e)
    ensures LeadsTo(s, Step(cfg, oracle, s, m), v, e)
  {
    StepEffect(cfg, oracle, s, m, v);
  }

  /** The effect on the vote is the effect on the run. */
  lemma OneMoreMessage(cfg: Config, oracle: Oracle, log: seq<Message>, m: Message, v: Vote, e: Effect)
    requires Meets(cfg, oracle, log, m, v) && Reacts(cfg.limits, Asked(cfg, oracle, log, v), v, m.body, e)
    ensures LeadsTo(Run(cfg, oracle, EMPTY, log), Run(cfg, oracle, EMPTY, log + [m]), v, e)
  {
    var s := Run(cfg, oracle, EMPTY, log);
    MetVote(cfg, oracle, log, m, v);
    StepLeads(cfg, oracle, s, m, v, e);
    RunConcat(cfg, oracle, EMPTY, log, [m]);
    OneMore(cfg, oracle, s, m);
  }

  // ---------- secretary results ----------

  /** No secretary of the role has answered this attempt before, and the vote is open. */
  ghost predicate NewResponse(v: Vote, r: SecretaryResponse) {
    && v.status != Validated && v.status != DeadLetter
    && forall i :: 0 <= i < |v.secretaryResponses.order| ==>
         v.secretaryResponses.order[i].role != r.role || v.secretaryResponses.order[i].attempt != r.attempt
  }

  function WithResponse(v: Vote, r: SecretaryResponse): Vote {
    v.(secretaryResponses := v.secretaryResponses.Add(SecretaryKey(r), r))
  }

  lemma NewIsStored(v: Vote, r: SecretaryResponse)
    requires StoredKeys(v)
    ensures NewResponse(v, r) <==> !Terminal(v) && SecretaryKey(r) !in v.secretaryResponses.vals
    ensures NewResponse(v, r) ==> StoredSecretaries(WithResponse(v, r).secretaryResponses)
  {
    DuplicateSecretaryExactly(v.secretaryResponses, r);
    if NewResponse(v, r) {
      AddStoresSecretary(v.secretaryResponses, r);
    }
  }

  /** The two latest responses once the result has been stored. */
  ghost predicate LatestPair(v: Vote, r: SecretaryResponse, text: SecretaryResponse, json: SecretaryResponse) {
    var rs := v.secretaryResponses.order + [r];
    LatestOf(rs, SecretaryText, None, text) && LatestOf(rs, SecretaryJson, None, json)
  }

  /** The secretaries agree: the choice is taken at the lower confidence, and the witness is
      asked; the vote awaits it once the request is confirmed. */
  function AfterAgreement(ok: bool, v: Vote, text: SecretaryResponse, json: SecretaryResponse): Effect {
    Effect(v.(consensusChoice := Some(text.choice),
              consensusConfidence := Some(Lower(text.confidence, json.confidence)),
              attempts := v.attempts + 1,
              status := if ok then WitnessPending else Consensus),
           if ok then [WitnessRequest(v.voteId, v.sessionId, v.archonId, v.rawResponse, v.motionText,
                                      text.choice, json.choice, text.choice)] else [],
           multiset{SecretaryResponses, MessagesProcessed} + multiset{ConsensusReached}
           + if ok then multiset{PublishAttempts} + multiset{WitnessRequests} else multiset{PublishAttempts})
  }

  /** A disagreement is retried while retries are left and dead-lettered otherwise; the vote
      rests in DISAGREEMENT if the dead letter cannot be published. */
  function AfterDifference(lim: Limits, ok: bool, v: Vote, received: Metrics, reason: string): Effect {
    if v.retryCount < lim.maxRetries then
      Effect(v.(disagreements := v.disagreements + 1, retryCount := v.retryCount + 1, status := RetryPending), [],
             received + (multiset{Disagreements} + multiset{RetriesScheduled}))
    else if ok then
      Effect(v.(disagreements := v.disagreements + 1, attempts := v.attempts + 1, status := DeadLetter),
             [DeadLetterVote(v.voteId, v.sessionId, reason, Lines(LatestByValidator(v.responses.order)), v.retryCount)],
             received + (multiset{Disagreements} + (multiset{PublishAttempts} + multiset{DeadLetterRoutes})))
    else
      Effect(v.(disagreements := v.disagreements + 1, attempts := v.attempts + 1, status := Disagreement), [],
             received + (multiset{Disagreements} + multiset{PublishAttempts}))
  }

  lemma AgreementConcludes(lim: Limits, ok: bool, v: Vote, text: SecretaryResponse, json: SecretaryResponse)
    requires LatestSecretary(v.secretaryResponses.order, SecretaryText) == Some(text)
    requires LatestSecretary(v.secretaryResponses.order, SecretaryJson) == Some(json)
    ensures ConcludeSecretary(lim, ok, v, Agreed(text.choice, Lower(text.confidence, json.confidence)))
         == AfterAgreement(ok, v, text, json)
  {
  }

  lemma DifferenceConcludes(lim: Limits, ok: bool, v: Vote)
    ensures ConcludeSecretary(lim, ok, v, Differs)
         == AfterDifference(lim, ok, v, multiset{SecretaryResponses, MessagesProcessed}, "secretary_disagreement_max_retries")
  {
  }

  lemma DissentConcludes(lim: Limits, ok: bool, v: Vote)
    ensures ConcludeLegacy(lim, ok, v, Differs)
         == AfterDifference(lim, ok, v, multiset{MessagesProcessed}, "max_retries_exhausted_disagreement")
  {
  }

  /** The secretary result is accepted, and the given reading follows. */
  ghost predicate Settles(v: Vote, r: SecretaryResponse, reading: Reading) {
    && !Terminal(v) && SecretaryKey(r) !in v.secretaryResponses.vals
    && ReadSecretaries(WithResponse(v, r).secretaryResponses.order) == reading
  }

  lemma SettlesPair(v: Vote, r: SecretaryResponse, text: SecretaryResponse, json: SecretaryResponse)
    requires StoredKeys(v) && NewResponse(v, r) && LatestPair(v, r, text, json)
    ensures Settles(v, r, if text.choice == json.choice
                          then Agreed(text.choice, Lower(text.confidence, json.confidence)) else Differs)
    ensures LatestSecretary(WithResponse(v, r).secretaryResponses.order, SecretaryText) == Some(text)
    ensures LatestSecretary(WithResponse(v, r).secretaryResponses.order, SecretaryJson) == Some(json)
  {
    var t := WithResponse(v, r).secretaryResponses;
    NewIsStored(v, r);
    SecretaryReadingExactly(t, text, json);
    LatestIs(t, SecretaryText, text);
    LatestIs(t, SecretaryJson, json);
  }

  lemma SettlesWaiting(v: Vote, r: SecretaryResponse)
    requires StoredKeys(v) && NewResponse(v, r)
    requires var rs := v.secretaryResponses.order + [r]; Silent(rs, SecretaryText) || Silent(rs, SecretaryJson)
    ensures Settles(v, r, Waiting)
  {
    NewIsStored(v, r);
    SecretaryWaitsExactly(WithResponse(v, r).secretaryResponses.order);
  }

  lemma AgreementEffect(lim: Limits, ok: bool, v: Vote, b: Body, text: SecretaryResponse, json: SecretaryResponse)
    requires b.SecretaryResult? && Settles(v, b.response, Agreed(text.choice, Lower(text.confidence, json.confidence)))
    requires LatestSecretary(WithResponse(v, b.response).secretaryResponses.order, SecretaryText) == Some(text)
    requires LatestSecretary(WithResponse(v, b.response).secretaryResponses.order, SecretaryJson) == Some(json)
    requires text.choice == json.choice
    ensures Reacts(lim, ok, v, b, AfterAgreement(ok, WithResponse(v, b.response), text, json))
  {
    AgreementConcludes(lim, ok, WithResponse(v, b.response), text, json);
  }

  lemma DifferenceEffect(lim: Limits, ok: bool, v: Vote, b: Body)
    requires b.SecretaryResult? && Settles(v, b.response, Differs)
    ensures Reacts(lim, ok, v, b, AfterDifference(lim, ok, WithResponse(v, b.response),
                                                  multiset{SecretaryResponses, MessagesProcessed}, SECRETARY_REASON))
  {
    DifferenceConcludes(lim, ok, WithResponse(v, b.response));
  }

  lemma WaitingEffect(lim: Limits, ok: bool, v: Vote, b: Body)
    requires b.SecretaryResult? && Settles(v, b.response, Waiting) && v.status != Disagreement
    ensures Reacts(lim, ok, v, b,
                   Effect(WithResponse(v, b.response), [], multiset{SecretaryResponses, MessagesProcessed}))
  {
  }

  /** In any run, a new secretary result after which both latest responses carry one choice,
      from whatever attempts, requests the witness with that choice. */
  lemma AgreementRequestsWitness(cfg: Config, oracle: Oracle, log: seq<Message>, m: Message, v: Vote,
                                 text: SecretaryResponse, json: SecretaryResponse)
    requires Meets(cfg, oracle, log, m, v) && m.body.SecretaryResult? && NewResponse(v, m.body.response)
    requires LatestPair(v, m.body.response, text, json) && text.choice == json.choice
    ensures LeadsTo(Run(cfg, oracle, EMPTY, log), Run(cfg, oracle, EMPTY, log + [m]), v,
                    AfterAgreement(Asked(cfg, oracle, log, v), WithResponse(v, m.body.response), text, json))
  {
    var ok := Asked(cfg, oracle, log, v);
    MetVote(cfg, oracle, log, m, v);
    SettlesPair(v, m.body.response, text, json);
    AgreementEffect(cfg.limits, ok, v, m.body, text, json);
    OneMoreMessage(cfg, oracle, log, m, v, AfterAgreement(ok, WithResponse(v, m.body.response), text, json));
  }

  /** With reliable publishing, agreement of the latest responses, at once or after any number
      of retries, leaves the vote awaiting its witness with the agreed choice. */
  lemma ReliableAgreement(cfg: Config, oracle: Oracle, log: seq<Message>, m: Message, v: Vote,
                          text: SecretaryResponse, json: SecretaryResponse)
    requires Reliable(oracle)
    requires Meets(cfg, oracle, log, m, v) && m.body.SecretaryResult? && NewResponse(v, m.body.response)
    requires LatestPair(v, m.body.response, text, json) && text.choice == json.choice
    ensures var s := Run(cfg, oracle, EMPTY, log + [m]);
            && v.voteId in s.votes && s.votes[v.voteId].status == WitnessPending
            && s.votes[v.voteId].consensusChoice == Some(text.choice)
  {
    AgreementRequestsWitness(cfg, oracle, log, m, v, text, json);
  }

  /** In any run, a new secretary result after which the latest responses differ is retried
      while retries are left and dead-lettered afterwards. */
  lemma DifferenceRetriesOrDeadLetters(cfg: Config, oracle: Oracle, log: seq<Message>, m: Message, v: Vote,
                                       text: SecretaryResponse, json: SecretaryResponse)
    requires Meets(cfg, oracle, log, m, v) && m.body.SecretaryResult? && NewResponse(v, m.body.response)
    requires LatestPair(v, m.body.response, text, json) && text.choice != json.choice
    ensures LeadsTo(Run(cfg, oracle, EMPTY, log), Run(cfg, oracle, EMPTY, log + [m]), v,
                    AfterDifference(cfg.limits, Asked(cfg, oracle, log, v), WithResponse(v, m.body.response),
                                    multiset{SecretaryResponses, MessagesProcessed}, "secretary_disagreement_max_retries"))
  {
    var ok := Asked(cfg, oracle, log, v);
    MetVote(cfg, oracle, log, m, v);
    SettlesPair(v, m.body.response, text, json);
    DifferenceEffect(cfg.limits, ok, v, m.body);
    OneMoreMessage(cfg, oracle, log, m, v,
                   AfterDifference(cfg.limits, ok, WithResponse(v, m.body.response),
                                   multiset{SecretaryResponses, MessagesProcessed}, SECRETARY_REASON));
  }

  /** In any run, a new secretary result while the other secretary is unheard is only stored,
      unless the vote rests in DISAGREEMENT. */
  lemma LoneSecretaryWaits(cfg: Config, oracle: Oracle, log: seq<Message>, m: Message, v: Vote)
    requires Meets(cfg, oracle, log, m, v) && m.body.SecretaryResult? && NewResponse(v, m.body.response)
    requires v.status != Disagreement
    requires var rs := v.secretaryResponses.order + [m.body.response];
             Silent(rs, SecretaryText) || Silent(rs, SecretaryJson)
    ensures LeadsTo(Run(cfg, oracle, EMPTY, log), Run(cfg, oracle, EMPTY, log + [m]), v,
                    Effect(WithResponse(v, m.body.response), [], multiset{SecretaryResponses, MessagesProcessed}))
  {
    MetVote(cfg, oracle, log, m, v);
    SettlesWaiting(v, m.body.response);
    WaitingEffect(cfg.limits, Asked(cfg, oracle, log, v), v, m.body);
    OneMoreMessage(cfg, oracle, log, m, v,
                   Effect(WithResponse(v, m.body.response), [], multiset{SecretaryResponses, MessagesProcessed}));
  }

  // ---------- legacy results ----------

  ghost predicate NewLegacy(v: Vote, r: ValidatorResponse) {
    && v.status != Validated && v.status != DeadLetter
    && forall i :: 0 <= i < |v.responses.order| ==>
         v.responses.order[i].validatorId != r.validatorId || v.responses.order[i].attempt != r.attempt
  }

  function WithLegacy(v: Vote, r: ValidatorResponse): Vote {
    v.(responses := v.responses.Add(ValidatorKey(r), r))
  }

  lemma NewLegacyIsStored(v: Vote, r: ValidatorResponse)
    requires StoredKeys(v)
    ensures NewLegacy(v, r) <==> !Terminal(v) && ValidatorKey(r) !in v.responses.vals
    ensures NewLegacy(v, r) ==> StoredValidators(WithLegacy(v, r).responses)
  {
    DuplicateExactly(v.responses, r);
    if NewLegacy(v, r) {
      AddStoresValidator(v.responses, r);
    }
  }

  /** As many validators as are configured, or two, have been heard. */
  ghost predicate Enough(lim: Limits, rs: seq<ValidatorResponse>) {
    |Heard(rs)| >= if lim.validatorCount == 0 then 2 else lim.validatorCount
  }

  /** The validators agree: the vote is validated with their choice once that is confirmed. */
  function AfterUnanimity(ok: bool, v: Vote, choice: string, confidence: real): Effect {
    Effect(v.(consensusChoice := Some(choice), consensusConfidence := Some(confidence),
              attempts := v.attempts + 1, status := if ok then Validated else Consensus),
           if ok then [LegacyVote(v.voteId, v.sessionId, v.optimisticChoice, Some(choice), choice != v.optimisticChoice,
                                  confidence, Lines(LatestByValidator(v.responses.order)))] else [],
           multiset{MessagesProcessed} + multiset{ConsensusReached}
           + if ok then multiset{PublishAttempts} + multiset{ValidatedPublished} else multiset{PublishAttempts})
  }

  lemma UnanimityConcludes(lim: Limits, ok: bool, v: Vote, choice: string, confidence: real)
    ensures ConcludeLegacy(lim, ok, v, Agreed(choice, confidence)) == AfterUnanimity(ok, v, choice, confidence)
  {
  }

  /** The legacy result is accepted, and the given reading follows. */
  ghost predicate SettlesLegacy(lim: Limits, v: Vote, r: ValidatorResponse, reading: Reading) {
    && !Terminal(v) && ValidatorKey(r) !in v.responses.vals
    && ReadValidators(WithLegacy(v, r).responses.order, lim.Required()) == reading
  }

  lemma SettlesUnanimous(lim: Limits, v: Vote, r: ValidatorResponse, choice: string, confidence: real)
    requires StoredKeys(v) && NewLegacy(v, r)
    requires var rs := v.responses.order + [r]; Enough(lim, rs) && AllChose(rs, choice) && Least(rs, confidence)
    ensures SettlesLegacy(lim, v, r, Agreed(choice, confidence))
  {
    NewLegacyIsStored(v, r);
    ReadsUnanimity(WithLegacy(v, r).responses, lim.Required(), choice, confidence);
  }

  lemma SettlesDissent(lim: Limits, v: Vote, r: ValidatorResponse)
    requires StoredKeys(v) && NewLegacy(v, r)
    requires var rs := v.responses.order + [r]; Enough(lim, rs) && SomeDiffer(rs)
    ensures SettlesLegacy(lim, v, r, Differs)
  {
    NewLegacyIsStored(v, r);
    ReadsDissent(WithLegacy(v, r).responses, lim.Required());
  }

  lemma SettlesTooFew(lim: Limits, v: Vote, r: ValidatorResponse)
    requires StoredKeys(v) && NewLegacy(v, r) && !Enough(lim, v.responses.order + [r])
    ensures SettlesLegacy(lim, v, r, Waiting)
  {
    NewLegacyIsStored(v, r);
    OneLatestEach(WithLegacy(v, r).responses.order);
  }

  lemma UnanimityEffect(lim: Limits, ok: bool, v: Vote, b: Body, choice: string, confidence: real)
    requires b.LegacyResult? && SettlesLegacy(lim, v, b.legacy, Agreed(choice, confidence))
    ensures Reacts(lim, ok, v, b, AfterUnanimity(ok, WithLegacy(v, b.legacy), choice, confidence))
  {
    UnanimityConcludes(lim, ok, WithLegacy(v, b.legacy), choice, confidence);
  }

  lemma DissentEffect(lim: Limits, ok: bool, v: Vote, b: Body)
    requires b.LegacyResult? && SettlesLegacy(lim, v, b.legacy, Differs)
    ensures Reacts(lim, ok, v, b, AfterDifference(lim, ok, WithLegacy(v, b.legacy), multiset{MessagesProcessed}, LEGACY_REASON))
  {
    DissentConcludes(lim, ok, WithLegacy(v, b.legacy));
  }

  lemma TooFewEffect(lim: Limits, ok: bool, v: Vote, b: Body)
    requires b.LegacyResult? && SettlesLegacy(lim, v, b.legacy, Waiting) && v.status != Disagreement
    ensures Reacts(lim, ok, v, b, Effect(WithLegacy(v, b.legacy), [], multiset{MessagesProcessed}))
  {
  }

  /** In any run, a new legacy result after which enough validators were heard and all their
      latest responses carry one choice validates the vote with that choice. */
  lemma UnanimityValidates(cfg: Config, oracle: Oracle, log: seq<Message>, m: Message, v: Vote, choice: string, confidence: real)
    requires Meets(cfg, oracle, log, m, v) && m.body.LegacyResult? && NewLegacy(v, m.body.legacy)
    requires var rs := v.responses.order + [m.body.legacy];
             Enough(cfg.limits, rs) && AllChose(rs, choice) && Least(rs, confidence)
    ensures LeadsTo(Run(cfg, oracle, EMPTY, log), Run(cfg, oracle, EMPTY, log + [m]), v,
                    AfterUnanimity(Asked(cfg, oracle, log, v), WithLegacy(v, m.body.legacy), choice, confidence))
  {
    var ok := Asked(cfg, oracle, log, v);
    MetVote(cfg, oracle, log, m, v);
    SettlesUnanimous(cfg.limits, v, m.body.legacy, choice, confidence);
    UnanimityEffect(cfg.limits, ok, v, m.body, choice, confidence);
    OneMoreMessage(cfg, oracle, log, m, v, AfterUnanimity(ok, WithLegacy(v, m.body.legacy), choice, confidence));
  }

  /** In any run, a new legacy result after which enough validators were heard and two latest
      responses differ is retried while retries are left and dead-lettered afterwards. */
  lemma DissentRetriesOrDeadLetters(cfg: Config, oracle: Oracle, log: seq<Message>, m: Message, v: Vote)
    requires Meets(cfg, oracle, log, m, v) && m.body.LegacyResult? && NewLegacy(v, m.body.legacy)
    requires var rs := v.responses.order + [m.body.legacy]; Enough(cfg.limits, rs) && SomeDiffer(rs)
    ensures LeadsTo(Run(cfg, oracle, EMPTY, log), Run(cfg, oracle, EMPTY, log + [m]), v,
                    AfterDifference(cfg.limits, Asked(cfg, oracle, log, v), WithLegacy(v, m.body.legacy),
                                    multiset{MessagesProcessed}, "max_retries_exhausted_disagreement"))
  {
    var ok := Asked(cfg, oracle, log, v);
    MetVote(cfg, oracle, log, m, v);
    SettlesDissent(cfg.limits, v, m.body.legacy);
    DissentEffect(cfg.limits, ok, v, m.body);
    OneMoreMessage(cfg, oracle, log, m, v,
                   AfterDifference(cfg.limits, ok, WithLegacy(v, m.body.legacy), multiset{MessagesProcessed}, LEGACY_REASON));
  }

  /** In any run, a new legacy result while too few validators were heard is only stored, unless
      the vote rests in DISAGREEMENT. */
  lemma TooFewWait(cfg: Config, oracle: Oracle, log: seq<Message>, m: Message, v: Vote)
    requires Meets(cfg, oracle, log, m, v) && m.body.LegacyResult? && NewLegacy(v, m.body.legacy)
    requires v.status != Disagreement && !Enough(cfg.limits, v.responses.order + [m.body.legacy])
    ensures LeadsTo(Run(cfg, oracle, EMPTY, log), Run(cfg, oracle, EMPTY, log + [m]), v,
                    Effect(WithLegacy(v, m.body.legacy), [], multiset{MessagesProcessed}))
  {
    MetVote(cfg, oracle, log, m, v);
    SettlesTooFew(cfg.limits, v, m.body.legacy);
    TooFewEffect(cfg.limits, Asked(cfg, oracle, log, v), v, m.body);
    OneMoreMessage(cfg, oracle, log, m, v, Effect(WithLegacy(v, m.body.legacy), [], multiset{MessagesProcessed}));
  }

  // ---------- what is skipped ----------

  /** In any run, a result that is not new leaves the vote as it is and is counted as a
      duplicate exactly when the vote is still open. */
  lemma SkippedExactly(cfg: Config, oracle: Oracle, log: seq<Message>, m: Message, v: Vote)
    requires Meets(cfg, oracle, log, m, v)
    requires m.body.SecretaryResult? || m.body.LegacyResult?
    requires if m.body.SecretaryResult? then !NewResponse(v, m.body.response) else !NewLegacy(v, m.body.legacy)
    ensures LeadsTo(Run(cfg, oracle, EMPTY, log), Run(cfg, oracle, EMPTY, log + [m]), v,
                    Effect(v, [], if v.status == Validated || v.status == DeadLetter then multiset{}
                                  else multiset{DuplicatesSkipped}))
  {
    MetVote(cfg, oracle, log, m, v);
    if m.body.SecretaryResult? {
      NewIsStored(v, m.body.response);
    } else {
      NewLegacyIsStored(v, m.body.legacy);
    }
    SkippedEffect(cfg.limits, Asked(cfg, oracle, log, v), v, m.body);
    OneMoreMessage(cfg, oracle, log, m, v,
                   Effect(v, [], if v.status == Validated || v.status == DeadLetter then multiset{}
                                 else multiset{DuplicatesSkipped}));
  }

  lemma SkippedEffect(lim: Limits, ok: bool, v: Vote, b: Body)
    requires b.SecretaryResult? || b.LegacyResult?
    requires !Stored(v, b)
    ensures Reacts(lim, ok, v, b, Effect(v, [], if v.status == Validated || v.status == DeadLetter then multiset{}
                                                else multiset{DuplicatesSkipped}))
  {
  }

  // ---------- witness verdicts ----------

  /** The verdict is stored and counted; once confirmed, the validated record carries the agreed
      choice at the lower confidence, both secretaries' responses and the verdict. */
  function AfterVerdict(ok: bool, v: Vote, o: WitnessObservation, text: SecretaryResponse, json: SecretaryResponse): Effect {
    Effect(v.(observation := Some(o), attempts := v.attempts + 1, status := if ok then Validated else WitnessPending),
           if ok then [WitnessedVote(
                         v.voteId, v.sessionId, v.archonId, Some(text.choice), Lower(text.confidence, json.confidence),
                         Some(Determination(text.secretaryId, text.choice, text.confidence, text.reasoning)),
                         Some(Determination(json.secretaryId, json.choice, json.confidence, json.reasoning)),
                         Some(o))] else [],
           multiset{WitnessVerdicts, MessagesProcessed}
           + if !ok then multiset{PublishAttempts}
             else multiset{PublishAttempts}
                  + (multiset{ValidatedPublished} + multiset{if o.verdict == Agrees then WitnessAgrees else WitnessDissents}))
  }

  lemma VerdictEffect(lim: Limits, ok: bool, v: Vote, o: WitnessObservation, text: SecretaryResponse, json: SecretaryResponse)
    requires v.status == WitnessPending && Confirmed(v)
    requires LatestSecretary(v.secretaryResponses.order, SecretaryText) == Some(text)
    requires LatestSecretary(v.secretaryResponses.order, SecretaryJson) == Some(json)
    ensures Reacts(lim, ok, v, WitnessResult(v.voteId, o), AfterVerdict(ok, v, o, text, json))
  {
  }

  /** In any run, the verdict of a vote awaiting it validates the vote. */
  lemma VerdictValidates(cfg: Config, oracle: Oracle, log: seq<Message>, m: Message, v: Vote,
                         text: SecretaryResponse, json: SecretaryResponse)
    requires Meets(cfg, oracle, log, m, v) && m.body.WitnessResult? && v.status == WitnessPending
    requires LatestOf(v.secretaryResponses.order, SecretaryText, None, text)
    requires LatestOf(v.secretaryResponses.order, SecretaryJson, None, json)
    ensures LeadsTo(Run(cfg, oracle, EMPTY, log), Run(cfg, oracle, EMPTY, log + [m]), v,
                    AfterVerdict(Asked(cfg, oracle, log, v), v, m.body.observation, text, json))
  {
    var ok := Asked(cfg, oracle, log, v);
    MetVote(cfg, oracle, log, m, v);
    AwaitingConfirmed(cfg, oracle, log, v);
    LatestIs(v.secretaryResponses, SecretaryText, text);
    LatestIs(v.secretaryResponses, SecretaryJson, json);
    VerdictEffect(cfg.limits, ok, v, m.body.observation, text, json);
    OneMoreMessage(cfg, oracle, log, m, v, AfterVerdict(ok, v, m.body.observation, text, json));
  }

  lemma AwaitingConfirmed(cfg: Config, oracle: Oracle, log: seq<Message>, v: Vote)
    requires Lookup(Run(cfg, oracle, EMPTY, log), v.voteId) == Some(v) && v.status == WitnessPending
    ensures Confirmed(v)
  {
    ReachableSound(cfg, oracle, log, v.voteId);
  }

  // ---------- routing ----------

  /** Every message is consumed; one of a foreign session is counted as filtered and changes
      nothing else, one of an own session is delivered. */
  lemma RoutedExactly(cfg: Config, oracle: Oracle, s: State, m: Message)
    ensures var counted := s.(metrics := s.metrics + multiset{MessagesConsumed});
            Step(cfg, oracle, s, m) ==
              if Foreign(cfg, m.header) then counted.(metrics := counted.metrics + multiset{SessionFiltered})
              else Deliver(cfg, oracle, counted, m.body)
  {
  }

  function ForeignCount(cfg: Config, log: seq<Message>): nat {
    if log == [] then 0 else ForeignCount(cfg, log[1..]) + if Foreign(cfg, log[0].header) then 1 else 0
  }

  ghost predicate CountsNeither(e: Effect) {
    e.delta[MessagesConsumed] == 0 && e.delta[SessionFiltered] == 0
  }

  lemma DisagreementCountsNeither(lim: Limits, ok: bool, v: Vote, reason: string)
    ensures CountsNeither(OnDisagreement(lim, ok, v, reason))
  {
  }

  lemma AddedCountsNeither(counters: Metrics, e: Effect)
    requires CountsNeither(e) && counters[MessagesConsumed] == 0 && counters[SessionFiltered] == 0
    ensures CountsNeither(Counting(counters, e))
  {
  }

  lemma ConcludeCountsNeither(lim: Limits, ok: bool, v: Vote, reading: Reading)
    ensures CountsNeither(ConcludeSecretary(lim, ok, v, reading)) && CountsNeither(ConcludeLegacy(lim, ok, v, reading))
  {
    var checked := Checked(v, reading);
    var received := multiset{SecretaryResponses, MessagesProcessed};
    if reading.Agreed? {
      AddedCountsNeither(received + multiset{ConsensusReached}, PublishWitnessRequest(ok, checked));
      AddedCountsNeither(multiset{MessagesProcessed} + multiset{ConsensusReached}, PublishLegacy(ok, checked));
    } else {
      DisagreementCountsNeither(lim, ok, checked, SECRETARY_REASON);
      DisagreementCountsNeither(lim, ok, checked, LEGACY_REASON);
      AddedCountsNeither(received, OnDisagreement(lim, ok, checked, SECRETARY_REASON));
      AddedCountsNeither(multiset{MessagesProcessed}, OnDisagreement(lim, ok, checked, LEGACY_REASON));
    }
  }

  lemma OnSecretaryCountsNeither(lim: Limits, ok: bool, v: Vote, r: SecretaryResponse)
    ensures CountsNeither(OnSecretary(lim, ok, v, r))
  {
    var added := v.(secretaryResponses := v.secretaryResponses.Add(SecretaryKey(r), r));
    ConcludeCountsNeither(lim, ok, added, ReadSecretaries(added.secretaryResponses.order));
  }

  lemma OnLegacyCountsNeither(lim: Limits, ok: bool, v: Vote, r: ValidatorResponse)
    ensures CountsNeither(OnLegacy(lim, ok, v, r))
  {
    var added := v.(responses := v.responses.Add(ValidatorKey(r), r));
    ConcludeCountsNeither(lim, ok, added, ReadValidators(added.responses.order, lim.Required()));
  }

  lemma ReactCountsNeither(lim: Limits, ok: bool, v: Vote, b: Body)
    ensures CountsNeither(React(lim, ok, v, b))
  {
    match b
    case SecretaryResult(_, _, _, _, _, r) => OnSecretaryCountsNeither(lim, ok, v, r);
    case LegacyResult(_, _, r) => OnLegacyCountsNeither(lim, ok, v, r);
    case _ =>
  }

  lemma StepConsumes(cfg: Config, oracle: Oracle, s: State, m: Message)
    ensures var s' := Step(cfg, oracle, s, m);
            && s'.metrics[MessagesConsumed] == s.metrics[MessagesConsumed] + 1
            && s'.metrics[SessionFiltered] == s.metrics[SessionFiltered] + if Foreign(cfg, m.header) then 1 else 0
  {
    if !Foreign(cfg, m.header) && !m.body.Undecodable? {
      var v := Addressed(Lookup(s, m.body.voteId), m.body);
      if v.Some? {
        StepEffect(cfg, oracle, s, m, v.value);
        ReactCountsNeither(cfg.limits, Answer(oracle, s, v.value), v.value, m.body);
      }
    }
  }

  lemma {:induction false} RunConsumes(cfg: Config, oracle: Oracle, s: State, log: seq<Message>)
    ensures var s' := Run(cfg, oracle, s, log);
            && s'.metrics[MessagesConsumed] == s.metrics[MessagesConsumed] + |log|
            && s'.metrics[SessionFiltered] == s.metrics[SessionFiltered] + ForeignCount(cfg, log)
    decreases |log|
  {
    if log != [] {
      StepConsumes(cfg, oracle, s, log[0]);
      RunConsumes(cfg, oracle, Step(cfg, oracle, s, log[0]), log[1..]);
    }
  }

  /** The consumed counter is the length of the log, the filtered one the number of messages of
      foreign sessions in it. */
  lemma ConsumedAndFiltered(cfg: Config, oracle: Oracle, log: seq<Message>)
    ensures Run(cfg, oracle, EMPTY, log).metrics[MessagesConsumed] == |log|
    ensures Run(cfg, oracle, EMPTY, log).metrics[SessionFiltered] == ForeignCount(cfg, log)
  {
    RunConsumes(cfg, oracle, EMPTY, log);
  }

  // ---------- who is tracked, and as what ----------

  /** The first result about the vote that is not filtered. */
  function FirstResult(cfg: Config, log: seq<Message>, id: string): Option<Body> {
    if log == [] then None
    else if !Foreign(cfg, log[0].header) && (log[0].body.SecretaryResult? || log[0].body.LegacyResult?)
            && log[0].body.voteId == id then Some(log[0].body)
    else FirstResult(cfg, log[1..], id)
  }

  /** The vote carries what its first result said about it; the first legacy choice is the
      optimistic one. */
  ghost predicate Introduces(b: Body, v: Vote) {
    && !b.Undecodable? && !b.WitnessResult?
    && v.voteId == b.voteId && v.sessionId == b.sessionId
    && (b.SecretaryResult? ==>
          v.archonId == b.archonId && v.rawResponse == b.rawResponse && v.motionText == b.motionText && v.optimisticChoice == "")
    && (b.LegacyResult? ==>
          v.archonId == "" && v.rawResponse == "" && v.motionText == "" && v.optimisticChoice == b.legacy.choice)
  }

  ghost predicate SameIdentity(v: Vote, w: Vote) {
    && v.voteId == w.voteId && v.sessionId == w.sessionId && v.archonId == w.archonId
    && v.rawResponse == w.rawResponse && v.motionText == w.motionText && v.optimisticChoice == w.optimisticChoice
  }

  lemma OnSecretaryKeepsIdentity(lim: Limits, ok: bool, v: Vote, r: SecretaryResponse)
    ensures SameIdentity(v, OnSecretary(lim, ok, v, r).vote)
  {
    var added := v.(secretaryResponses := v.secretaryResponses.Add(SecretaryKey(r), r));
    ConcludeKeepsIdentity(lim, ok, added, ReadSecretaries(added.secretaryResponses.order));
  }

  lemma OnLegacyKeepsIdentity(lim: Limits, ok: bool, v: Vote, r: ValidatorResponse)
    ensures SameIdentity(v, OnLegacy(lim, ok, v, r).vote)
  {
    var added := v.(responses := v.responses.Add(ValidatorKey(r), r));
    ConcludeKeepsIdentity(lim, ok, added, ReadValidators(added.responses.order, lim.Required()));
  }

  lemma ReactKeepsIdentity(lim: Limits, ok: bool, v: Vote, b: Body)
    ensures SameIdentity(v, React(lim, ok, v, b).vote)
  {
    match b
    case SecretaryResult(_, _, _, _, _, r) => OnSecretaryKeepsIdentity(lim, ok, v, r);
    case LegacyResult(_, _, r) => OnLegacyKeepsIdentity(lim, ok, v, r);
    case _ =>
  }

  lemma ConcludeKeepsIdentity(lim: Limits, ok: bool, v: Vote, reading: Reading)
    ensures SameIdentity(v, ConcludeSecretary(lim, ok, v, reading).vote)
    ensures SameIdentity(v, ConcludeLegacy(lim, ok, v, reading).vote)
  {
  }

  lemma StepIdentity(cfg: Config, oracle: Oracle, s: State, m: Message, id: string)
    ensures var s', first := Step(cfg, oracle, s, m), FirstResult(cfg, [m], id);
            && (id in s.votes ==> id in s'.votes && SameIdentity(s.votes[id], s'.votes[id]))
            && (id !in s.votes ==> (id in s'.votes <==> first.Some?))
            && (id !in s.votes && first.Some? ==> Introduces(first.value, s'.votes[id]))
  {
    assert [m][1..] == [];
    if !Foreign(cfg, m.header) && !m.body.Undecodable? {
      var v := Addressed(Lookup(s, m.body.voteId), m.body);
      if v.Some? {
        StepEffect(cfg, oracle, s, m, v.value);
        ReactKeepsIdentity(cfg.limits, Answer(oracle, s, v.value), v.value, m.body);
      }
    }
  }

  lemma {:induction false} RunIdentity(cfg: Config, oracle: Oracle, s: State, log: seq<Message>, id: string)
    ensures var s', first := Run(cfg, oracle, s, log), FirstResult(cfg, log, id);
            && (id in s.votes ==> id in s'.votes && SameIdentity(s.votes[id], s'.votes[id]))
            && (id !in s.votes ==> (id in s'.votes <==> first.Some?))
            && (id !in s.votes && first.Some? ==> Introduces(first.value, s'.votes[id]))
    decreases |log|
  {
    if log != [] {
      StepIdentity(cfg, oracle, s, log[0], id);
      RunIdentity(cfg, oracle, Step(cfg, oracle, s, log[0]), log[1..], id);
      assert [log[0]][1..] == [];
    }
  }

  /** A vote is tracked exactly when some unfiltered result names it, and for good carries what
      the first of them said about it. */
  lemma TrackedExactly(cfg: Config, oracle: Oracle, log: seq<Message>, id: string)
    ensures var s, first := Run(cfg, oracle, EMPTY, log), FirstResult(cfg, log, id);
            (id in s.votes <==> first.Some?) && (first.Some? ==> Introduces(first.value, s.votes[id]))
  {
    RunIdentity(cfg, oracle, EMPTY, log, id);
  }
}
