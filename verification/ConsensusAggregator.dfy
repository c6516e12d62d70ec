/** The consensus aggregator as the program writes it: vote objects and counters updated in
    place. Every method is proved to compute the corresponding function of `ConsensusModel`. */
module ConsensusAggregator {
  import opened Prelude
  import opened ConsensusModel

  /** The responses given at one attempt, in order. */
  function OfAttempt(rs: seq<ValidatorResponse>, attempt: int): seq<ValidatorResponse> {
    if rs == [] then [] else
      OfAttempt(rs[..|rs| - 1], attempt)
      + if rs[|rs| - 1].attempt == attempt then [rs[|rs| - 1]] else []
  }

  /** Those and no others, in the order given. */
  lemma {:induction false} OfAttemptExactly(a: seq<ValidatorResponse>, b: seq<ValidatorResponse>, r: ValidatorResponse, attempt: int)
    ensures OfAttempt(a + b, attempt) == OfAttempt(a, attempt) + OfAttempt(b, attempt)
    ensures OfAttempt([r], attempt) == if r.attempt == attempt then [r] else []
  {
    assert [r][..0] == [];
    if b == [] {
      assert a + b == a;
    } else {
      assert (a + b)[..|a + b| - 1] == a + b[..|b| - 1];
      OfAttemptExactly(a, b[..|b| - 1], r, attempt);
    }
  }

  lemma OneChoice(rs: seq<ValidatorResponse>)
    ensures |set r | r in rs :: r.choice| == 1 <==> Unanimous(rs)
  {
    var choices := set r | r in rs :: r.choice;
    if rs != [] {
      assert rs[0] in rs && rs[0].choice in choices;
      if |choices| == 1 {
        assert |choices - {rs[0].choice}| == 0;
        forall i | 0 <= i < |rs| ensures rs[i].choice == rs[0].choice {
          assert rs[i] in rs && rs[i].choice in choices;
        }
      }
      if Unanimous(rs) {
        assert choices == {rs[0].choice};
      }
    }
  }

  class VoteAggregation {
    const voteId: string
    const sessionId: string
    const archonId: string
    const rawResponse: string
    const motionText: string
    const optimisticChoice: string
    var responses: Table<ValidatorResponse>
    var secretaryResponses: Table<SecretaryResponse>
    var witnessObservation: Option<WitnessObservation>
    var status: Status
    var retryCount: nat
    var consensusChoice: Option<string>
    var consensusConfidence: Option<real>
    // Publish attempts so far (selects the environment's next answer), and a history count.
    var attempts: nat
    ghost var disagreements: nat

    ghost function View(): Vote
      reads this
    {
      Vote(voteId, sessionId, archonId, rawResponse, motionText, optimisticChoice,
           responses, secretaryResponses, witnessObservation, status, retryCount,
           consensusChoice, consensusConfidence, attempts, disagreements)
    }

    constructor (voteId: string, sessionId: string, archonId: string, rawResponse: string,
                 motionText: string, optimisticChoice: string)
      ensures View() == NewVote(voteId, sessionId, archonId, rawResponse, motionText, optimisticChoice)
    {
      this.voteId, this.sessionId, this.archonId := voteId, sessionId, archonId;
      this.rawResponse, this.motionText := rawResponse, motionText;
      this.optimisticChoice := optimisticChoice;
      responses, secretaryResponses := Table(map[], []), Table(map[], []);
      witnessObservation, status, retryCount := None, Pending, 0;
      consensusChoice, consensusConfidence := None, None;
      attempts, disagreements := 0, 0;
    }

    method AddResponse(r: ValidatorResponse) returns (added: bool)
      modifies this
      ensures added <==> ValidatorKey(r) !in old(responses).vals
      ensures View() == if added
                        then old(View()).(responses := old(responses).Add(ValidatorKey(r), r))
                        else old(View())
    {
      var key := ValidatorKey(r);
      if key in responses.vals {
        return false;
      }
      responses := responses.Add(key, r);
      return true;
    }

    method GetLatestResponses(attempt: Option<int>) returns (latest: seq<ValidatorResponse>)
      ensures attempt.None? ==> latest == LatestByValidator(responses.order)
      ensures attempt.Some? ==> latest == OfAttempt(responses.order, attempt.value)
    {
      var all := responses.order;
      if attempt.Some? {
        latest := [];
        for i := 0 to |all|
          invariant latest == OfAttempt(all[..i], attempt.value)
        {
          assert all[..i + 1][..i] == all[..i];
          if all[i].attempt == attempt.value {
            latest := latest + [all[i]];
          }
        }
        assert all[..|all|] == all;
        return;
      }
      latest := [];
      for i := 0 to |all|
        invariant latest == LatestByValidator(all[..i])
      {
        assert all[..i + 1][..i] == all[..i];
        var r := all[i];
        var at := Find(latest, r.validatorId);
        if at == |latest| {
          latest := latest + [r];
        } else if r.attempt > latest[at].attempt {
          latest := latest[at := r];
        }
      }
      assert all[..|all|] == all;
    }

    method CheckConsensus(required: nat) returns (reached: bool)
      modifies this
      ensures View() == Checked(old(View()), ReadValidators(responses.order, required))
      ensures reached == ReadValidators(responses.order, required).Agreed?
    {
      var latest := GetLatestResponses(None);
      if |latest| < required {
        return false;
      }
      var choices := set r | r in latest :: r.choice;
      OneChoice(latest);
      if |choices| == 1 {
        consensusChoice := Some(latest[0].choice);
        consensusConfidence := Some(LeastConfidence(latest));
        status := Consensus;
        return true;
      }
      status := Disagreement;
      return false;
    }

    method AddSecretaryResponse(r: SecretaryResponse) returns (added: bool)
      modifies this
      ensures added <==> SecretaryKey(r) !in old(secretaryResponses).vals
      ensures View() == if added
                        then old(View()).(secretaryResponses :=
                                            old(secretaryResponses).Add(SecretaryKey(r), r))
                        else old(View())
    {
      var key := SecretaryKey(r);
      if key in secretaryResponses.vals {
        return false;
      }
      secretaryResponses := secretaryResponses.Add(key, r);
      return true;
    }

    method GetSecretaryResponses(attempt: Option<int>) returns (result: map<Role, SecretaryResponse>)
      ensures result == LatestByRole(secretaryResponses.order, attempt)
    {
      var all := secretaryResponses.order;
      result := map[];
      for i := 0 to |all|
        invariant result == LatestByRole(all[..i], attempt)
      {
        assert all[..i + 1][..i] == all[..i];
        var r := all[i];
        if attempt.Some? && r.attempt != attempt.value {
          continue;
        }
        if r.role !in result || r.attempt > result[r.role].attempt {
          result := result[r.role := r];
        }
      }
      assert all[..|all|] == all;
    }

    method CheckSecretaryConsensus() returns (reached: bool)
      modifies this
      ensures View() == Checked(old(View()), ReadSecretaries(secretaryResponses.order))
      ensures reached == ReadSecretaries(secretaryResponses.order).Agreed?
    {
      var latest := GetSecretaryResponses(None);
      if SecretaryText !in latest || SecretaryJson !in latest {
        return false;
      }
      var text, json := latest[SecretaryText], latest[SecretaryJson];
      if text.choice == json.choice {
        consensusChoice := Some(text.choice);
        consensusConfidence := Some(Min(text.confidence, json.confidence));
        status := Consensus;
        return true;
      }
      status := Disagreement;
      return false;
    }

    method AddWitnessObservation(o: WitnessObservation)
      modifies this
      ensures View() == old(View()).(observation := Some(o))
    {
      witnessObservation := Some(o);
    }

    method WitnessRequestRecord() returns (record: Record)
      ensures record == ToWitnessRequest(View())
    {
      var latest := GetSecretaryResponses(None);
      record := WitnessRequest(
        voteId, sessionId, archonId, rawResponse, motionText,
        if SecretaryText in latest then latest[SecretaryText].choice else "",
        if SecretaryJson in latest then latest[SecretaryJson].choice else "",
        consensusChoice.GetOr(""));
    }

    method WitnessedVoteRecord() returns (record: Record)
      ensures record == ToWitnessedVote(View())
    {
      var latest := GetSecretaryResponses(None);
      var text := if SecretaryText in latest then Some(latest[SecretaryText]) else None;
      var json := if SecretaryJson in latest then Some(latest[SecretaryJson]) else None;
      record := WitnessedVote(voteId, sessionId, archonId, consensusChoice,
                              consensusConfidence.GetOr(0.0),
                              Determined(text), Determined(json), witnessObservation);
    }

    method LegacyVoteRecord() returns (record: Record)
      ensures record == ToLegacyVote(View())
    {
      var latest := GetLatestResponses(None);
      var override := consensusChoice != Some(optimisticChoice);
      record := LegacyVote(voteId, sessionId, optimisticChoice, consensusChoice, override,
                           consensusConfidence.GetOr(0.0), Lines(latest));
    }

    method DeadLetterRecord(reason: string) returns (record: Record)
      ensures record == ToDeadLetter(View(), reason)
    {
      var latest := GetLatestResponses(None);
      record := DeadLetterVote(voteId, sessionId, reason, Lines(latest), retryCount);
    }
  }

  /** The state once a vote is tracked. */
  ghost function Tracked(s: State, v: Vote): State {
    s.(ids := if v.voteId in s.votes then s.ids else s.ids + [v.voteId], votes := s.votes[v.voteId := v])
  }

  lemma DeliverTracked(cfg: Config, oracle: Oracle, s: State, b: Body, v: Vote)
    requires !b.Undecodable? && v.voteId == b.voteId
    requires Addressed(Lookup(s, b.voteId), b) == Some(v)
    ensures Deliver(cfg, oracle, s, b) == Apply(Tracked(s, v), v.voteId, React(cfg.limits, Answer(oracle, s, v), v, b))
  {
    var e := React(cfg.limits, Answer(oracle, s, v), v, b);
    assert s.votes[v.voteId := v][v.voteId := e.vote] == s.votes[v.voteId := e.vote];
  }

  /** Counting in two steps is counting in one. */
  lemma Counted(m: Metrics, a: Metrics, b: Metrics)
    ensures (m + a) + b == m + (a + b)
  {
  }

  class ConsensusAggregator {
    const cfg: Config
    /** Answers of the message broker, serializer and circuit breaker. */
    const oracle: Oracle
    /** The tracked votes, and their ids in the order in which they were first seen. */
    var voteState: map<string, VoteAggregation>
    var voteIds: seq<string>
    var metrics: Metrics
    /** Everything confirmed published so far, over all three topics. */
    ghost var outbox: seq<Record>

    ghost predicate Valid()
      reads this, voteState.Values
    {
      && (forall i :: 0 <= i < |voteIds| ==> voteIds[i] in voteState)
      && (forall id :: id in voteState ==> voteState[id].voteId == id)
    }

    ghost function View(): State
      reads this, voteState.Values
    {
      State(voteIds, map id | id in voteState :: voteState[id].View(), outbox, metrics)
    }

    constructor (cfg: Config, oracle: Oracle)
      ensures Valid() && View() == EMPTY
      ensures this.cfg == cfg && this.oracle == oracle
      ensures voteState == map[]
    {
      this.cfg, this.oracle := cfg, oracle;
      voteState, voteIds, metrics, outbox := map[], [], multiset{}, [];
    }

    /** One publish attempt: the environment answers, and a success is logged. */
    method Produce(vote: VoteAggregation, record: Record) returns (ok: bool)
      modifies `metrics, `outbox, vote`attempts
      ensures ok == oracle(vote.voteId, old(vote.attempts), old(metrics)[PublishAttempts])
      ensures vote.attempts == old(vote.attempts) + 1
      ensures metrics == old(metrics) + multiset{PublishAttempts}
      ensures outbox == if ok then old(outbox) + [record] else old(outbox)
    {
      ok := oracle(vote.voteId, vote.attempts, metrics[PublishAttempts]);
      vote.attempts := vote.attempts + 1;
      metrics := metrics + multiset{PublishAttempts};
      if ok {
        outbox := outbox + [record];
      }
    }

    /** What the four publish operations share: status and counters move on success only. */
    method Publish(vote: VoteAggregation, record: Record, status: Status, counters: Metrics) returns (ok: bool)
      modifies `metrics, `outbox, vote
      ensures ok == oracle(vote.voteId, old(vote.attempts), old(metrics)[PublishAttempts])
      ensures var e := ConsensusModel.Publish(ok, old(vote.View()), record, status, counters);
              vote.View() == e.vote && outbox == old(outbox) + e.out && metrics == old(metrics) + e.delta
    {
      ok := Produce(vote, record);
      if ok {
        vote.status := status;
        metrics := metrics + counters;
        Counted(old(metrics), multiset{PublishAttempts}, counters);
      }
    }

    method PublishWitnessRequest(vote: VoteAggregation) returns (ok: bool)
      modifies `metrics, `outbox, vote
      ensures ok == oracle(vote.voteId, old(vote.attempts), old(metrics)[PublishAttempts])
      ensures var e := ConsensusModel.PublishWitnessRequest(ok, old(vote.View()));
              vote.View() == e.vote && outbox == old(outbox) + e.out && metrics == old(metrics) + e.delta
    {
      var record := vote.WitnessRequestRecord();
      ok := Publish(vote, record, WitnessPending, multiset{WitnessRequests});
    }

    method PublishValidatedWithWitness(vote: VoteAggregation) returns (ok: bool)
      modifies `metrics, `outbox, vote
      ensures ok == oracle(vote.voteId, old(vote.attempts), old(metrics)[PublishAttempts])
      ensures var e := PublishWitnessed(ok, old(vote.View()));
              vote.View() == e.vote && outbox == old(outbox) + e.out && metrics == old(metrics) + e.delta
    {
      var counters := multiset{ValidatedPublished};
      if vote.witnessObservation.Some? {
        if vote.witnessObservation.value.verdict == Agrees {
          counters := counters + multiset{WitnessAgrees};
        } else {
          counters := counters + multiset{WitnessDissents};
        }
      }
      var record := vote.WitnessedVoteRecord();
      ok := Publish(vote, record, Validated, counters);
    }

    method PublishValidated(vote: VoteAggregation) returns (ok: bool)
      modifies `metrics, `outbox, vote
      ensures ok == oracle(vote.voteId, old(vote.attempts), old(metrics)[PublishAttempts])
      ensures var e := PublishLegacy(ok, old(vote.View()));
              vote.View() == e.vote && outbox == old(outbox) + e.out && metrics == old(metrics) + e.delta
    {
      var record := vote.LegacyVoteRecord();
      ok := Publish(vote, record, Validated, multiset{ValidatedPublished});
    }

    method PublishDeadLetter(vote: VoteAggregation, reason: string) returns (ok: bool)
      modifies `metrics, `outbox, vote
      ensures ok == oracle(vote.voteId, old(vote.attempts), old(metrics)[PublishAttempts])
      ensures var e := ConsensusModel.PublishDeadLetter(ok, old(vote.View()), reason);
              vote.View() == e.vote && outbox == old(outbox) + e.out && metrics == old(metrics) + e.delta
    {
      var record := vote.DeadLetterRecord(reason);
      ok := Publish(vote, record, DeadLetter, multiset{DeadLetterRoutes});
    }

    /** The shared disagreement branch of the secretary and the legacy flow. */
    method Disagree(vote: VoteAggregation, reason: string)
      modifies `metrics, `outbox, vote
      ensures var e := OnDisagreement(cfg.limits, oracle(vote.voteId, old(vote.attempts), old(metrics)[PublishAttempts]), old(vote.View()), reason);
              vote.View() == e.vote && outbox == old(outbox) + e.out && metrics == old(metrics) + e.delta
    {
      ghost var ok := oracle(vote.voteId, vote.attempts, metrics[PublishAttempts]);
      metrics := metrics + multiset{Disagreements};
      vote.disagreements := vote.disagreements + 1;
      ghost var seen := vote.View();
      if vote.retryCount < cfg.limits.maxRetries {
        ScheduleRetry(vote);
        Counted(old(metrics), multiset{Disagreements}, multiset{RetriesScheduled});
      } else {
        var _ := PublishDeadLetter(vote, reason);
        Counted(old(metrics), multiset{Disagreements}, ConsensusModel.PublishDeadLetter(ok, seen, reason).delta);
      }
    }

    method ScheduleRetry(vote: VoteAggregation)
      modifies `metrics, vote
      ensures vote.View() == old(vote.View()).(retryCount := old(vote.retryCount) + 1, status := RetryPending)
      ensures metrics == old(metrics) + multiset{RetriesScheduled}
    {
      vote.retryCount := vote.retryCount + 1;
      vote.status := RetryPending;
      metrics := metrics + multiset{RetriesScheduled};
    }

    method ReceiveSecretary(vote: VoteAggregation, r: SecretaryResponse)
      modifies `metrics, `outbox, vote
      ensures var e := OnSecretary(cfg.limits, oracle(vote.voteId, old(vote.attempts), old(metrics)[PublishAttempts]), old(vote.View()), r);
              vote.View() == e.vote && outbox == old(outbox) + e.out && metrics == old(metrics) + e.delta
    {
      if vote.status == Validated || vote.status == DeadLetter {
        return;
      }
      var added := vote.AddSecretaryResponse(r);
      if !added {
        metrics := metrics + multiset{DuplicatesSkipped};
        return;
      }
      ghost var stored := vote.View();
      ghost var reading := ReadSecretaries(vote.secretaryResponses.order);
      var reached := vote.CheckSecretaryConsensus();
      SettleSecretaries(vote, reached, stored, reading);
    }

    /** What follows a consensus check that turned `before` into the present vote. */
    method SettleSecretaries(vote: VoteAggregation, reached: bool, ghost before: Vote, ghost reading: Reading)
      requires vote.View() == Checked(before, reading) && reached == reading.Agreed?
      modifies `metrics, `outbox, vote
      ensures var e := ConcludeSecretary(cfg.limits, oracle(vote.voteId, old(vote.attempts), old(metrics)[PublishAttempts]), before, reading);
              vote.View() == e.vote && outbox == old(outbox) + e.out && metrics == old(metrics) + e.delta
    {
      ghost var received, ok := multiset{SecretaryResponses, MessagesProcessed},
                                oracle(vote.voteId, vote.attempts, metrics[PublishAttempts]);
      ghost var checked := vote.View();
      metrics := metrics + multiset{SecretaryResponses, MessagesProcessed};
      if reached {
        metrics := metrics + multiset{ConsensusReached};
        Counted(old(metrics), received, multiset{ConsensusReached});
        var _ := PublishWitnessRequest(vote);
        Counted(old(metrics), received + multiset{ConsensusReached}, ConsensusModel.PublishWitnessRequest(ok, checked).delta);
      } else if vote.status == Disagreement {
        Disagree(vote, SECRETARY_REASON);
        Counted(old(metrics), received, OnDisagreement(cfg.limits, ok, checked, SECRETARY_REASON).delta);
      }
    }

    method ReceiveWitness(vote: VoteAggregation, o: WitnessObservation)
      modifies `metrics, `outbox, vote
      ensures var e := OnWitness(oracle(vote.voteId, old(vote.attempts), old(metrics)[PublishAttempts]), old(vote.View()), o);
              vote.View() == e.vote && outbox == old(outbox) + e.out && metrics == old(metrics) + e.delta
    {
      if vote.status != WitnessPending {
        return;
      }
      vote.AddWitnessObservation(o);
      metrics := metrics + multiset{WitnessVerdicts, MessagesProcessed};
      var ok := PublishValidatedWithWitness(vote);
    }

    method ReceiveLegacy(vote: VoteAggregation, r: ValidatorResponse)
      modifies `metrics, `outbox, vote
      ensures var e := OnLegacy(cfg.limits, oracle(vote.voteId, old(vote.attempts), old(metrics)[PublishAttempts]), old(vote.View()), r);
              vote.View() == e.vote && outbox == old(outbox) + e.out && metrics == old(metrics) + e.delta
    {
      if vote.status == Validated || vote.status == DeadLetter {
        return;
      }
      var added := vote.AddResponse(r);
      if !added {
        metrics := metrics + multiset{DuplicatesSkipped};
        return;
      }
      ghost var stored := vote.View();
      ghost var reading := ReadValidators(vote.responses.order, cfg.limits.Required());
      var reached := vote.CheckConsensus(cfg.limits.Required());
      SettleValidators(vote, reached, stored, reading);
    }

    /** What follows a consensus check that turned `before` into the present vote. */
    method SettleValidators(vote: VoteAggregation, reached: bool, ghost before: Vote, ghost reading: Reading)
      requires vote.View() == Checked(before, reading) && reached == reading.Agreed?
      modifies `metrics, `outbox, vote
      ensures var e := ConcludeLegacy(cfg.limits, oracle(vote.voteId, old(vote.attempts), old(metrics)[PublishAttempts]), before, reading);
              vote.View() == e.vote && outbox == old(outbox) + e.out && metrics == old(metrics) + e.delta
    {
      ghost var received, ok := multiset{MessagesProcessed}, oracle(vote.voteId, vote.attempts, metrics[PublishAttempts]);
      ghost var checked := vote.View();
      metrics := metrics + multiset{MessagesProcessed};
      if reached {
        metrics := metrics + multiset{ConsensusReached};
        Counted(old(metrics), received, multiset{ConsensusReached});
        var _ := PublishValidated(vote);
        Counted(old(metrics), received + multiset{ConsensusReached}, PublishLegacy(ok, checked).delta);
      } else if vote.status == Disagreement {
        Disagree(vote, LEGACY_REASON);
        Counted(old(metrics), received, OnDisagreement(cfg.limits, ok, checked, LEGACY_REASON).delta);
      }
    }

    /** Routes a decoded message to its handler. */
    method Receive(vote: VoteAggregation, b: Body)
      modifies `metrics, `outbox, vote
      ensures var e := React(cfg.limits, oracle(vote.voteId, old(vote.attempts), old(metrics)[PublishAttempts]), old(vote.View()), b);
              vote.View() == e.vote && outbox == old(outbox) + e.out && metrics == old(metrics) + e.delta
    {
      match b {
        case Undecodable =>
        case SecretaryResult(_, _, _, _, _, r) => ReceiveSecretary(vote, r);
        case WitnessResult(_, o) => ReceiveWitness(vote, o);
        case LegacyResult(_, _, r) => ReceiveLegacy(vote, r);
      }
    }

    /** The vote a message is about; unless it is a witness verdict, it may be created here. */
    method FindOrCreate(b: Body) returns (vote: VoteAggregation)
      requires Valid() && !b.Undecodable?
      requires b.WitnessResult? ==> b.voteId in voteState
      modifies `voteState, `voteIds
      ensures Valid()
      ensures vote.voteId == b.voteId && b.voteId in voteState && voteState[b.voteId] == vote
      ensures vote in old(voteState.Values) || fresh(vote)
      ensures fresh(voteState.Values - old(voteState.Values))
      ensures Addressed(Lookup(old(View()), b.voteId), b) == Some(vote.View())
      ensures View() == Tracked(old(View()), vote.View())
    {
      var id := b.voteId;
      if id in voteState {
        vote := voteState[id];
        assert View().votes == View().votes[id := vote.View()];
        return;
      }
      if b.SecretaryResult? {
        vote := new VoteAggregation(id, b.sessionId, b.archonId, b.rawResponse, b.motionText, "");
      } else {
        vote := new VoteAggregation(id, b.sessionId, "", "", "", b.legacy.choice);
      }
      voteIds := voteIds + [id];
      voteState := voteState[id := vote];
      assert View().votes == old(View()).votes[id := vote.View()];
    }

    /** Lets a tracked vote react to a message. */
    method ReceiveInPlace(vote: VoteAggregation, b: Body)
      requires Valid()
      requires vote.voteId in voteState && vote == voteState[vote.voteId]
      modifies `metrics, `outbox, vote
      ensures Valid()
      ensures View() == Apply(old(View()), vote.voteId, React(cfg.limits, oracle(vote.voteId, old(vote.attempts), old(metrics)[PublishAttempts]), old(vote.View()), b))
    {
      Receive(vote, b);
      forall k | k in voteState && k != vote.voteId
        ensures voteState[k].View() == old(voteState[k].View())
      {
        assert voteState[k].voteId == k;
      }
      assert View().votes == old(View()).votes[vote.voteId := vote.View()];
    }

    /** The same, when the message arrived in state `before` and found or created the vote. */
    method ReceiveTracked(vote: VoteAggregation, b: Body, ghost before: State)
      requires Valid() && !b.Undecodable?
      requires vote.voteId == b.voteId && b.voteId in voteState && vote == voteState[b.voteId]
      requires View() == Tracked(before, vote.View())
      requires Addressed(Lookup(before, b.voteId), b) == Some(vote.View())
      modifies `metrics, `outbox, vote
      ensures Valid()
      ensures View() == Deliver(cfg, oracle, before, b)
    {
      DeliverTracked(cfg, oracle, before, b, vote.View());
      ReceiveInPlace(vote, b);
    }

    /** Handles the payload of a message: its vote is found, or created unless the message is
        a witness verdict, and reacts. */
    method Process(b: Body)
      requires Valid()
      modifies this, voteState.Values
      ensures Valid()
      ensures fresh(voteState.Values - old(voteState.Values))
      ensures View() == Deliver(cfg, oracle, old(View()), b)
    {
      if b.Undecodable? || (b.WitnessResult? && b.voteId !in voteState) {
        return;
      }
      var vote := FindOrCreate(b);
      ReceiveTracked(vote, b, old(View()));
    }

    method ProcessMessage(m: Message)
      requires Valid()
      modifies this, voteState.Values
      ensures Valid()
      ensures fresh(voteState.Values - old(voteState.Values))
      ensures View() == Step(cfg, oracle, old(View()), m)
    {
      metrics := metrics + multiset{MessagesConsumed};
      ghost var counted := old(View()).(metrics := metrics);
      assert View().votes == counted.votes;
      if cfg.session.Some? && cfg.session.value != "" && m.header != cfg.session {
        metrics := metrics + multiset{SessionFiltered};
        assert View().votes == counted.votes;
        return;
      }
      Process(m.body);
    }

    /** The consumer loop over a finite log. */
    method Run(log: seq<Message>)
      requires Valid()
      modifies this, voteState.Values
      ensures Valid()
      ensures View() == ConsensusModel.Run(cfg, oracle, old(View()), log)
    {
      for i := 0 to |log|
        invariant Valid()
        invariant fresh(voteState.Values - old(voteState.Values))
        invariant ConsensusModel.Run(cfg, oracle, View(), log[i..]) == ConsensusModel.Run(cfg, oracle, old(View()), log)
      {
        assert log[i..][0] == log[i] && log[i..][1..] == log[i + 1..];
        ProcessMessage(log[i]);
      }
    }

    method GetPendingVotes() returns (pending: seq<string>)
      requires Valid()
      ensures pending == PendingIds(voteIds, View().votes)
    {
      pending := [];
      for i := 0 to |voteIds|
        invariant pending == PendingIds(voteIds[..i], View().votes)
      {
        var id := voteIds[i];
        assert voteIds[..i + 1][..i] == voteIds[..i];
        var vote := voteState[id];
        if vote.status != Validated && vote.status != DeadLetter {
          pending := pending + [id];
        }
      }
      assert voteIds[..|voteIds|] == voteIds;
    }
  }
}
