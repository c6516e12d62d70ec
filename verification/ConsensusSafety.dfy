/** Safety of the aggregator in every reachable state: terminal votes, the records published
    about a vote, and the retry budget. */
module ConsensusSafety {
  import opened Prelude
  import opened ConsensusModel
  import opened ConsensusViews
  import opened ConsensusReplay

  // ---------- stored keys ----------

  lemma ReactStoresKeys(lim: Limits, ok: bool, v: Vote, b: Body)
    requires StoredKeys(v)
    ensures StoredKeys(React(lim, ok, v, b).vote)
  {
    match b
    case SecretaryResult(_, _, _, _, _, r) =>
      if !Terminal(v) && SecretaryKey(r) !in v.secretaryResponses.vals {
        AddStoresSecretary(v.secretaryResponses, r);
        var added := v.(secretaryResponses := v.secretaryResponses.Add(SecretaryKey(r), r));
        ConcludeFramed(lim, ok, added, ReadSecretaries(added.secretaryResponses.order));
      }
    case LegacyResult(_, _, r) =>
      if !Terminal(v) && ValidatorKey(r) !in v.responses.vals {
        AddStoresValidator(v.responses, r);
        var added := v.(responses := v.responses.Add(ValidatorKey(r), r));
        ConcludeFramed(lim, ok, added, ReadValidators(added.responses.order, lim.Required()));
      }
    case _ =>
  }

  // ---------- what is published about a vote ----------

  /** At most one final record, the last one, and only about a terminal vote; the topic it
      went to matches the status. */
  ghost predicate FinalOnce(v: Vote, out: seq<Record>) {
    && (forall i :: 0 <= i < |out| && Final(out[i]) ==> i == |out| - 1 && Terminal(v))
    && (Terminal(v) ==> out != [] && Final(out[|out| - 1])
                        && (v.status == DeadLetter <==> out[|out| - 1].DeadLetterVote?))
  }

  /** The choice in the most recent witness request. */
  function Requested(out: seq<Record>): Option<string> {
    if out == [] then None
    else if out[|out| - 1].WitnessRequest? then Some(out[|out| - 1].consensusChoice)
    else Requested(out[..|out| - 1])
  }

  /** The vote's choice and confidence are what both secretaries' latest responses say. */
  ghost predicate Confirmed(v: Vote) {
    var reading := ReadSecretaries(v.secretaryResponses.order);
    && reading.Agreed?
    && v.consensusChoice == Some(reading.choice)
    && v.consensusConfidence == Some(reading.confidence)
  }

  /** A vote awaiting its witness is confirmed, and its last request carried that choice; so
      is a vote validated with a witness, whose record is drawn from its final state. */
  ghost predicate Witnessing(v: Vote, out: seq<Record>) {
    && (v.status == WitnessPending ==> Confirmed(v) && Requested(out) == v.consensusChoice)
    && (out != [] && out[|out| - 1].WitnessedVote? ==>
          && Confirmed(v) && v.observation.Some?
          && out[|out| - 1] == ToWitnessedVote(v)
          && Requested(out[..|out| - 1]) == v.consensusChoice)
  }

  lemma PublishFinalOnce(ok: bool, v: Vote, record: Record, status: Status, counters: Metrics, out: seq<Record>)
    requires FinalOnce(v, out) && !Terminal(v)
    requires status == WitnessPending || status == Validated || status == DeadLetter
    requires Final(record) <==> status != WitnessPending
    requires record.DeadLetterVote? <==> status == DeadLetter
    ensures var e := Publish(ok, v, record, status, counters); FinalOnce(e.vote, out + e.out)
  {
  }

  lemma DisagreementFinalOnce(lim: Limits, ok: bool, v: Vote, reason: string, out: seq<Record>)
    requires FinalOnce(v, out) && !Terminal(v)
    ensures var e := OnDisagreement(lim, ok, v, reason); FinalOnce(e.vote, out + e.out)
  {
    var seen := v.(disagreements := v.disagreements + 1);
    PublishFinalOnce(ok, seen, ToDeadLetter(seen, reason), DeadLetter, multiset{DeadLetterRoutes}, out);
  }

  lemma ConcludeFinalOnce(lim: Limits, ok: bool, v: Vote, reading: Reading, out: seq<Record>)
    requires FinalOnce(v, out) && !Terminal(v)
    ensures var e := ConcludeSecretary(lim, ok, v, reading); FinalOnce(e.vote, out + e.out)
    ensures var e := ConcludeLegacy(lim, ok, v, reading); FinalOnce(e.vote, out + e.out)
  {
    var checked := Checked(v, reading);
    assert out + [] == out;
    if reading.Agreed? {
      PublishFinalOnce(ok, checked, ToWitnessRequest(checked), WitnessPending, multiset{WitnessRequests}, out);
      PublishFinalOnce(ok, checked, ToLegacyVote(checked), Validated, multiset{ValidatedPublished}, out);
    } else if checked.status == Disagreement {
      DisagreementFinalOnce(lim, ok, checked, SECRETARY_REASON, out);
      DisagreementFinalOnce(lim, ok, checked, LEGACY_REASON, out);
    }
  }

  lemma RequestedSnoc(out: seq<Record>, r: Record)
    ensures (out + [r])[..|out + [r]| - 1] == out
    ensures Requested(out + [r]) == if r.WitnessRequest? then Some(r.consensusChoice) else Requested(out)
  {
    assert (out + [r])[..|out|] == out;
  }

  lemma SecretaryWitnessing(lim: Limits, ok: bool, v: Vote, reading: Reading, out: seq<Record>)
    requires FinalOnce(v, out) && !Terminal(v)
    requires reading == ReadSecretaries(v.secretaryResponses.order)
    requires v.status == WitnessPending ==> !reading.Waiting?
    ensures var e := ConcludeSecretary(lim, ok, v, reading); Witnessing(e.vote, out + e.out)
  {
    var e := ConcludeSecretary(lim, ok, v, reading);
    if |e.out| == 1 {
      RequestedSnoc(out, e.out[0]);
      assert out + e.out == out + [e.out[0]];
    } else {
      assert out + e.out == out;
    }
  }

  lemma LegacyWitnessing(lim: Limits, ok: bool, v: Vote, reading: Reading, out: seq<Record>)
    requires FinalOnce(v, out) && !Terminal(v) && Witnessing(v, out)
    ensures var e := ConcludeLegacy(lim, ok, v, reading); Witnessing(e.vote, out + e.out)
  {
    var e := ConcludeLegacy(lim, ok, v, reading);
    if |e.out| == 1 {
      assert out + e.out == out + [e.out[0]];
    } else {
      assert out + e.out == out;
    }
  }

  /** Once both secretaries are heard, they stay heard. */
  lemma StaysHeard(rs: seq<SecretaryResponse>, r: SecretaryResponse)
    requires !ReadSecretaries(rs).Waiting?
    ensures !ReadSecretaries(rs + [r]).Waiting?
  {
    assert (rs + [r])[..|rs + [r]| - 1] == rs;
  }

  /** The other final records are drawn from the vote's final state too: a legacy record from
      an agreement among the validators, a dead letter with one of the two reasons. */
  ghost predicate Drawn(lim: Limits, v: Vote, out: seq<Record>) {
    out != [] ==>
      var last := out[|out| - 1];
      && (last.LegacyVote? ==>
            && last == ToLegacyVote(v)
            && ReadValidators(v.responses.order, lim.Required()).Agreed?
            && v.consensusChoice == Some(ReadValidators(v.responses.order, lim.Required()).choice)
            && v.consensusConfidence == Some(ReadValidators(v.responses.order, lim.Required()).confidence))
      && (last.DeadLetterVote? ==> last == ToDeadLetter(v, SECRETARY_REASON) || last == ToDeadLetter(v, LEGACY_REASON))
  }

  lemma SecretaryDrawn(lim: Limits, ok: bool, v: Vote, reading: Reading, out: seq<Record>)
    requires FinalOnce(v, out) && !Terminal(v)
    ensures var e := ConcludeSecretary(lim, ok, v, reading); Drawn(lim, e.vote, out + e.out)
  {
    var e := ConcludeSecretary(lim, ok, v, reading);
    assert out + e.out == out || out + e.out == out + [e.out[0]];
  }

  lemma LegacyDrawn(lim: Limits, ok: bool, v: Vote, reading: Reading, out: seq<Record>)
    requires FinalOnce(v, out) && !Terminal(v)
    requires reading == ReadValidators(v.responses.order, lim.Required())
    ensures var e := ConcludeLegacy(lim, ok, v, reading); Drawn(lim, e.vote, out + e.out)
  {
    var e := ConcludeLegacy(lim, ok, v, reading);
    assert out + e.out == out || out + e.out == out + [e.out[0]];
  }

  /** What holds of a vote and of the records published about it. */
  ghost predicate Published(lim: Limits, v: Vote, out: seq<Record>) {
    FinalOnce(v, out) && Witnessing(v, out) && Drawn(lim, v, out)
  }

  lemma WitnessPublished(lim: Limits, ok: bool, v: Vote, o: WitnessObservation, out: seq<Record>)
    requires Published(lim, v, out)
    ensures var e := OnWitness(ok, v, o); Published(lim, e.vote, out + e.out)
  {
    var e := OnWitness(ok, v, o);
    if |e.out| == 1 {
      RequestedSnoc(out, e.out[0]);
      assert out + e.out == out + [e.out[0]];
    } else {
      assert out + e.out == out;
    }
  }

  lemma ReactPublished(lim: Limits, ok: bool, v: Vote, b: Body, out: seq<Record>)
    requires Published(lim, v, out)
    ensures var e := React(lim, ok, v, b); Published(lim, e.vote, out + e.out)
  {
    assert out + [] == out;
    match b
    case Undecodable =>
    case WitnessResult(_, o) => WitnessPublished(lim, ok, v, o, out);
    case SecretaryResult(_, _, _, _, _, r) =>
      if !Terminal(v) && SecretaryKey(r) !in v.secretaryResponses.vals {
        var added := v.(secretaryResponses := v.secretaryResponses.Add(SecretaryKey(r), r));
        var reading := ReadSecretaries(added.secretaryResponses.order);
        if v.status == WitnessPending {
          StaysHeard(v.secretaryResponses.order, r);
        }
        ConcludeFinalOnce(lim, ok, added, reading, out);
        SecretaryWitnessing(lim, ok, added, reading, out);
        SecretaryDrawn(lim, ok, added, reading, out);
      }
    case LegacyResult(_, _, r) =>
      if !Terminal(v) && ValidatorKey(r) !in v.responses.vals {
        var added := v.(responses := v.responses.Add(ValidatorKey(r), r));
        var reading := ReadValidators(added.responses.order, lim.Required());
        ConcludeFinalOnce(lim, ok, added, reading, out);
        LegacyWitnessing(lim, ok, added, reading, out);
        LegacyDrawn(lim, ok, added, reading, out);
      }
  }

  // ---------- the retry budget ----------

  function Budget(lim: Limits): nat {
    if lim.maxRetries < 0 then 0 else lim.maxRetries
  }

  /** For any publish outcomes: retries are the counted disagreements, capped by the budget,
      and only an exhausted budget dead-letters. */
  ghost predicate Budgeted(lim: Limits, v: Vote) {
    && v.retryCount == (if v.disagreements < Budget(lim) then v.disagreements else Budget(lim))
    && (v.status == DeadLetter ==> v.disagreements > Budget(lim))
  }

  /** When every publish succeeds. */
  ghost predicate BudgetedReliably(lim: Limits, v: Vote) {
    && v.disagreements == v.retryCount + (if v.status == DeadLetter then 1 else 0)
    && (v.status == DeadLetter ==> v.retryCount == Budget(lim))
    && v.status != Consensus && v.status != Disagreement
  }

  lemma ConcludeBudgeted(lim: Limits, ok: bool, v: Vote, reading: Reading)
    requires Budgeted(lim, v) && !Terminal(v)
    ensures Budgeted(lim, ConcludeSecretary(lim, ok, v, reading).vote)
    ensures Budgeted(lim, ConcludeLegacy(lim, ok, v, reading).vote)
    ensures ok && BudgetedReliably(lim, v) ==>
              BudgetedReliably(lim, ConcludeSecretary(lim, ok, v, reading).vote)
              && BudgetedReliably(lim, ConcludeLegacy(lim, ok, v, reading).vote)
  {
  }

  lemma SecretaryBudgeted(lim: Limits, ok: bool, v: Vote, r: SecretaryResponse)
    requires Budgeted(lim, v)
    ensures var w := OnSecretary(lim, ok, v, r).vote;
            Budgeted(lim, w) && (ok && BudgetedReliably(lim, v) ==> BudgetedReliably(lim, w))
  {
    if !Terminal(v) {
      var added := v.(secretaryResponses := v.secretaryResponses.Add(SecretaryKey(r), r));
      ConcludeBudgeted(lim, ok, added, ReadSecretaries(added.secretaryResponses.order));
    }
  }

  lemma LegacyBudgeted(lim: Limits, ok: bool, v: Vote, r: ValidatorResponse)
    requires Budgeted(lim, v)
    ensures var w := OnLegacy(lim, ok, v, r).vote;
            Budgeted(lim, w) && (ok && BudgetedReliably(lim, v) ==> BudgetedReliably(lim, w))
  {
    if !Terminal(v) {
      var added := v.(responses := v.responses.Add(ValidatorKey(r), r));
      ConcludeBudgeted(lim, ok, added, ReadValidators(added.responses.order, lim.Required()));
    }
  }

  lemma ReactBudgeted(lim: Limits, ok: bool, v: Vote, b: Body)
    requires Budgeted(lim, v)
    ensures var w := React(lim, ok, v, b).vote;
            Budgeted(lim, w) && (ok && BudgetedReliably(lim, v) ==> BudgetedReliably(lim, w))
  {
    match b
    case SecretaryResult(_, _, _, _, _, r) => SecretaryBudgeted(lim, ok, v, r);
    case LegacyResult(_, _, r) => LegacyBudgeted(lim, ok, v, r);
    case _ =>
  }

  // ---------- whole runs ----------

  ghost predicate Sound(lim: Limits, reliable: bool, t: Trace) {
    match t.vote
    case None => t.out == []
    case Some(v) =>
      && StoredKeys(v) && Published(lim, v, t.out) && Budgeted(lim, v)
      && (reliable ==> BudgetedReliably(lim, v))
  }

  lemma TraceStepSound(lim: Limits, reliable: bool, ok: bool, t: Trace, b: Body)
    requires Sound(lim, reliable, t) && (reliable ==> ok)
    ensures Sound(lim, reliable, TraceStep(lim, ok, t, b))
  {
    var v := Addressed(t.vote, b);
    if v.Some? {
      assert Sound(lim, reliable, Trace(v, t.out));
      ReactStoresKeys(lim, ok, v.value, b);
      ReactPublished(lim, ok, v.value, b, t.out);
      ReactBudgeted(lim, ok, v.value, b);
    }
  }

  lemma {:induction false} RunSound(cfg: Config, oracle: Oracle, s: State, log: seq<Message>, id: string)
    requires Keyed(s) && Sound(cfg.limits, Reliable(oracle), Project(s, id))
    ensures Sound(cfg.limits, Reliable(oracle), Project(Run(cfg, oracle, s, log), id))
    decreases |log|
  {
    if log != [] {
      ProjectStep(cfg, oracle, s, log[0], id);
      TraceStepSound(cfg.limits, Reliable(oracle), NextAnswer(oracle, s, id), Project(s, id), log[0].body);
      StepKeyed(cfg, oracle, s, log[0]);
      RunSound(cfg, oracle, Step(cfg, oracle, s, log[0]), log[1..], id);
    }
  }

  /** Every reachable vote is sound. */
  lemma ReachableSound(cfg: Config, oracle: Oracle, log: seq<Message>, id: string)
    ensures Sound(cfg.limits, Reliable(oracle), Project(Run(cfg, oracle, EMPTY, log), id))
  {
    RunSound(cfg, oracle, EMPTY, log, id);
  }

  lemma SplitAt<T>(s: seq<T>, i: nat)
    requires i < |s|
    ensures s[..i] + [s[i]] + s[i + 1..] == s
  {
  }

  /** In every reachable vote, the secretary view and the legacy decision are the same for
      every order in which the stored responses could be enumerated. */
  lemma ReachableViewsOrderIndependent(cfg: Config, oracle: Oracle, log: seq<Message>, id: string,
                                       ss: seq<SecretaryResponse>, rs: seq<ValidatorResponse>, only: Option<int>)
    requires id in Run(cfg, oracle, EMPTY, log).votes
    requires forall x :: x in ss <==> x in Run(cfg, oracle, EMPTY, log).votes[id].secretaryResponses.vals.Values
    requires forall x :: x in rs <==> x in Run(cfg, oracle, EMPTY, log).votes[id].responses.vals.Values
    ensures var v := Run(cfg, oracle, EMPTY, log).votes[id];
            && LatestByRole(ss, only) == LatestByRole(v.secretaryResponses.order, only)
            && ReadValidators(rs, cfg.limits.Required()) == ReadValidators(v.responses.order, cfg.limits.Required())
  {
    ReachableSound(cfg, oracle, log, id);
    var v := Run(cfg, oracle, EMPTY, log).votes[id];
    StoredValues(v);
    SecretaryViewOrderIndependent(v.secretaryResponses, ss, only);
    ValidatorDecisionOrderIndependent(v.responses, rs, cfg.limits.Required());
  }

  lemma StoredValues(v: Vote)
    requires StoredKeys(v)
    ensures forall x :: x in v.secretaryResponses.order <==> x in v.secretaryResponses.vals.Values
    ensures forall x :: x in v.responses.order <==> x in v.responses.vals.Values
  {
    forall x ensures x in v.secretaryResponses.order <==> x in v.secretaryResponses.vals.Values {
      if x in v.secretaryResponses.order {
        var i :| 0 <= i < |v.secretaryResponses.order| && v.secretaryResponses.order[i] == x;
        assert SecretaryKey(x) in v.secretaryResponses.vals;
      }
    }
    forall x ensures x in v.responses.order <==> x in v.responses.vals.Values {
      if x in v.responses.order {
        var i :| 0 <= i < |v.responses.order| && v.responses.order[i] == x;
        assert ValidatorKey(x) in v.responses.vals;
      }
    }
  }

  lemma RecordsSplit(a: seq<Record>, r: Record, b: seq<Record>)
    ensures RecordsOf(a + [r] + b, r.voteId) == RecordsOf(a, r.voteId) + [r] + RecordsOf(b, r.voteId)
  {
    RecordsOfConcat(a + [r], b, r.voteId);
    RecordsOfConcat(a, [r], r.voteId);
    RecordsOfOne([r], r.voteId, r.voteId);
  }

  /** A record splits the records about its vote. */
  lemma RecordsAround(outbox: seq<Record>, i: nat)
    requires i < |outbox|
    ensures var id := outbox[i].voteId;
            RecordsOf(outbox, id) == RecordsOf(outbox[..i], id) + [outbox[i]] + RecordsOf(outbox[i + 1..], id)
  {
    RecordsSplit(outbox[..i], outbox[i], outbox[i + 1..]);
    SplitAt(outbox, i);
  }

  /** The final record of a vote is the last published about it, and its vote is terminal. */
  lemma FinalIsLast(cfg: Config, oracle: Oracle, log: seq<Message>, i: nat)
    requires i < |Run(cfg, oracle, EMPTY, log).outbox| && Final(Run(cfg, oracle, EMPTY, log).outbox[i])
    ensures var s := Run(cfg, oracle, EMPTY, log);
            var id := s.outbox[i].voteId;
            && id in s.votes && Terminal(s.votes[id])
            && RecordsOf(s.outbox, id) == RecordsOf(s.outbox[..i], id) + [s.outbox[i]]
  {
    var s := Run(cfg, oracle, EMPTY, log);
    var id := s.outbox[i].voteId;
    ReachableSound(cfg, oracle, log, id);
    RecordsAround(s.outbox, i);
    var out, k := RecordsOf(s.outbox, id), |RecordsOf(s.outbox[..i], id)|;
    assert out[k] == s.outbox[i] && Final(out[k]);
  }

  /** Over the validated and dead-letter topics together, a vote has at most one record. */
  lemma AtMostOneFinalRecord(cfg: Config, oracle: Oracle, log: seq<Message>, i: nat, j: nat)
    requires var outbox := Run(cfg, oracle, EMPTY, log).outbox;
             i < |outbox| && j < |outbox| && Final(outbox[i]) && Final(outbox[j])
             && outbox[i].voteId == outbox[j].voteId
    ensures i == j
  {
    var outbox := Run(cfg, oracle, EMPTY, log).outbox;
    FinalIsLast(cfg, oracle, log, i);
    FinalIsLast(cfg, oracle, log, j);
    if i < j {
      RecordsGrow(outbox, i, j);
    } else if j < i {
      RecordsGrow(outbox, j, i);
    }
  }

  lemma RecordsGrow(outbox: seq<Record>, i: nat, j: nat)
    requires i < j <= |outbox|
    ensures |RecordsOf(outbox[..i], outbox[i].voteId)| < |RecordsOf(outbox[..j], outbox[i].voteId)|
  {
    assert outbox[..j][..i] == outbox[..i];
    RecordsAround(outbox[..j], i);
  }

  /** VALIDATED and DEAD_LETTER are absorbing: no later message changes any field of the
      vote or publishes anything about it. */
  lemma TerminalAbsorbing(cfg: Config, oracle: Oracle, log: seq<Message>, more: seq<Message>, id: string)
    requires id in Run(cfg, oracle, EMPTY, log).votes && Terminal(Run(cfg, oracle, EMPTY, log).votes[id])
    ensures Project(Run(cfg, oracle, EMPTY, log + more), id) == Project(Run(cfg, oracle, EMPTY, log), id)
  {
    RunConcat(cfg, oracle, EMPTY, log, more);
    RunKeyed(cfg, oracle, EMPTY, log);
    TerminalRun(cfg, oracle, Run(cfg, oracle, EMPTY, log), more, id);
  }

  lemma TerminalStep(lim: Limits, ok: bool, t: Trace, b: Body)
    requires t.vote.Some? && Terminal(t.vote.value)
    ensures TraceStep(lim, ok, t, b) == t
  {
    ReactFrame(lim, ok, t.vote.value, b);
  }

  lemma {:induction false} TerminalRun(cfg: Config, oracle: Oracle, s: State, log: seq<Message>, id: string)
    requires Keyed(s) && Lookup(s, id).Some? && Terminal(s.votes[id])
    ensures Project(Run(cfg, oracle, s, log), id) == Project(s, id)
    decreases |log|
  {
    if log != [] {
      ProjectStep(cfg, oracle, s, log[0], id);
      TerminalStep(cfg.limits, NextAnswer(oracle, s, id), Project(s, id), log[0].body);
      StepKeyed(cfg, oracle, s, log[0]);
      assert Lookup(Step(cfg, oracle, s, log[0]), id) == Project(Step(cfg, oracle, s, log[0]), id).vote;
      TerminalRun(cfg, oracle, Step(cfg, oracle, s, log[0]), log[1..], id);
    }
  }

  /** The determination in a record is the secretary's response, field by field. */
  ghost predicate Carries(d: Option<Determination>, r: SecretaryResponse) {
    && d.Some?
    && d.value.secretaryId == r.secretaryId && d.value.choice == r.choice
    && d.value.confidence == r.confidence && d.value.reasoning == r.reasoning
  }

  /** The lines of a record are the validators' responses, field by field and in order. */
  ghost predicate Lists(lines: seq<ValidatorLine>, rs: seq<ValidatorResponse>) {
    && |lines| == |rs|
    && forall i :: 0 <= i < |rs| ==>
         lines[i].validatorId == rs[i].validatorId && lines[i].choice == rs[i].choice && lines[i].confidence == rs[i].confidence
  }

  /** Every witnessed record on the validated topic: both secretaries' latest responses exist
      and carry the validated choice, the confidence is the smaller of theirs, a witness is
      present, and the last request sent for the vote before it carried the same choice. */
  lemma WitnessedRecordSound(cfg: Config, oracle: Oracle, log: seq<Message>, i: nat)
    requires i < |Run(cfg, oracle, EMPTY, log).outbox| && Run(cfg, oracle, EMPTY, log).outbox[i].WitnessedVote?
    ensures var s := Run(cfg, oracle, EMPTY, log);
            var r := s.outbox[i];
            && r.voteId in s.votes && s.votes[r.voteId].status == Validated
            && exists text, json ::
                 var rs := s.votes[r.voteId].secretaryResponses.order;
                 && LatestOf(rs, SecretaryText, None, text) && LatestOf(rs, SecretaryJson, None, json)
                 && Carries(r.text, text) && Carries(r.json, json)
                 && text.choice == json.choice && r.validatedChoice == Some(text.choice)
                 && r.confidence <= text.confidence && r.confidence <= json.confidence
                 && (r.confidence == text.confidence || r.confidence == json.confidence)
                 && r.observation.Some?
                 && Requested(RecordsOf(s.outbox[..i], r.voteId)) == Some(text.choice)
  {
    var s := Run(cfg, oracle, EMPTY, log);
    var r := s.outbox[i];
    FinalIsLast(cfg, oracle, log, i);
    ReachableSound(cfg, oracle, log, r.voteId);
    var v, before := s.votes[r.voteId], RecordsOf(s.outbox[..i], r.voteId);
    RequestedSnoc(before, r);
    var rs := v.secretaryResponses.order;
    var text, json := LatestSecretary(rs, SecretaryText).value, LatestSecretary(rs, SecretaryJson).value;
    LatestByRoleExact(rs, SecretaryText, None);
    LatestByRoleExact(rs, SecretaryJson, None);
    assert LatestOf(rs, SecretaryText, None, text) && LatestOf(rs, SecretaryJson, None, json);
    assert r == ToWitnessedVote(v);
  }

  /** Every legacy record on the validated topic: the required number of validators were
      heard, their latest responses all carry the validated choice, the confidence is their
      least, and the record lists exactly them. */
  lemma LegacyRecordSound(cfg: Config, oracle: Oracle, log: seq<Message>, i: nat)
    requires i < |Run(cfg, oracle, EMPTY, log).outbox| && Run(cfg, oracle, EMPTY, log).outbox[i].LegacyVote?
    ensures var s := Run(cfg, oracle, EMPTY, log);
            var r := s.outbox[i];
            && r.voteId in s.votes && s.votes[r.voteId].status == Validated
            && var latest := LatestByValidator(s.votes[r.voteId].responses.order);
            && Lists(r.lines, latest)
            && |latest| >= (if cfg.limits.validatorCount == 0 then 2 else cfg.limits.validatorCount)
            && (forall x :: x in latest ==> r.validatedChoice == Some(x.choice) && r.confidence <= x.confidence)
            && (exists x :: x in latest && x.confidence == r.confidence)
            && (r.requiresOverride <==> r.validatedChoice != Some(r.optimisticChoice))
  {
    var s := Run(cfg, oracle, EMPTY, log);
    var r := s.outbox[i];
    FinalIsLast(cfg, oracle, log, i);
    ReachableSound(cfg, oracle, log, r.voteId);
    var latest := LatestByValidator(s.votes[r.voteId].responses.order);
    LeastConfidenceExact(latest);
    UnanimousByMembership(latest);
    assert latest[0] in latest;
  }

  /** Every dead letter: the retry budget is spent and the record lists the latest legacy
      responses. */
  lemma DeadLetterRecordSound(cfg: Config, oracle: Oracle, log: seq<Message>, i: nat)
    requires i < |Run(cfg, oracle, EMPTY, log).outbox| && Run(cfg, oracle, EMPTY, log).outbox[i].DeadLetterVote?
    ensures var s := Run(cfg, oracle, EMPTY, log);
            var r := s.outbox[i];
            && r.voteId in s.votes && s.votes[r.voteId].status == DeadLetter
            && r.retryCount == Budget(cfg.limits)
            && Lists(r.lines, LatestByValidator(s.votes[r.voteId].responses.order))
            && (r.reason == "secretary_disagreement_max_retries" || r.reason == "max_retries_exhausted_disagreement")
  {
    var s := Run(cfg, oracle, EMPTY, log);
    FinalIsLast(cfg, oracle, log, i);
    ReachableSound(cfg, oracle, log, s.outbox[i].voteId);
  }

  /** The retry budget, for any publish outcomes. */
  lemma RetryBudget(cfg: Config, oracle: Oracle, log: seq<Message>, id: string)
    requires id in Run(cfg, oracle, EMPTY, log).votes
    ensures var v := Run(cfg, oracle, EMPTY, log).votes[id];
            && v.retryCount <= Budget(cfg.limits)
            && v.retryCount <= v.disagreements
            && (v.retryCount < Budget(cfg.limits) ==> v.disagreements == v.retryCount)
            && (v.status == DeadLetter ==> v.disagreements > Budget(cfg.limits))
  {
    ReachableSound(cfg, oracle, log, id);
  }

  /** With reliable publishing a vote sees at most budget + 1 disagreements, is dead-lettered
      exactly at the last of them, and never rests in CONSENSUS or DISAGREEMENT. */
  lemma ReliableRetryBudget(cfg: Config, oracle: Oracle, log: seq<Message>, id: string)
    requires Reliable(oracle) && id in Run(cfg, oracle, EMPTY, log).votes
    ensures var v := Run(cfg, oracle, EMPTY, log).votes[id];
            && v.disagreements <= Budget(cfg.limits) + 1
            && (v.status == DeadLetter <==> v.disagreements == Budget(cfg.limits) + 1)
            && v.status != Consensus && v.status != Disagreement
  {
    ReachableSound(cfg, oracle, log, id);
  }

  // ---------- what is counted as a disagreement ----------

  /** The result is neither too late nor a duplicate. */
  predicate Stored(v: Vote, b: Body) {
    && !Terminal(v)
    && match b
       case SecretaryResult(_, _, _, _, _, r) => SecretaryKey(r) !in v.secretaryResponses.vals
       case LegacyResult(_, _, r) => ValidatorKey(r) !in v.responses.vals
       case _ => false
  }

  /** What the responses say once the result has been stored. */
  function ReadingWith(lim: Limits, v: Vote, b: Body): Reading {
    match b
    case SecretaryResult(_, _, _, _, _, r) => ReadSecretaries(v.secretaryResponses.order + [r])
    case LegacyResult(_, _, r) => ReadValidators(v.responses.order + [r], lim.Required())
    case _ => Waiting
  }

  lemma ConcludeCounts(lim: Limits, ok: bool, v: Vote, reading: Reading)
    ensures var counted := if reading.Differs? || (reading.Waiting? && v.status == Disagreement) then 1 else 0;
            && ConcludeSecretary(lim, ok, v, reading).vote.disagreements == v.disagreements + counted
            && ConcludeLegacy(lim, ok, v, reading).vote.disagreements == v.disagreements + counted
  {
  }

  /** A message counts as a disagreement exactly when it is a stored result after which the
      latest responses differ, or still wait while the vote rests in DISAGREEMENT. */
  lemma CountedExactly(lim: Limits, ok: bool, v: Vote, b: Body)
    ensures var reading := ReadingWith(lim, v, b);
            React(lim, ok, v, b).vote.disagreements == v.disagreements +
              if Stored(v, b) && (reading.Differs? || (reading.Waiting? && v.status == Disagreement)) then 1 else 0
  {
    match b
    case SecretaryResult(_, _, _, _, _, r) =>
      if Stored(v, b) {
        var added := v.(secretaryResponses := v.secretaryResponses.Add(SecretaryKey(r), r));
        ConcludeCounts(lim, ok, added, ReadSecretaries(added.secretaryResponses.order));
      }
    case LegacyResult(_, _, r) =>
      if Stored(v, b) {
        var added := v.(responses := v.responses.Add(ValidatorKey(r), r));
        ConcludeCounts(lim, ok, added, ReadValidators(added.responses.order, lim.Required()));
      }
    case _ =>
  }

  /** With reliable publishing, in any run, a message counts as a disagreement exactly when it
      is a stored result after which the latest responses differ. */
  lemma ReliablyCountedExactly(cfg: Config, oracle: Oracle, log: seq<Message>, m: Message, v: Vote)
    requires Reliable(oracle) && cfg.Accepts(m.header) && !m.body.Undecodable?
    requires Addressed(Lookup(Run(cfg, oracle, EMPTY, log), m.body.voteId), m.body) == Some(v)
    ensures var s := Run(cfg, oracle, EMPTY, log + [m]);
            && m.body.voteId in s.votes
            && s.votes[m.body.voteId].disagreements == v.disagreements +
                 if Stored(v, m.body) && ReadingWith(cfg.limits, v, m.body).Differs? then 1 else 0
  {
    var s := Run(cfg, oracle, EMPTY, log);
    ReachableSound(cfg, oracle, log, m.body.voteId);
    RunConcat(cfg, oracle, EMPTY, log, [m]);
    OneMore(cfg, oracle, s, m);
    StepEffect(cfg, oracle, s, m, v);
    CountedExactly(cfg.limits, Answer(oracle, s, v), v, m.body);
  }

  function Nay(cfg: Config, id: string): Message {
    Message(cfg.session, SecretaryResult(id, "", "", "", "", SecretaryResponse("", SecretaryJson, "NAY", 1.0, "", 1)))
  }

  function LegacyAye(cfg: Config, id: string): Message {
    Message(cfg.session, LegacyResult(id, "", ValidatorResponse("validator", "AYE", 1.0, 1)))
  }

  /** A vote of one counted disagreement whose dead letter could not be published. */
  ghost predicate Stuck(v: Vote) {
    v.status == Disagreement && v.disagreements == 1 && v.responses == Table(map[], [])
  }

  lemma NayDiffers(cfg: Config, v: Vote)
    requires HalfHeard(cfg, v)
    ensures var r := Nay(cfg, v.voteId).body.response;
            && SecretaryKey(r) !in v.secretaryResponses.vals
            && ReadSecretaries(v.secretaryResponses.order + [r]).Differs?
  {
    var text, json := v.secretaryResponses.order[0], Nay(cfg, v.voteId).body.response;
    LatestSnoc([], text);
    LatestSnoc([text], json);
    assert [] + [text] == [text];
    AttemptKeyInjective(SecretaryText.Name(), 1, SecretaryJson.Name(), 1);
    assert SecretaryText.Name()[10] == 't' && SecretaryJson.Name()[10] == 'j';
  }

  lemma NayReacts(cfg: Config, v: Vote)
    requires HalfHeard(cfg, v) && cfg.limits.maxRetries <= 0
    ensures var e := React(cfg.limits, false, v, Nay(cfg, v.voteId).body);
            Stuck(e.vote) && e.vote.voteId == v.voteId
  {
    NayDiffers(cfg, v);
  }

  /** One legacy response cannot decide, yet it counts as a second disagreement. */
  lemma LegacyRecounts(cfg: Config, ok: bool, v: Vote)
    requires Stuck(v) && cfg.limits.Required() >= 2
    ensures ReadingWith(cfg.limits, v, LegacyAye(cfg, v.voteId).body).Waiting?
    ensures React(cfg.limits, ok, v, LegacyAye(cfg, v.voteId).body).vote.disagreements == 2
  {
    CountedExactly(cfg.limits, ok, v, LegacyAye(cfg, v.voteId).body);
    var r := LegacyAye(cfg, v.voteId).body.legacy;
    assert v.responses.order + [r] == [r] && [r][..0] == [];
    assert LatestByValidator([r]) == [r];
  }

  /** The input on which the count exceeds the differing readings: with no retries left and
      the first publish failing, one disagreement leaves the vote in DISAGREEMENT, and a lone
      legacy response, which decides nothing, is counted as another. */
  lemma FailedDeadLetterRecounts(cfg: Config, oracle: Oracle, id: string)
    requires cfg.limits.maxRetries <= 0 && cfg.limits.Required() >= 2 && !oracle(id, 0, 0)
    ensures var s := Run(cfg, oracle, EMPTY, [Aye(cfg, id, SecretaryText), Nay(cfg, id)]);
            var s' := Run(cfg, oracle, EMPTY, [Aye(cfg, id, SecretaryText), Nay(cfg, id)] + [LegacyAye(cfg, id)]);
            && id in s.votes && s.votes[id].status == Disagreement && s.votes[id].disagreements == 1
            && ReadingWith(cfg.limits, s.votes[id], LegacyAye(cfg, id).body).Waiting?
            && id in s'.votes && s'.votes[id].disagreements == 2
  {
    var first, second, third := Aye(cfg, id, SecretaryText), Nay(cfg, id), LegacyAye(cfg, id);
    FirstStep(cfg, oracle, EMPTY, id);
    var s1 := Step(cfg, oracle, EMPTY, first);
    var v := s1.votes[id];
    NayReacts(cfg, v);
    StepEffect(cfg, oracle, s1, second, v);
    RunTwo(cfg, oracle, EMPTY, first, second);
    var s2 := Step(cfg, oracle, s1, second);
    LegacyRecounts(cfg, Answer(oracle, s2, s2.votes[id]), s2.votes[id]);
    StepEffect(cfg, oracle, s2, third, s2.votes[id]);
    RunConcat(cfg, oracle, EMPTY, [first, second], [third]);
    OneMore(cfg, oracle, s2, third);
  }
}
