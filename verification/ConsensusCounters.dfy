/** Conservation: the metrics of the aggregator are sums over the votes it tracks, whatever
    the publish outcomes. */
module ConsensusCounters {
  import opened Prelude
  import opened ConsensusModel
  import opened ConsensusReplay
  import opened ConsensusViews

  // ---------- sums over the tracked votes ----------

  function Sum(f: Vote -> nat, ids: seq<string>, votes: map<string, Vote>): nat {
    if ids == [] then 0 else
      var last := ids[|ids| - 1];
      Sum(f, ids[..|ids| - 1], votes) + if last in votes then f(votes[last]) else 0
  }

  function Total(f: Vote -> nat, s: State): nat {
    Sum(f, s.ids, s.votes)
  }

  /** The ids list the tracked votes, each once. */
  ghost predicate Listed(s: State) {
    && NoDuplicates(s.ids)
    && (forall i :: 0 <= i < |s.ids| ==> s.ids[i] in s.votes)
    && (forall id :: id in s.votes ==> id in s.ids)
  }

  lemma {:induction false} SumElsewhere(f: Vote -> nat, ids: seq<string>, votes: map<string, Vote>, id: string, v: Vote)
    requires id !in ids
    ensures Sum(f, ids, votes[id := v]) == Sum(f, ids, votes)
  {
    if ids != [] {
      assert forall i :: 0 <= i < |ids| - 1 ==> ids[..|ids| - 1][i] == ids[i];
      SumElsewhere(f, ids[..|ids| - 1], votes, id, v);
    }
  }

  lemma {:induction false} SumReplaced(f: Vote -> nat, ids: seq<string>, votes: map<string, Vote>, id: string, v: Vote)
    requires NoDuplicates(ids) && id in ids && id in votes
    ensures Sum(f, ids, votes[id := v]) + f(votes[id]) == Sum(f, ids, votes) + f(v)
  {
    var front, last := ids[..|ids| - 1], ids[|ids| - 1];
    if last == id {
      SumElsewhere(f, front, votes, id, v);
    } else {
      SumReplaced(f, front, votes, id, v);
    }
  }

  /** The value of a measure at a vote that may not be tracked yet. */
  function At(f: Vote -> nat, v: Option<Vote>): nat {
    if v.Some? then f(v.value) else 0
  }

  lemma TotalApply(f: Vote -> nat, s: State, id: string, e: Effect)
    requires Listed(s)
    ensures Total(f, Apply(s, id, e)) + At(f, Lookup(s, id)) == Total(f, s) + f(e.vote)
  {
    if id in s.votes {
      SumReplaced(f, s.ids, s.votes, id, e.vote);
    } else {
      SumElsewhere(f, s.ids, s.votes, id, e.vote);
      assert (s.ids + [id])[..|s.ids|] == s.ids;
    }
  }

  lemma ListedApply(s: State, id: string, e: Effect)
    requires Listed(s)
    ensures Listed(Apply(s, id, e))
  {
    var s' := Apply(s, id, e);
    forall x | x in s'.votes ensures x in s'.ids {
      if x in s.votes {
        var i :| 0 <= i < |s.ids| && s.ids[i] == x;
        assert s'.ids[i] == x;
      } else {
        assert s'.ids[|s.ids|] == x;
      }
    }
  }

  // ---------- the measures ----------

  function Retries(v: Vote): nat { v.retryCount }

  function Disagreed(v: Vote): nat { v.disagreements }

  function SecretaryCount(v: Vote): nat { |v.secretaryResponses.order| }

  function ResponseCount(v: Vote): nat { |v.secretaryResponses.order| + |v.responses.order| }

  function IsValidated(v: Vote): nat { if v.status == Validated then 1 else 0 }

  function IsDeadLetter(v: Vote): nat { if v.status == DeadLetter then 1 else 0 }

  predicate CarriesVerdict(r: Record, verdict: Verdict) {
    r.WitnessedVote? && r.observation.Some? && r.observation.value.verdict == verdict
  }

  /** Number of witness requests, and of witnessed votes of a verdict, among published records. */
  function Requests(out: seq<Record>): nat {
    if out == [] then 0
    else Requests(out[..|out| - 1]) + if out[|out| - 1].WitnessRequest? then 1 else 0
  }

  function Witnessed(out: seq<Record>, verdict: Verdict): nat {
    if out == [] then 0
    else Witnessed(out[..|out| - 1], verdict) + if CarriesVerdict(out[|out| - 1], verdict) then 1 else 0
  }

  lemma {:induction false} CountsConcat(a: seq<Record>, b: seq<Record>)
    ensures Requests(a + b) == Requests(a) + Requests(b)
    ensures Witnessed(a + b, Agrees) == Witnessed(a, Agrees) + Witnessed(b, Agrees)
    ensures Witnessed(a + b, Dissents) == Witnessed(a, Dissents) + Witnessed(b, Dissents)
  {
    if b == [] {
      assert a + b == a;
    } else {
      assert (a + b)[..|a + b| - 1] == a + b[..|b| - 1];
      CountsConcat(a, b[..|b| - 1]);
    }
  }

  // ---------- conservation ----------

  ghost predicate Conserved(s: State) {
    && s.metrics[ValidatedPublished] == Total(IsValidated, s)
    && s.metrics[DeadLetterRoutes] == Total(IsDeadLetter, s)
    && s.metrics[RetriesScheduled] == Total(Retries, s)
    && s.metrics[Disagreements] == Total(Disagreed, s)
    && s.metrics[SecretaryResponses] == Total(SecretaryCount, s)
    && s.metrics[MessagesProcessed] == Total(ResponseCount, s) + s.metrics[WitnessVerdicts]
    && s.metrics[WitnessRequests] == Requests(s.outbox)
    && s.metrics[WitnessAgrees] == Witnessed(s.outbox, Agrees)
    && s.metrics[WitnessDissents] == Witnessed(s.outbox, Dissents)
  }

  /** The counters an effect adds are the growth it causes in the measures. */
  ghost predicate Balanced(v: Vote, e: Effect) {
    && e.delta[ValidatedPublished] + IsValidated(v) == IsValidated(e.vote)
    && e.delta[DeadLetterRoutes] + IsDeadLetter(v) == IsDeadLetter(e.vote)
    && e.delta[RetriesScheduled] + Retries(v) == Retries(e.vote)
    && e.delta[Disagreements] + Disagreed(v) == Disagreed(e.vote)
    && e.delta[SecretaryResponses] + SecretaryCount(v) == SecretaryCount(e.vote)
    && e.delta[MessagesProcessed] + ResponseCount(v) == ResponseCount(e.vote) + e.delta[WitnessVerdicts]
    && e.delta[WitnessRequests] == Requests(e.out)
    && e.delta[WitnessAgrees] == Witnessed(e.out, Agrees)
    && e.delta[WitnessDissents] == Witnessed(e.out, Dissents)
  }

  lemma Chained(v: Vote, w: Vote, counters: Metrics, e: Effect)
    requires Balanced(v, Effect(w, [], counters)) && Balanced(w, e)
    ensures Balanced(v, Counting(counters, e))
  {
  }

  lemma WitnessRequestBalanced(ok: bool, v: Vote)
    requires !Terminal(v)
    ensures Balanced(v, PublishWitnessRequest(ok, v))
  {
  }

  lemma LegacyVoteBalanced(ok: bool, v: Vote)
    requires !Terminal(v)
    ensures Balanced(v, PublishLegacy(ok, v))
  {
  }

  lemma DeadLetterBalanced(ok: bool, v: Vote, reason: string)
    requires !Terminal(v)
    ensures Balanced(v, PublishDeadLetter(ok, v, reason))
  {
  }

  lemma WitnessedBalanced(ok: bool, v: Vote)
    requires !Terminal(v) && v.observation.Some?
    ensures Balanced(v, PublishWitnessed(ok, v))
  {
  }

  lemma DisagreementBalanced(lim: Limits, ok: bool, v: Vote, reason: string)
    requires !Terminal(v)
    ensures Balanced(v, OnDisagreement(lim, ok, v, reason))
  {
    if v.retryCount >= lim.maxRetries {
      var seen := v.(disagreements := v.disagreements + 1);
      DeadLetterBalanced(ok, seen, reason);
      Chained(v, seen, multiset{Disagreements}, PublishDeadLetter(ok, seen, reason));
    }
  }

  /** Storing a response and checking for consensus accounts for the received counters. */
  lemma StoredSecretaryBalanced(v: Vote, r: SecretaryResponse, reading: Reading)
    requires !Terminal(v)
    ensures var w := Checked(v.(secretaryResponses := v.secretaryResponses.Add(SecretaryKey(r), r)), reading);
            Balanced(v, Effect(w, [], multiset{SecretaryResponses, MessagesProcessed}))
  {
  }

  lemma StoredValidatorBalanced(v: Vote, r: ValidatorResponse, reading: Reading)
    requires !Terminal(v)
    ensures var w := Checked(v.(responses := v.responses.Add(ValidatorKey(r), r)), reading);
            Balanced(v, Effect(w, [], multiset{MessagesProcessed}))
  {
  }

  lemma AgreementBalanced(v: Vote, w: Vote, received: Metrics, e: Effect)
    requires Balanced(v, Effect(w, [], received)) && Balanced(w, e)
    ensures Balanced(v, Counting(received + multiset{ConsensusReached}, e))
  {
  }

  lemma SecretaryBalanced(lim: Limits, ok: bool, v: Vote, r: SecretaryResponse)
    ensures Balanced(v, OnSecretary(lim, ok, v, r))
  {
    if !Terminal(v) && SecretaryKey(r) !in v.secretaryResponses.vals {
      var added := v.(secretaryResponses := v.secretaryResponses.Add(SecretaryKey(r), r));
      var reading := ReadSecretaries(added.secretaryResponses.order);
      var checked := Checked(added, reading);
      var received := multiset{SecretaryResponses, MessagesProcessed};
      StoredSecretaryBalanced(v, r, reading);
      if reading.Agreed? {
        WitnessRequestBalanced(ok, checked);
        AgreementBalanced(v, checked, received, PublishWitnessRequest(ok, checked));
      } else if checked.status == Disagreement {
        DisagreementBalanced(lim, ok, checked, SECRETARY_REASON);
        Chained(v, checked, received, OnDisagreement(lim, ok, checked, SECRETARY_REASON));
      }
    }
  }

  lemma LegacyBalanced(lim: Limits, ok: bool, v: Vote, r: ValidatorResponse)
    ensures Balanced(v, OnLegacy(lim, ok, v, r))
  {
    if !Terminal(v) && ValidatorKey(r) !in v.responses.vals {
      var added := v.(responses := v.responses.Add(ValidatorKey(r), r));
      var reading := ReadValidators(added.responses.order, lim.Required());
      var checked := Checked(added, reading);
      var received := multiset{MessagesProcessed};
      StoredValidatorBalanced(v, r, reading);
      if reading.Agreed? {
        LegacyVoteBalanced(ok, checked);
        AgreementBalanced(v, checked, received, PublishLegacy(ok, checked));
      } else if checked.status == Disagreement {
        DisagreementBalanced(lim, ok, checked, LEGACY_REASON);
        Chained(v, checked, received, OnDisagreement(lim, ok, checked, LEGACY_REASON));
      }
    }
  }

  lemma WitnessBalanced(ok: bool, v: Vote, o: WitnessObservation)
    ensures Balanced(v, OnWitness(ok, v, o))
  {
    if v.status == WitnessPending {
      var observed := v.(observation := Some(o));
      WitnessedBalanced(ok, observed);
      Chained(v, observed, multiset{WitnessVerdicts, MessagesProcessed}, PublishWitnessed(ok, observed));
    }
  }

  lemma ReactBalanced(lim: Limits, ok: bool, v: Vote, b: Body)
    ensures Balanced(v, React(lim, ok, v, b))
  {
    match b
    case SecretaryResult(_, _, _, _, _, r) => SecretaryBalanced(lim, ok, v, r);
    case LegacyResult(_, _, r) => LegacyBalanced(lim, ok, v, r);
    case WitnessResult(_, o) => WitnessBalanced(ok, v, o);
    case Undecodable =>
  }

  /** A tracked vote, or one just created, which contributes nothing yet. */
  ghost predicate Current(s: State, id: string, v: Vote) {
    if id in s.votes then s.votes[id] == v
    else v == NewVote(v.voteId, v.sessionId, v.archonId, v.rawResponse, v.motionText, v.optimisticChoice)
  }

  /** A counter that equals the total of a measure, and grows by the measure's growth, still
      equals it afterwards. */
  lemma OneConserved(f: Vote -> nat, s: State, id: string, v: Vote, e: Effect, count: nat, growth: nat)
    requires Listed(s) && Current(s, id, v) && (id !in s.votes ==> f(v) == 0)
    requires count == Total(f, s) && growth + f(v) == f(e.vote)
    ensures count + growth == Total(f, Apply(s, id, e))
  {
    TotalApply(f, s, id, e);
  }

  lemma OutcomesConserved(s: State, id: string, v: Vote, e: Effect)
    requires Listed(s) && Conserved(s) && Balanced(v, e) && Current(s, id, v)
    ensures var s' := Apply(s, id, e);
            && s'.metrics[ValidatedPublished] == Total(IsValidated, s') && s'.metrics[DeadLetterRoutes] == Total(IsDeadLetter, s')
  {
    OneConserved(IsValidated, s, id, v, e, s.metrics[ValidatedPublished], e.delta[ValidatedPublished]);
    OneConserved(IsDeadLetter, s, id, v, e, s.metrics[DeadLetterRoutes], e.delta[DeadLetterRoutes]);
  }

  lemma RetriesConserved(s: State, id: string, v: Vote, e: Effect)
    requires Listed(s) && Conserved(s) && Balanced(v, e) && Current(s, id, v)
    ensures var s' := Apply(s, id, e);
            && s'.metrics[RetriesScheduled] == Total(Retries, s') && s'.metrics[Disagreements] == Total(Disagreed, s')
  {
    OneConserved(Retries, s, id, v, e, s.metrics[RetriesScheduled], e.delta[RetriesScheduled]);
    OneConserved(Disagreed, s, id, v, e, s.metrics[Disagreements], e.delta[Disagreements]);
  }

  lemma ResponsesConserved(s: State, id: string, v: Vote, e: Effect)
    requires Listed(s) && Conserved(s) && Balanced(v, e) && Current(s, id, v)
    ensures var s' := Apply(s, id, e);
            && s'.metrics[SecretaryResponses] == Total(SecretaryCount, s')
            && s'.metrics[MessagesProcessed] == Total(ResponseCount, s') + s'.metrics[WitnessVerdicts]
  {
    OneConserved(SecretaryCount, s, id, v, e, s.metrics[SecretaryResponses], e.delta[SecretaryResponses]);
    TotalApply(ResponseCount, s, id, e);
    assert id !in s.votes ==> ResponseCount(v) == 0;
  }

  lemma RecordsConserved(s: State, id: string, v: Vote, e: Effect)
    requires Conserved(s) && Balanced(v, e)
    ensures var s' := Apply(s, id, e);
            && s'.metrics[WitnessRequests] == Requests(s'.outbox)
            && s'.metrics[WitnessAgrees] == Witnessed(s'.outbox, Agrees)
            && s'.metrics[WitnessDissents] == Witnessed(s'.outbox, Dissents)
  {
    CountsConcat(s.outbox, e.out);
  }

  lemma ApplyConserves(s: State, id: string, v: Vote, e: Effect)
    requires Listed(s) && Conserved(s) && Balanced(v, e) && Current(s, id, v)
    ensures Listed(Apply(s, id, e)) && Conserved(Apply(s, id, e))
  {
    ListedApply(s, id, e);
    OutcomesConserved(s, id, v, e);
    RetriesConserved(s, id, v, e);
    ResponsesConserved(s, id, v, e);
    RecordsConserved(s, id, v, e);
  }

  lemma AddressedIsCurrent(s: State, b: Body)
    requires !b.Undecodable? && Addressed(Lookup(s, b.voteId), b).Some?
    ensures Current(s, b.voteId, Addressed(Lookup(s, b.voteId), b).value)
  {
  }

  lemma DeliverConserves(cfg: Config, oracle: Oracle, s: State, b: Body)
    requires Listed(s) && Conserved(s)
    ensures Listed(Deliver(cfg, oracle, s, b)) && Conserved(Deliver(cfg, oracle, s, b))
  {
    if !b.Undecodable? {
      var v := Addressed(Lookup(s, b.voteId), b);
      if v.Some? {
        ReactBalanced(cfg.limits, Answer(oracle, s, v.value), v.value, b);
        AddressedIsCurrent(s, b);
        ApplyConserves(s, b.voteId, v.value, React(cfg.limits, Answer(oracle, s, v.value), v.value, b));
      }
    }
  }

  lemma StepConserves(cfg: Config, oracle: Oracle, s: State, m: Message)
    requires Listed(s) && Conserved(s)
    ensures Listed(Step(cfg, oracle, s, m)) && Conserved(Step(cfg, oracle, s, m))
  {
    if cfg.Accepts(m.header) {
      DeliverConserves(cfg, oracle, s.(metrics := s.metrics + multiset{MessagesConsumed}), m.body);
    }
  }

  lemma {:induction false} RunConserves(cfg: Config, oracle: Oracle, s: State, log: seq<Message>)
    requires Listed(s) && Conserved(s)
    ensures Listed(Run(cfg, oracle, s, log)) && Conserved(Run(cfg, oracle, s, log))
    decreases |log|
  {
    if log != [] {
      StepConserves(cfg, oracle, s, log[0]);
      RunConserves(cfg, oracle, Step(cfg, oracle, s, log[0]), log[1..]);
    }
  }

  /** In every reachable state the counters are conserved. */
  lemma Conservation(cfg: Config, oracle: Oracle, log: seq<Message>)
    ensures Listed(Run(cfg, oracle, EMPTY, log)) && Conserved(Run(cfg, oracle, EMPTY, log))
  {
    RunConserves(cfg, oracle, EMPTY, log);
  }

  lemma {:induction false} PendingCount(ids: seq<string>, votes: map<string, Vote>)
    requires forall i :: 0 <= i < |ids| ==> ids[i] in votes
    ensures |PendingIds(ids, votes)| + Sum(IsValidated, ids, votes) + Sum(IsDeadLetter, ids, votes) == |ids|
  {
    if ids != [] {
      PendingCount(ids[..|ids| - 1], votes);
    }
  }

  /** Pending votes are the tracked ones less those counted as validated or dead-lettered. */
  lemma PendingVotesConserved(cfg: Config, oracle: Oracle, log: seq<Message>)
    ensures var s := Run(cfg, oracle, EMPTY, log);
            (forall i :: 0 <= i < |s.ids| ==> s.ids[i] in s.votes) &&
            |PendingIds(s.ids, s.votes)| == |s.votes| - s.metrics[ValidatedPublished] - s.metrics[DeadLetterRoutes]
  {
    var s := Run(cfg, oracle, EMPTY, log);
    Conservation(cfg, oracle, log);
    PendingCount(s.ids, s.votes);
    DistinctCount(s.ids);
    assert (set id | id in s.ids) == s.votes.Keys;
  }

  lemma {:induction false} PendingMembers(ids: seq<string>, votes: map<string, Vote>, id: string)
    requires forall i :: 0 <= i < |ids| ==> ids[i] in votes
    ensures id in PendingIds(ids, votes) <==>
            id in ids && votes[id].status != Validated && votes[id].status != DeadLetter
  {
    if ids != [] {
      PendingMembers(ids[..|ids| - 1], votes, id);
      assert id in ids <==> id in ids[..|ids| - 1] || id == ids[|ids| - 1];
    }
  }

  /** One id stands before another. */
  ghost predicate Precedes(ids: seq<string>, a: string, b: string) {
    exists x, y :: 0 <= x < y < |ids| && ids[x] == a && ids[y] == b
  }

  ghost predicate InOrderOf(ids: seq<string>, picked: seq<string>) {
    forall i, j :: 0 <= i < j < |picked| ==> Precedes(ids, picked[i], picked[j])
  }

  lemma PrecedesLonger(ids: seq<string>, last: string, a: string, b: string)
    ensures Precedes(ids, a, b) ==> Precedes(ids + [last], a, b)
    ensures a in ids ==> Precedes(ids + [last], a, last)
  {
    var longer := ids + [last];
    if Precedes(ids, a, b) {
      var x, y :| 0 <= x < y < |ids| && ids[x] == a && ids[y] == b;
      assert longer[x] == a && longer[y] == b;
    }
    if a in ids {
      var x :| 0 <= x < |ids| && ids[x] == a;
      assert longer[x] == a && longer[|ids|] == last;
    }
  }

  lemma {:induction false} PendingInOrder(ids: seq<string>, votes: map<string, Vote>)
    requires forall i :: 0 <= i < |ids| ==> ids[i] in votes
    ensures InOrderOf(ids, PendingIds(ids, votes))
  {
    if ids != [] {
      var front, last := ids[..|ids| - 1], ids[|ids| - 1];
      PendingInOrder(front, votes);
      SplitLast(ids);
      var before, all := PendingIds(front, votes), PendingIds(ids, votes);
      forall i, j | 0 <= i < j < |all| ensures Precedes(ids, all[i], all[j]) {
        PrecedesLonger(front, last, all[i], all[j]);
        if j < |before| {
          assert Precedes(front, before[i], before[j]);
        } else {
          assert before[i] in before;
          PendingMembers(front, votes, all[i]);
        }
      }
    }
  }

  /** In every reachable state the pending ids are those of the votes neither validated nor
      dead-lettered, each once, in the order in which the votes were first seen. */
  lemma PendingExactly(cfg: Config, oracle: Oracle, log: seq<Message>)
    ensures var s := Run(cfg, oracle, EMPTY, log);
            && (forall i :: 0 <= i < |s.ids| ==> s.ids[i] in s.votes)
            && (forall id :: id in PendingIds(s.ids, s.votes) <==>
                  id in s.votes && s.votes[id].status != Validated && s.votes[id].status != DeadLetter)
            && NoDuplicates(s.ids) && InOrderOf(s.ids, PendingIds(s.ids, s.votes))
  {
    var s := Run(cfg, oracle, EMPTY, log);
    Conservation(cfg, oracle, log);
    forall id ensures id in PendingIds(s.ids, s.votes) <==>
                      id in s.votes && s.votes[id].status != Validated && s.votes[id].status != DeadLetter {
      PendingMembers(s.ids, s.votes, id);
    }
    PendingInOrder(s.ids, s.votes);
  }
}
