/** How the aggregator depends on its log. For every publish-outcome oracle, repeated
    deliveries change nothing and filtered sessions might as well be absent. Votes are
    independent of one another when the answers to one vote's publish attempts do not depend
    on the attempts made for other votes; answers shared by all votes couple them. */
module ConsensusReplay {
  import opened Prelude
  import opened ConsensusModel

  /** Every tracked vote sits under its own id. */
  ghost predicate Keyed(s: State) {
    forall id :: id in s.votes ==> s.votes[id].voteId == id
  }

  /** What an evaluation never touches: the vote's identity and its stored responses. */
  ghost predicate Framed(v: Vote, e: Effect) {
    && e.vote.voteId == v.voteId
    && e.vote.responses == v.responses
    && e.vote.secretaryResponses == v.secretaryResponses
    && forall r :: r in e.out ==> r.voteId == v.voteId
  }

  lemma ConcludeFramed(lim: Limits, ok: bool, v: Vote, reading: Reading)
    ensures Framed(v, ConcludeSecretary(lim, ok, v, reading))
    ensures Framed(v, ConcludeLegacy(lim, ok, v, reading))
  {
  }

  /** A vote keeps its id and all it publishes carries that id; a terminal vote never changes
      and publishes nothing more; stored responses are never dropped, and an accepted one is
      stored. */
  lemma ReactFrame(lim: Limits, ok: bool, v: Vote, b: Body)
    ensures var e := React(lim, ok, v, b);
            && e.vote.voteId == v.voteId
            && (forall r :: r in e.out ==> r.voteId == v.voteId)
            && (Terminal(v) ==> e.vote == v && e.out == [])
            && (forall k :: k in v.responses.vals ==> k in e.vote.responses.vals)
            && (forall k :: k in v.secretaryResponses.vals ==> k in e.vote.secretaryResponses.vals)
            && (!Terminal(v) && b.SecretaryResult? ==> SecretaryKey(b.response) in e.vote.secretaryResponses.vals)
            && (!Terminal(v) && b.LegacyResult? ==> ValidatorKey(b.legacy) in e.vote.responses.vals)
  {
    match b
    case SecretaryResult(_, _, _, _, _, r) =>
      var added := v.(secretaryResponses := v.secretaryResponses.Add(SecretaryKey(r), r));
      ConcludeFramed(lim, ok, added, ReadSecretaries(added.secretaryResponses.order));
    case LegacyResult(_, _, r) =>
      var added := v.(responses := v.responses.Add(ValidatorKey(r), r));
      ConcludeFramed(lim, ok, added, ReadValidators(added.responses.order, lim.Required()));
    case _ =>
  }

  lemma ApplyKeyed(s: State, id: string, e: Effect)
    requires Keyed(s) && e.vote.voteId == id
    ensures Keyed(Apply(s, id, e))
  {
  }

  lemma StepKeyed(cfg: Config, oracle: Oracle, s: State, m: Message)
    requires Keyed(s)
    ensures Keyed(Step(cfg, oracle, s, m))
  {
    if cfg.Accepts(m.header) && !m.body.Undecodable? {
      var counted := s.(metrics := s.metrics + multiset{MessagesConsumed});
      var v := Addressed(Lookup(s, m.body.voteId), m.body);
      if v.Some? {
        var ok := Answer(oracle, counted, v.value);
        ReactFrame(cfg.limits, ok, v.value, m.body);
        ApplyKeyed(counted, m.body.voteId, React(cfg.limits, ok, v.value, m.body));
      }
    }
  }

  lemma DeliverEffect(cfg: Config, oracle: Oracle, s: State, b: Body, v: Vote)
    requires !b.Undecodable? && Addressed(Lookup(s, b.voteId), b) == Some(v)
    ensures Deliver(cfg, oracle, s, b) == Apply(s, b.voteId, React(cfg.limits, Answer(oracle, s, v), v, b))
  {
  }

  lemma AppliedFields(s: State, s': State, id: string, e: Effect)
    requires s' == Apply(s.(metrics := s.metrics + multiset{MessagesConsumed}), id, e)
    ensures s'.votes == s.votes[id := e.vote] && s'.outbox == s.outbox + e.out
    ensures s'.ids == if id in s.votes then s.ids else s.ids + [id]
    ensures s'.metrics == s.metrics + multiset{MessagesConsumed} + e.delta
    ensures s'.metrics[PublishAttempts] == s.metrics[PublishAttempts] + e.delta[PublishAttempts]
  {
  }

  lemma AnswerCounted(oracle: Oracle, s: State, v: Vote)
    ensures Answer(oracle, s.(metrics := s.metrics + multiset{MessagesConsumed}), v) == Answer(oracle, s, v)
  {
    assert (s.metrics + multiset{MessagesConsumed})[PublishAttempts] == s.metrics[PublishAttempts];
  }

  /** An accepted message about a vote lets that vote react. */
  lemma StepEffect(cfg: Config, oracle: Oracle, s: State, m: Message, v: Vote)
    requires cfg.Accepts(m.header) && !m.body.Undecodable?
    requires Addressed(Lookup(s, m.body.voteId), m.body) == Some(v)
    ensures var s', e := Step(cfg, oracle, s, m), React(cfg.limits, Answer(oracle, s, v), v, m.body);
            && s'.votes == s.votes[m.body.voteId := e.vote] && s'.outbox == s.outbox + e.out
            && s'.ids == (if m.body.voteId in s.votes then s.ids else s.ids + [m.body.voteId])
            && s'.metrics == s.metrics + multiset{MessagesConsumed} + e.delta
            && s'.metrics[PublishAttempts] == s.metrics[PublishAttempts] + e.delta[PublishAttempts]
  {
    var counted := s.(metrics := s.metrics + multiset{MessagesConsumed});
    DeliverEffect(cfg, oracle, counted, m.body, v);
    AnswerCounted(oracle, s, v);
    AppliedFields(s, Step(cfg, oracle, s, m), m.body.voteId, React(cfg.limits, Answer(oracle, s, v), v, m.body));
  }

  lemma {:induction false} RunKeyed(cfg: Config, oracle: Oracle, s: State, log: seq<Message>)
    requires Keyed(s)
    ensures Keyed(Run(cfg, oracle, s, log))
    decreases |log|
  {
    if log != [] {
      StepKeyed(cfg, oracle, s, log[0]);
      RunKeyed(cfg, oracle, Step(cfg, oracle, s, log[0]), log[1..]);
    }
  }

  lemma {:induction false} RunConcat(cfg: Config, oracle: Oracle, s: State, a: seq<Message>, b: seq<Message>)
    ensures Run(cfg, oracle, s, a + b) == Run(cfg, oracle, Run(cfg, oracle, s, a), b)
    decreases |a|
  {
    if a == [] {
      assert a + b == b;
    } else {
      assert (a + b)[0] == a[0] && (a + b)[1..] == a[1..] + b;
      RunConcat(cfg, oracle, Step(cfg, oracle, s, a[0]), a[1..], b);
    }
  }

  // ---------- locality ----------

  /** One vote seen on its own: its state and the records published about it. */
  datatype Trace = Trace(vote: Option<Vote>, out: seq<Record>)

  function RecordsOf(outbox: seq<Record>, id: string): seq<Record> {
    if outbox == [] then [] else
      var last := outbox[|outbox| - 1];
      RecordsOf(outbox[..|outbox| - 1], id) + if last.voteId == id then [last] else []
  }

  lemma {:induction false} RecordsOfConcat(a: seq<Record>, b: seq<Record>, id: string)
    ensures RecordsOf(a + b, id) == RecordsOf(a, id) + RecordsOf(b, id)
  {
    if b == [] {
      assert a + b == a;
    } else {
      assert (a + b)[..|a + b| - 1] == a + b[..|b| - 1];
      RecordsOfConcat(a, b[..|b| - 1], id);
    }
  }

  lemma {:induction false} RecordsOfOne(out: seq<Record>, owner: string, id: string)
    requires forall r :: r in out ==> r.voteId == owner
    ensures RecordsOf(out, id) == if owner == id then out else []
  {
    if out != [] {
      var front, last := out[..|out| - 1], out[|out| - 1];
      assert last in out && forall r :: r in front ==> r in out;
      RecordsOfOne(front, owner, id);
      SplitLast(out);
    }
  }

  function Project(s: State, id: string): Trace {
    Trace(Lookup(s, id), RecordsOf(s.outbox, id))
  }

  /** Publish attempts made for the vote so far. */
  function Tried(t: Trace): nat {
    if t.vote.Some? then t.vote.value.attempts else 0
  }

  function TraceStep(lim: Limits, ok: bool, t: Trace, b: Body): Trace {
    var v := Addressed(t.vote, b);
    if v.None? then t else
      var e := React(lim, ok, v.value, b);
      Trace(Some(e.vote), t.out + e.out)
  }

  /** The vote's messages on their own; `answers(n)` answers its n-th publish attempt. */
  function TraceRun(lim: Limits, answers: nat -> bool, t: Trace, log: seq<Message>): Trace
    decreases |log|
  {
    if log == [] then t
    else TraceRun(lim, answers, TraceStep(lim, answers(Tried(t)), t, log[0].body), log[1..])
  }

  /** The message reaches the vote: it passes the session filter and names the vote. */
  predicate About(cfg: Config, m: Message, id: string) {
    cfg.Accepts(m.header) && !m.body.Undecodable? && m.body.voteId == id
  }

  function Own(cfg: Config, log: seq<Message>, id: string): seq<Message> {
    if log == [] then []
    else (if About(cfg, log[0], id) then [log[0]] else []) + Own(cfg, log[1..], id)
  }

  lemma ProjectApply(s: State, owner: string, e: Effect, id: string)
    requires forall r :: r in e.out ==> r.voteId == owner
    ensures Project(Apply(s, owner, e), id) ==
            if owner == id then Trace(Some(e.vote), RecordsOf(s.outbox, id) + e.out) else Project(s, id)
  {
    RecordsOfConcat(s.outbox, e.out, id);
    RecordsOfOne(e.out, owner, id);
  }

  /** The answer the vote's next publish attempt would get. */
  function NextAnswer(oracle: Oracle, s: State, id: string): bool {
    oracle(id, Tried(Project(s, id)), s.metrics[PublishAttempts])
  }

  lemma ProjectDeliver(cfg: Config, oracle: Oracle, s: State, b: Body, id: string)
    requires Keyed(s)
    ensures Project(Deliver(cfg, oracle, s, b), id) ==
            if !b.Undecodable? && b.voteId == id
            then TraceStep(cfg.limits, NextAnswer(oracle, s, id), Project(s, id), b)
            else Project(s, id)
  {
    if !b.Undecodable? {
      var v := Addressed(Lookup(s, b.voteId), b);
      if v.Some? {
        var ok := Answer(oracle, s, v.value);
        ReactFrame(cfg.limits, ok, v.value, b);
        ProjectApply(s, b.voteId, React(cfg.limits, ok, v.value, b), id);
      }
    }
  }

  lemma ProjectStep(cfg: Config, oracle: Oracle, s: State, m: Message, id: string)
    requires Keyed(s)
    ensures Project(Step(cfg, oracle, s, m), id) ==
            if About(cfg, m, id) then TraceStep(cfg.limits, NextAnswer(oracle, s, id), Project(s, id), m.body)
            else Project(s, id)
  {
    if cfg.Accepts(m.header) {
      var counted := s.(metrics := s.metrics + multiset{MessagesConsumed});
      assert NextAnswer(oracle, counted, id) == NextAnswer(oracle, s, id) by {
        assert counted.metrics[PublishAttempts] == s.metrics[PublishAttempts];
      }
      ProjectDeliver(cfg, oracle, counted, m.body, id);
    }
  }

  /** The answers to one vote's publish attempts do not depend on other votes' attempts. */
  ghost predicate PerVote(oracle: Oracle) {
    forall id, n, k :: oracle(id, n, k) == oracle(id, n, 0)
  }

  ghost predicate Reliable(oracle: Oracle) {
    forall id, n, k :: oracle(id, n, k)
  }

  /** The answers given to one vote. */
  function AnswersTo(oracle: Oracle, id: string): nat -> bool {
    (n: nat) => oracle(id, n, 0)
  }

  /** With answers given vote by vote, as by a reliable broker, the fate of a vote in any run
      is the fate it has when its own messages run alone. */
  lemma {:induction false} Locality(cfg: Config, oracle: Oracle, s: State, log: seq<Message>, id: string)
    requires Keyed(s) && PerVote(oracle)
    ensures Project(Run(cfg, oracle, s, log), id) ==
            TraceRun(cfg.limits, AnswersTo(oracle, id), Project(s, id), Own(cfg, log, id))
    decreases |log|
  {
    if log != [] {
      var s', m := Step(cfg, oracle, s, log[0]), log[0];
      ProjectStep(cfg, oracle, s, m, id);
      StepKeyed(cfg, oracle, s, m);
      Locality(cfg, oracle, s', log[1..], id);
      var rest := Own(cfg, log[1..], id);
      if About(cfg, m, id) {
        assert Own(cfg, log, id)[0] == m && Own(cfg, log, id)[1..] == rest;
      } else {
        assert Own(cfg, log, id) == rest;
      }
    }
  }

  /** Runs whose logs agree vote by vote end with the same vote map and, for each vote, the
      same published records: messages about different votes commute. */
  lemma InterleavingIrrelevant(cfg: Config, oracle: Oracle, s: State, log: seq<Message>, log': seq<Message>)
    requires Keyed(s) && PerVote(oracle)
    requires forall id :: Own(cfg, log, id) == Own(cfg, log', id)
    ensures Run(cfg, oracle, s, log).votes == Run(cfg, oracle, s, log').votes
    ensures forall id :: RecordsOf(Run(cfg, oracle, s, log).outbox, id)
                      == RecordsOf(Run(cfg, oracle, s, log').outbox, id)
  {
    var a, b := Run(cfg, oracle, s, log), Run(cfg, oracle, s, log');
    forall id ensures Project(a, id) == Project(b, id) {
      Locality(cfg, oracle, s, log, id);
      Locality(cfg, oracle, s, log', id);
    }
    forall id ensures id in a.votes <==> id in b.votes
              ensures id in a.votes && id in b.votes ==> a.votes[id] == b.votes[id] {
      assert Project(a, id).vote == Project(b, id).vote;
    }
    forall id ensures RecordsOf(a.outbox, id) == RecordsOf(b.outbox, id) {
      assert Project(a, id).out == Project(b, id).out;
    }
  }

  /** The sublog one consumer sees when votes are assigned to partitions. */
  function PartitionOf(assign: string -> nat, log: seq<Message>, p: nat): seq<Message> {
    if log == [] then []
    else (if !log[0].body.Undecodable? && assign(log[0].body.voteId) == p then [log[0]] else [])
         + PartitionOf(assign, log[1..], p)
  }

  lemma {:induction false} OwnOfPartition(cfg: Config, assign: string -> nat, log: seq<Message>, id: string)
    ensures Own(cfg, PartitionOf(assign, log, assign(id)), id) == Own(cfg, log, id)
  {
    if log != [] {
      OwnOfPartition(cfg, assign, log[1..], id);
      var rest := PartitionOf(assign, log[1..], assign(id));
      assert ([log[0]] + rest)[1..] == rest;
      assert [] + rest == rest;
    }
  }

  /** Partitioned consumption: each vote ends the same in its own partition's run. */
  lemma PartitioningIrrelevant(cfg: Config, oracle: Oracle, assign: string -> nat, log: seq<Message>, id: string)
    requires PerVote(oracle)
    ensures Project(Run(cfg, oracle, EMPTY, PartitionOf(assign, log, assign(id))), id)
         == Project(Run(cfg, oracle, EMPTY, log), id)
  {
    OwnOfPartition(cfg, assign, log, id);
    Locality(cfg, oracle, EMPTY, PartitionOf(assign, log, assign(id)), id);
    Locality(cfg, oracle, EMPTY, log, id);
  }

  // ---------- every single run answers vote by vote ----------

  /** At most one publish attempt is asked for, and it is counted; what asks for none does not
      depend on the answer it would get. */
  ghost predicate AskedOnce(v: Vote, e: Effect, e': Effect) {
    && e.vote.attempts == v.attempts + e.delta[PublishAttempts]
    && e.delta[PublishAttempts] <= 1
    && (e.delta[PublishAttempts] == 0 ==> e' == e)
  }

  lemma DisagreementAskedOnce(lim: Limits, ok: bool, v: Vote, reason: string)
    ensures AskedOnce(v, OnDisagreement(lim, ok, v, reason), OnDisagreement(lim, !ok, v, reason))
  {
  }

  lemma CountingAskedOnce(v: Vote, w: Vote, counters: Metrics, e: Effect, e': Effect)
    requires AskedOnce(w, e, e') && v.attempts == w.attempts && counters[PublishAttempts] == 0
    ensures AskedOnce(v, Counting(counters, e), Counting(counters, e'))
  {
  }

  lemma SecretaryAskedOnce(lim: Limits, ok: bool, v: Vote, reading: Reading)
    ensures AskedOnce(v, ConcludeSecretary(lim, ok, v, reading), ConcludeSecretary(lim, !ok, v, reading))
  {
    var checked, received := Checked(v, reading), multiset{SecretaryResponses, MessagesProcessed};
    if reading.Agreed? {
      CountingAskedOnce(v, checked, received + multiset{ConsensusReached},
                        PublishWitnessRequest(ok, checked), PublishWitnessRequest(!ok, checked));
    } else if checked.status == Disagreement {
      DisagreementAskedOnce(lim, ok, checked, SECRETARY_REASON);
      CountingAskedOnce(v, checked, received, OnDisagreement(lim, ok, checked, SECRETARY_REASON),
                        OnDisagreement(lim, !ok, checked, SECRETARY_REASON));
    }
  }

  lemma LegacyAskedOnce(lim: Limits, ok: bool, v: Vote, reading: Reading)
    ensures AskedOnce(v, ConcludeLegacy(lim, ok, v, reading), ConcludeLegacy(lim, !ok, v, reading))
  {
    var checked, received := Checked(v, reading), multiset{MessagesProcessed};
    if reading.Agreed? {
      CountingAskedOnce(v, checked, received + multiset{ConsensusReached},
                        PublishLegacy(ok, checked), PublishLegacy(!ok, checked));
    } else if checked.status == Disagreement {
      DisagreementAskedOnce(lim, ok, checked, LEGACY_REASON);
      CountingAskedOnce(v, checked, received, OnDisagreement(lim, ok, checked, LEGACY_REASON),
                        OnDisagreement(lim, !ok, checked, LEGACY_REASON));
    }
  }

  lemma WitnessAskedOnce(ok: bool, v: Vote, o: WitnessObservation)
    ensures AskedOnce(v, OnWitness(ok, v, o), OnWitness(!ok, v, o))
  {
    var observed := v.(observation := Some(o));
    CountingAskedOnce(v, observed, multiset{WitnessVerdicts, MessagesProcessed},
                      PublishWitnessed(ok, observed), PublishWitnessed(!ok, observed));
  }

  lemma OnSecretaryAskedOnce(lim: Limits, ok: bool, v: Vote, r: SecretaryResponse)
    ensures AskedOnce(v, OnSecretary(lim, ok, v, r), OnSecretary(lim, !ok, v, r))
  {
    if !Terminal(v) && SecretaryKey(r) !in v.secretaryResponses.vals {
      var added := v.(secretaryResponses := v.secretaryResponses.Add(SecretaryKey(r), r));
      SecretaryAskedOnce(lim, ok, added, ReadSecretaries(added.secretaryResponses.order));
    }
  }

  lemma OnLegacyAskedOnce(lim: Limits, ok: bool, v: Vote, r: ValidatorResponse)
    ensures AskedOnce(v, OnLegacy(lim, ok, v, r), OnLegacy(lim, !ok, v, r))
  {
    if !Terminal(v) && ValidatorKey(r) !in v.responses.vals {
      var added := v.(responses := v.responses.Add(ValidatorKey(r), r));
      LegacyAskedOnce(lim, ok, added, ReadValidators(added.responses.order, lim.Required()));
    }
  }

  lemma ReactAskedOnce(lim: Limits, ok: bool, v: Vote, b: Body)
    ensures AskedOnce(v, React(lim, ok, v, b), React(lim, !ok, v, b))
  {
    match b
    case SecretaryResult(_, _, _, _, _, r) => OnSecretaryAskedOnce(lim, ok, v, r);
    case LegacyResult(_, _, r) => OnLegacyAskedOnce(lim, ok, v, r);
    case WitnessResult(_, o) => WitnessAskedOnce(ok, v, o);
    case Undecodable =>
  }

  lemma AttemptsGrow(cfg: Config, oracle: Oracle, s: State, m: Message, id: string)
    requires Keyed(s)
    ensures Tried(Project(Step(cfg, oracle, s, m), id)) >= Tried(Project(s, id))
  {
    ProjectStep(cfg, oracle, s, m, id);
    var t := Project(s, id);
    var v := Addressed(t.vote, m.body);
    if v.Some? {
      ReactAskedOnce(cfg.limits, NextAnswer(oracle, s, id), v.value, m.body);
    }
  }

  /** The answers agree on every attempt still to be made. */
  ghost predicate AgreeFrom(s: State, oracle: Oracle, oracle': Oracle) {
    forall id, n, k :: n >= Tried(Project(s, id)) ==> oracle(id, n, k) == oracle'(id, n, k)
  }

  lemma {:induction false} RunAgrees(cfg: Config, oracle: Oracle, oracle': Oracle, s: State, log: seq<Message>)
    requires Keyed(s) && AgreeFrom(s, oracle, oracle')
    ensures Run(cfg, oracle, s, log) == Run(cfg, oracle', s, log)
    decreases |log|
  {
    if log != [] {
      var s' := Step(cfg, oracle, s, log[0]);
      assert s' == Step(cfg, oracle', s, log[0]) by {
        assert forall id :: Tried(Project(s, id)) == Tried(Project(s.(metrics := s.metrics + multiset{MessagesConsumed}), id));
      }
      StepKeyed(cfg, oracle, s, log[0]);
      forall id, n, k | n >= Tried(Project(s', id)) ensures oracle(id, n, k) == oracle'(id, n, k) {
        AttemptsGrow(cfg, oracle, s, log[0], id);
      }
      RunAgrees(cfg, oracle, oracle', s', log[1..]);
    }
  }

  /** The oracle with one vote's n-th attempt answered `ok`. */
  function Answering(oracle: Oracle, id: string, n: nat, ok: bool): Oracle {
    (i: string, j: nat, k: nat) => if i == id && j == n then ok else oracle(i, j, k)
  }

  /** Two steps agree if the answer asked for, if any, is the same. */
  lemma SameStep(cfg: Config, oracle: Oracle, oracle': Oracle, s: State, m: Message, v: Vote)
    requires !m.body.Undecodable? && Addressed(Lookup(s, m.body.voteId), m.body) == Some(v)
    requires var ok, ok' := Answer(oracle, s, v), Answer(oracle', s, v);
             React(cfg.limits, ok, v, m.body) == React(cfg.limits, ok', v, m.body)
    ensures Step(cfg, oracle, s, m) == Step(cfg, oracle', s, m)
  {
    var counted := s.(metrics := s.metrics + multiset{MessagesConsumed});
    assert counted.metrics[PublishAttempts] == s.metrics[PublishAttempts];
    assert Lookup(counted, m.body.voteId) == Lookup(s, m.body.voteId);
  }

  /** One step, when the rest of the run already answers vote by vote. */
  lemma FixStep(cfg: Config, oracle: Oracle, rest: Oracle, s: State, m: Message) returns (fixed: Oracle)
    requires Keyed(s) && PerVote(rest)
    ensures PerVote(fixed)
    ensures Step(cfg, fixed, s, m) == Step(cfg, oracle, s, m)
    ensures AgreeFrom(Step(cfg, oracle, s, m), fixed, rest)
  {
    fixed := rest;
    if cfg.Accepts(m.header) && !m.body.Undecodable? {
      var id := m.body.voteId;
      var v := Addressed(Lookup(s, id), m.body);
      if v.Some? {
        var n, ok := v.value.attempts, Answer(oracle, s, v.value);
        assert v.value.voteId == id && n == Tried(Project(s, id));
        ReactAskedOnce(cfg.limits, ok, v.value, m.body);
        ProjectStep(cfg, oracle, s, m, id);
        if React(cfg.limits, ok, v.value, m.body).vote.attempts > n {
          fixed := Answering(rest, id, n, ok);
        }
        SameStep(cfg, fixed, oracle, s, m, v.value);
      }
    }
  }

  lemma {:induction false} FixRun(cfg: Config, oracle: Oracle, s: State, log: seq<Message>) returns (fixed: Oracle)
    requires Keyed(s)
    ensures PerVote(fixed) && Run(cfg, fixed, s, log) == Run(cfg, oracle, s, log)
    decreases |log|
  {
    if log == [] {
      fixed := (i, j, k) => true;
    } else {
      var s' := Step(cfg, oracle, s, log[0]);
      StepKeyed(cfg, oracle, s, log[0]);
      var rest := FixRun(cfg, oracle, s', log[1..]);
      fixed := FixStep(cfg, oracle, rest, s, log[0]);
      RunAgrees(cfg, fixed, rest, s', log[1..]);
    }
  }

  /** Whatever the broker and the breaker do, a run is one of a broker that answers vote by
      vote: the fate of a vote is a function of its own messages and of the answers its own
      attempts got. */
  lemma EveryRunIsPerVote(cfg: Config, oracle: Oracle, log: seq<Message>)
    ensures exists fixed: Oracle ::
              && PerVote(fixed) && Run(cfg, fixed, EMPTY, log) == Run(cfg, oracle, EMPTY, log)
              && forall id :: Project(Run(cfg, oracle, EMPTY, log), id)
                              == TraceRun(cfg.limits, AnswersTo(fixed, id), Trace(None, []), Own(cfg, log, id))
  {
    var fixed := FixRun(cfg, oracle, EMPTY, log);
    forall id
      ensures Project(Run(cfg, oracle, EMPTY, log), id)
              == TraceRun(cfg.limits, AnswersTo(fixed, id), Trace(None, []), Own(cfg, log, id))
    {
      Locality(cfg, fixed, EMPTY, log, id);
    }
  }

  // ---------- shared answers couple votes ----------

  /** One broker and one circuit breaker for all votes: the n-th attempt of the aggregator gets
      the n-th answer. */
  function Shared(answers: nat -> bool): Oracle {
    (id: string, n: nat, k: nat) => answers(k)
  }

  /** In every run, every vote fares as it does alone. */
  ghost predicate Independent(cfg: Config, oracle: Oracle) {
    forall log, id :: Project(Run(cfg, oracle, EMPTY, log), id)
                      == Project(Run(cfg, oracle, EMPTY, Own(cfg, log, id)), id)
  }

  lemma {:induction false} OwnConcat(cfg: Config, a: seq<Message>, b: seq<Message>, id: string)
    ensures Own(cfg, a + b, id) == Own(cfg, a, id) + Own(cfg, b, id)
  {
    if a == [] {
      assert a + b == b;
    } else {
      assert (a + b)[1..] == a[1..] + b;
      OwnConcat(cfg, a[1..], b, id);
    }
  }

  lemma {:induction false} OwnOfOwn(cfg: Config, log: seq<Message>, id: string)
    ensures Own(cfg, Own(cfg, log, id), id) == Own(cfg, log, id)
  {
    if log != [] {
      OwnOfOwn(cfg, log[1..], id);
      var rest := Own(cfg, log[1..], id);
      assert ([log[0]] + rest)[1..] == rest && [] + rest == rest;
    }
  }

  lemma PerVoteIndependent(cfg: Config, oracle: Oracle)
    requires PerVote(oracle)
    ensures Independent(cfg, oracle)
  {
    forall log, id
      ensures Project(Run(cfg, oracle, EMPTY, log), id) == Project(Run(cfg, oracle, EMPTY, Own(cfg, log, id)), id)
    {
      OwnOfOwn(cfg, log, id);
      Locality(cfg, oracle, EMPTY, log, id);
      Locality(cfg, oracle, EMPTY, Own(cfg, log, id), id);
    }
  }

  function Aye(cfg: Config, id: string, role: Role): Message {
    Message(cfg.session, SecretaryResult(id, "", "", "", "", SecretaryResponse("", role, "AYE", 1.0, "", 1)))
  }

  /** Both secretaries agree about a vote: one publish attempt. */
  function Pair(cfg: Config, id: string): seq<Message> {
    [Aye(cfg, id, SecretaryText), Aye(cfg, id, SecretaryJson)]
  }

  lemma PairReads(text: SecretaryResponse, json: SecretaryResponse)
    requires text.role == SecretaryText && json.role == SecretaryJson && text.choice == json.choice
    ensures ReadSecretaries([text]).Waiting? && ReadSecretaries([text, json]).Agreed?
  {
    LatestSnoc([], text);
    LatestSnoc([text], json);
    assert [] + [text] == [text] && [text] + [json] == [text, json];
  }

  lemma LatestSnoc(rs: seq<SecretaryResponse>, r: SecretaryResponse)
    ensures var m := LatestByRole(rs, None);
            LatestByRole(rs + [r], None) == if r.role !in m || r.attempt > m[r.role].attempt then m[r.role := r] else m
  {
    assert (rs + [r])[..|rs|] == rs;
  }

  /** A vote of which only the first secretary was heard, and no publish attempt was made. */
  ghost predicate HalfHeard(cfg: Config, v: Vote) {
    && v.status == Pending && v.attempts == 0 && v.disagreements == 0 && v.retryCount == 0
    && v.responses == Table(map[], [])
    && v.secretaryResponses.order == [Aye(cfg, v.voteId, SecretaryText).body.response]
    && v.secretaryResponses.vals.Keys == {AttemptKey(SecretaryText.Name(), 1)}
  }

  lemma FirstReacts(cfg: Config, ok: bool, id: string)
    ensures var e := React(cfg.limits, ok, NewVote(id, "", "", "", "", ""), Aye(cfg, id, SecretaryText).body);
            e.vote.voteId == id && HalfHeard(cfg, e.vote) && e.delta[PublishAttempts] == 0
  {
    var text := Aye(cfg, id, SecretaryText).body.response;
    PairReads(text, Aye(cfg, id, SecretaryJson).body.response);
    assert [] + [text] == [text];
  }

  lemma SecondReacts(cfg: Config, ok: bool, v: Vote)
    requires HalfHeard(cfg, v)
    ensures var e := React(cfg.limits, ok, v, Aye(cfg, v.voteId, SecretaryJson).body);
            && e.vote.voteId == v.voteId && e.delta[PublishAttempts] == 1
            && e.vote.status == if ok then WitnessPending else Consensus
  {
    var text, json := v.secretaryResponses.order[0], Aye(cfg, v.voteId, SecretaryJson).body.response;
    PairReads(text, json);
    AttemptKeyInjective(SecretaryText.Name(), 1, SecretaryJson.Name(), 1);
    assert SecretaryText.Name()[10] == 't' && SecretaryJson.Name()[10] == 'j';
    assert [text] + [json] == [text, json];
  }

  /** The vote is decided by one attempt, the first made after `before`. */
  ghost predicate Decided(oracle: Oracle, before: State, after: State, id: string) {
    && Keyed(after) && after.votes.Keys == before.votes.Keys + {id}
    && after.metrics[PublishAttempts] == before.metrics[PublishAttempts] + 1
    && after.votes[id].status == if oracle(id, 0, before.metrics[PublishAttempts]) then WitnessPending else Consensus
  }

  lemma FirstStep(cfg: Config, oracle: Oracle, s: State, id: string)
    requires id !in s.votes
    ensures var s' := Step(cfg, oracle, s, Aye(cfg, id, SecretaryText));
            && s'.votes.Keys == s.votes.Keys + {id} && s'.metrics[PublishAttempts] == s.metrics[PublishAttempts]
            && s'.votes[id].voteId == id && HalfHeard(cfg, s'.votes[id])
  {
    var v := NewVote(id, "", "", "", "", "");
    FirstReacts(cfg, Answer(oracle, s, v), id);
    StepEffect(cfg, oracle, s, Aye(cfg, id, SecretaryText), v);
  }

  lemma SecondStep(cfg: Config, oracle: Oracle, s: State, id: string)
    requires id in s.votes && s.votes[id].voteId == id && HalfHeard(cfg, s.votes[id])
    ensures var s' := Step(cfg, oracle, s, Aye(cfg, id, SecretaryJson));
            && s'.votes.Keys == s.votes.Keys && s'.metrics[PublishAttempts] == s.metrics[PublishAttempts] + 1
            && s'.votes[id].status == if oracle(id, 0, s.metrics[PublishAttempts]) then WitnessPending else Consensus
  {
    SecondReacts(cfg, Answer(oracle, s, s.votes[id]), s.votes[id]);
    StepEffect(cfg, oracle, s, Aye(cfg, id, SecretaryJson), s.votes[id]);
  }

  lemma PairRun(cfg: Config, oracle: Oracle, s: State, id: string)
    requires Keyed(s) && id !in s.votes
    ensures Decided(oracle, s, Run(cfg, oracle, s, Pair(cfg, id)), id)
  {
    var first, second := Aye(cfg, id, SecretaryText), Aye(cfg, id, SecretaryJson);
    FirstStep(cfg, oracle, s, id);
    SecondStep(cfg, oracle, Step(cfg, oracle, s, first), id);
    RunTwo(cfg, oracle, s, first, second);
    RunKeyed(cfg, oracle, s, [first, second]);
  }

  lemma RunTwo(cfg: Config, oracle: Oracle, s: State, m: Message, m': Message)
    ensures Run(cfg, oracle, s, [m, m']) == Step(cfg, oracle, Step(cfg, oracle, s, m), m')
  {
    RunConcat(cfg, oracle, s, [m], [m']);
    OneMore(cfg, oracle, s, m);
    OneMore(cfg, oracle, Step(cfg, oracle, s, m), m');
  }

  /** Ids of n votes, one longer than the other. */
  function Nth(n: nat): string {
    if n == 0 then "v" else Nth(n - 1) + "v"
  }

  function Crowd(cfg: Config, n: nat): seq<Message> {
    if n == 0 then [] else Crowd(cfg, n - 1) + Pair(cfg, Nth(n - 1))
  }

  lemma {:induction false} NthLength(n: nat)
    ensures |Nth(n)| == n + 1
  {
    if n > 0 {
      NthLength(n - 1);
    }
  }

  /** n attempts so far, and only votes of short ids. */
  ghost predicate Crowded(s: State, n: nat) {
    Keyed(s) && s.metrics[PublishAttempts] == n && forall id :: id in s.votes ==> |id| <= n
  }

  lemma PairCrowds(cfg: Config, oracle: Oracle, s: State, n: nat)
    requires Crowded(s, n)
    ensures Crowded(Run(cfg, oracle, s, Pair(cfg, Nth(n))), n + 1)
  {
    NthLength(n);
    PairRun(cfg, oracle, s, Nth(n));
    var s' := Run(cfg, oracle, s, Pair(cfg, Nth(n)));
    assert forall id :: id in s'.votes ==> id in s'.votes.Keys;
  }

  lemma {:induction false} CrowdRun(cfg: Config, oracle: Oracle, n: nat)
    ensures Crowded(Run(cfg, oracle, EMPTY, Crowd(cfg, n)), n)
  {
    if n > 0 {
      CrowdRun(cfg, oracle, n - 1);
      PairCrowds(cfg, oracle, Run(cfg, oracle, EMPTY, Crowd(cfg, n - 1)), n - 1);
      RunConcat(cfg, oracle, EMPTY, Crowd(cfg, n - 1), Pair(cfg, Nth(n - 1)));
    }
  }

  lemma OwnPair(cfg: Config, id: string, other: string)
    ensures Own(cfg, Pair(cfg, id), other) == if id == other then Pair(cfg, id) else []
  {
    OwnTwo(cfg, Aye(cfg, id, SecretaryText), Aye(cfg, id, SecretaryJson), other);
  }

  lemma OwnTwo(cfg: Config, m: Message, m': Message, id: string)
    ensures Own(cfg, [m, m'], id) ==
            (if About(cfg, m, id) then [m] else []) + (if About(cfg, m', id) then [m'] else [])
  {
    OwnConcat(cfg, [m], [m'], id);
    assert [m][1..] == [] && [m'][1..] == [];
  }

  lemma {:induction false} CrowdIgnores(cfg: Config, n: nat, id: string)
    requires |id| > n
    ensures Own(cfg, Crowd(cfg, n), id) == []
  {
    if n > 0 {
      CrowdIgnores(cfg, n - 1, id);
      NthLength(n - 1);
      OwnConcat(cfg, Crowd(cfg, n - 1), Pair(cfg, Nth(n - 1)), id);
      OwnPair(cfg, Nth(n - 1), id);
    }
  }

  /** After n other votes have used up n answers, a vote meets the next one. */
  lemma AfterCrowd(cfg: Config, oracle: Oracle, n: nat)
    ensures var s := Run(cfg, oracle, EMPTY, Crowd(cfg, n) + Pair(cfg, Nth(n)));
            && Nth(n) in s.votes
            && s.votes[Nth(n)].status == if oracle(Nth(n), 0, n) then WitnessPending else Consensus
    ensures Own(cfg, Crowd(cfg, n) + Pair(cfg, Nth(n)), Nth(n)) == Pair(cfg, Nth(n))
  {
    CrowdRun(cfg, oracle, n);
    NthLength(n);
    RunConcat(cfg, oracle, EMPTY, Crowd(cfg, n), Pair(cfg, Nth(n)));
    PairRun(cfg, oracle, Run(cfg, oracle, EMPTY, Crowd(cfg, n)), Nth(n));
    CrowdIgnores(cfg, n, Nth(n));
    OwnPair(cfg, Nth(n), Nth(n));
    OwnConcat(cfg, Crowd(cfg, n), Pair(cfg, Nth(n)), Nth(n));
  }

  lemma SameAnswer(cfg: Config, answers: nat -> bool, n: nat)
    requires Independent(cfg, Shared(answers))
    ensures answers(n) == answers(0)
  {
    var oracle, id, log := Shared(answers), Nth(n), Crowd(cfg, n) + Pair(cfg, Nth(n));
    AfterCrowd(cfg, oracle, n);
    PairRun(cfg, oracle, EMPTY, id);
    assert Project(Run(cfg, oracle, EMPTY, log), id).vote
        == Project(Run(cfg, oracle, EMPTY, Own(cfg, log, id)), id).vote;
  }

  /** With answers shared by all votes, the votes are independent exactly when all answers are
      the same. If the n-th answer differs from the first, n other votes suffice: a vote that
      alone would await its witness rests in CONSENSUS, or the other way round. */
  lemma SharedAnswersCouple(cfg: Config, answers: nat -> bool)
    ensures Independent(cfg, Shared(answers)) <==> forall n :: answers(n) == answers(0)
  {
    if Independent(cfg, Shared(answers)) {
      forall n: nat ensures answers(n) == answers(0) {
        SameAnswer(cfg, answers, n);
      }
    }
    if forall n :: answers(n) == answers(0) {
      PerVoteIndependent(cfg, Shared(answers));
    }
  }

  // ---------- comparing runs ----------

  /** Same votes, same published records, and same counters but for the excepted ones. */
  ghost predicate SameBut(a: State, b: State, except: set<Counter>) {
    && a.ids == b.ids && a.votes == b.votes && a.outbox == b.outbox
    && forall c: Counter :: c !in except ==> a.metrics[c] == b.metrics[c]
  }

  lemma ApplySameBut(a: State, b: State, id: string, e: Effect, except: set<Counter>)
    requires SameBut(a, b, except)
    ensures SameBut(Apply(a, id, e), Apply(b, id, e), except)
  {
  }

  lemma DeliverSameBut(cfg: Config, cfg': Config, oracle: Oracle, a: State, b: State, body: Body, except: set<Counter>)
    requires SameBut(a, b, except) && PublishAttempts !in except
    requires cfg.limits == cfg'.limits
    ensures SameBut(Deliver(cfg, oracle, a, body), Deliver(cfg', oracle, b, body), except)
  {
    if !body.Undecodable? {
      var v := Addressed(Lookup(a, body.voteId), body);
      if v.Some? {
        assert Answer(oracle, a, v.value) == Answer(oracle, b, v.value);
        ApplySameBut(a, b, body.voteId, React(cfg.limits, Answer(oracle, a, v.value), v.value, body), except);
      }
    }
  }

  lemma StepSameBut(cfg: Config, oracle: Oracle, a: State, b: State, m: Message, except: set<Counter>)
    requires SameBut(a, b, except) && PublishAttempts !in except
    ensures SameBut(Step(cfg, oracle, a, m), Step(cfg, oracle, b, m), except)
  {
    var a', b' := a.(metrics := a.metrics + multiset{MessagesConsumed}), b.(metrics := b.metrics + multiset{MessagesConsumed});
    assert SameBut(a', b', except);
    if cfg.Accepts(m.header) {
      DeliverSameBut(cfg, cfg, oracle, a', b', m.body, except);
    }
  }

  // ---------- at-least-once delivery ----------

  /** The identity under which a delivery is deduplicated, if it is. */
  datatype Identity =
    | SecretaryAttempt(vote: string, role: Role, attempt: int)
    | ValidatorAttempt(vote: string, validator: string, attempt: int)

  function IdentityOf(cfg: Config, m: Message): Option<Identity> {
    if !cfg.Accepts(m.header) then None else
      match m.body
      case SecretaryResult(id, _, _, _, _, r) => Some(SecretaryAttempt(id, r.role, r.attempt))
      case LegacyResult(id, _, r) => Some(ValidatorAttempt(id, r.validatorId, r.attempt))
      case _ => None
  }

  /** The log without the secretary and legacy messages whose identity occurred before. */
  function ExactlyOnce(cfg: Config, log: seq<Message>, seen: set<Identity>): seq<Message> {
    if log == [] then [] else
      match IdentityOf(cfg, log[0])
      case None => [log[0]] + ExactlyOnce(cfg, log[1..], seen)
      case Some(k) =>
        if k in seen then ExactlyOnce(cfg, log[1..], seen)
        else [log[0]] + ExactlyOnce(cfg, log[1..], seen + {k})
  }

  /** The vote will ignore every further delivery with this identity. */
  predicate Ignores(v: Vote, k: Identity) {
    Terminal(v) ||
    match k
    case SecretaryAttempt(_, role, attempt) => AttemptKey(role.Name(), attempt) in v.secretaryResponses.vals
    case ValidatorAttempt(_, validator, attempt) => AttemptKey(validator, attempt) in v.responses.vals
  }

  predicate Absorbs(s: State, k: Identity) {
    k.vote in s.votes && Ignores(s.votes[k.vote], k)
  }

  lemma KeepsIgnoring(lim: Limits, ok: bool, v: Vote, b: Body, k: Identity)
    requires Ignores(v, k)
    ensures Ignores(React(lim, ok, v, b).vote, k)
  {
    ReactFrame(lim, ok, v, b);
  }

  lemma StepKeepsAbsorbing(cfg: Config, oracle: Oracle, s: State, m: Message, k: Identity)
    requires Absorbs(s, k)
    ensures Absorbs(Step(cfg, oracle, s, m), k)
  {
    if cfg.Accepts(m.header) && !m.body.Undecodable? {
      var v := Addressed(Lookup(s, m.body.voteId), m.body);
      if v.Some? {
        StepEffect(cfg, oracle, s, m, v.value);
        if m.body.voteId == k.vote {
          KeepsIgnoring(cfg.limits, Answer(oracle, s, v.value), v.value, m.body, k);
        }
      }
    }
  }

  lemma StartsIgnoring(cfg: Config, ok: bool, v: Vote, m: Message)
    requires IdentityOf(cfg, m).Some?
    ensures Ignores(React(cfg.limits, ok, v, m.body).vote, IdentityOf(cfg, m).value)
  {
    ReactFrame(cfg.limits, ok, v, m.body);
  }

  lemma StepAbsorbs(cfg: Config, oracle: Oracle, s: State, m: Message)
    requires IdentityOf(cfg, m).Some?
    ensures Absorbs(Step(cfg, oracle, s, m), IdentityOf(cfg, m).value)
  {
    var v := Addressed(Lookup(s, m.body.voteId), m.body).value;
    StepEffect(cfg, oracle, s, m, v);
    StartsIgnoring(cfg, Answer(oracle, s, v), v, m);
  }

  lemma IgnoredReact(cfg: Config, ok: bool, v: Vote, m: Message)
    requires IdentityOf(cfg, m).Some? && Ignores(v, IdentityOf(cfg, m).value)
    ensures var e := React(cfg.limits, ok, v, m.body);
            && e.vote == v && e.out == []
            && forall c: Counter :: c != DuplicatesSkipped ==> e.delta[c] == 0
  {
  }

  lemma AbsorbedStep(cfg: Config, oracle: Oracle, s: State, m: Message)
    requires IdentityOf(cfg, m).Some? && Absorbs(s, IdentityOf(cfg, m).value)
    ensures SameBut(Step(cfg, oracle, s, m), s, {MessagesConsumed, DuplicatesSkipped})
  {
    var v := s.votes[m.body.voteId];
    IgnoredReact(cfg, Answer(oracle, s, v), v, m);
    StepEffect(cfg, oracle, s, m, v);
    assert s.votes[m.body.voteId := v] == s.votes;
  }

  lemma {:induction false} DedupRun(cfg: Config, oracle: Oracle, a: State, b: State, log: seq<Message>, seen: set<Identity>)
    requires SameBut(a, b, {MessagesConsumed, DuplicatesSkipped})
    requires forall k :: k in seen ==> Absorbs(a, k)
    ensures SameBut(Run(cfg, oracle, a, log), Run(cfg, oracle, b, ExactlyOnce(cfg, log, seen)),
                    {MessagesConsumed, DuplicatesSkipped})
    decreases |log|
  {
    if log != [] {
      var m, rest := log[0], log[1..];
      var a', k := Step(cfg, oracle, a, m), IdentityOf(cfg, m);
      var seen' := if k.Some? then seen + {k.value} else seen;
      forall x | x in seen' ensures Absorbs(a', x) {
        if x in seen {
          StepKeepsAbsorbing(cfg, oracle, a, m, x);
        } else {
          StepAbsorbs(cfg, oracle, a, m);
        }
      }
      if k.Some? && k.value in seen {
        AbsorbedStep(cfg, oracle, a, m);
        assert seen' == seen;
        DedupRun(cfg, oracle, a', b, rest, seen);
      } else {
        StepSameBut(cfg, oracle, a, b, m, {MessagesConsumed, DuplicatesSkipped});
        var once := ExactlyOnce(cfg, rest, seen');
        assert ExactlyOnce(cfg, log, seen)[0] == m && ExactlyOnce(cfg, log, seen)[1..] == once;
        DedupRun(cfg, oracle, a', Step(cfg, oracle, b, m), rest, seen');
      }
    }
  }

  /** At-least-once delivery refines exactly-once delivery of secretary and legacy results. */
  lemma AtLeastOnceIsExactlyOnce(cfg: Config, oracle: Oracle, log: seq<Message>)
    ensures SameBut(Run(cfg, oracle, EMPTY, log), Run(cfg, oracle, EMPTY, ExactlyOnce(cfg, log, {})),
                    {MessagesConsumed, DuplicatesSkipped})
  {
    DedupRun(cfg, oracle, EMPTY, EMPTY, log, {});
  }

  // ---------- witness verdicts are not deduplicated ----------

  /** The vote a verdict is about awaits it. */
  predicate Awaited(s: State, id: string) {
    id in s.votes && s.votes[id].status == WitnessPending
  }

  /** A verdict changes nothing but the consumed counter, exactly unless its vote awaits it:
      the verdict of an awaiting vote is counted even when its record cannot be published. */
  lemma VerdictIgnoredExactly(cfg: Config, oracle: Oracle, s: State, m: Message)
    requires Keyed(s) && cfg.Accepts(m.header) && m.body.WitnessResult?
    ensures SameBut(Step(cfg, oracle, s, m), s, {MessagesConsumed}) <==> !Awaited(s, m.body.voteId)
  {
    var s', id := Step(cfg, oracle, s, m), m.body.voteId;
    if Awaited(s, id) {
      assert s'.metrics[WitnessVerdicts] > s.metrics[WitnessVerdicts];
    } else if id in s.votes {
      assert s.votes[id := s.votes[id]] == s.votes;
    }
  }

  lemma {:induction false} RunSameBut(cfg: Config, oracle: Oracle, a: State, b: State, log: seq<Message>, except: set<Counter>)
    requires SameBut(a, b, except) && PublishAttempts !in except
    ensures SameBut(Run(cfg, oracle, a, log), Run(cfg, oracle, b, log), except)
    decreases |log|
  {
    if log != [] {
      StepSameBut(cfg, oracle, a, b, log[0], except);
      RunSameBut(cfg, oracle, Step(cfg, oracle, a, log[0]), Step(cfg, oracle, b, log[0]), log[1..], except);
    }
  }

  /** So a verdict nobody awaits may be dropped from any log, wherever it stands. */
  lemma IgnoredVerdictRemovable(cfg: Config, oracle: Oracle, a: seq<Message>, m: Message, b: seq<Message>)
    requires cfg.Accepts(m.header) && m.body.WitnessResult?
    requires !Awaited(Run(cfg, oracle, EMPTY, a), m.body.voteId)
    ensures SameBut(Run(cfg, oracle, EMPTY, a + [m] + b), Run(cfg, oracle, EMPTY, a + b), {MessagesConsumed})
  {
    var s := Run(cfg, oracle, EMPTY, a);
    RunKeyed(cfg, oracle, EMPTY, a);
    VerdictIgnoredExactly(cfg, oracle, s, m);
    RunConcat(cfg, oracle, EMPTY, a + [m], b);
    RunConcat(cfg, oracle, EMPTY, a, [m]);
    RunConcat(cfg, oracle, EMPTY, a, b);
    OneMore(cfg, oracle, s, m);
    RunSameBut(cfg, oracle, Step(cfg, oracle, s, m), s, b, {MessagesConsumed});
  }

  /** A verdict delivered twice in a row has a second effect exactly when its vote awaited it
      and the first record could not be published: then the second delivery tries again. */
  lemma RepeatedVerdictExactly(cfg: Config, oracle: Oracle, s: State, m: Message)
    requires Keyed(s) && cfg.Accepts(m.header) && m.body.WitnessResult?
    ensures var once := Step(cfg, oracle, s, m);
            SameBut(Step(cfg, oracle, once, m), once, {MessagesConsumed})
            <==> !(Awaited(s, m.body.voteId) && !Answer(oracle, s, s.votes[m.body.voteId]))
  {
    StepKeyed(cfg, oracle, s, m);
    VerdictIgnoredExactly(cfg, oracle, Step(cfg, oracle, s, m), m);
  }

  /** So verdicts cannot be deduplicated like results: a verdict that comes before its vote is
      known is ignored, and it is the redelivery that validates the vote. */
  lemma EarlyVerdictNeedsRedelivery(cfg: Config, oracle: Oracle, m: Message, log: seq<Message>)
    requires cfg.Accepts(m.header) && m.body.WitnessResult?
    requires var s := Run(cfg, oracle, EMPTY, log);
             m.body.voteId in s.votes && s.votes[m.body.voteId].status == WitnessPending
             && Answer(oracle, s, s.votes[m.body.voteId])
    ensures var once := Run(cfg, oracle, EMPTY, [m] + log);
            var twice := Run(cfg, oracle, EMPTY, [m] + log + [m]);
            var id := m.body.voteId;
            && id in once.votes && once.votes[id].status == WitnessPending
            && id in twice.votes && twice.votes[id].status == Validated
  {
    var ignored := Step(cfg, oracle, EMPTY, m);
    assert ignored.votes == map[] && ignored.outbox == [];
    assert ([m] + log)[0] == m && ([m] + log)[1..] == log;
    var once := Run(cfg, oracle, EMPTY, [m] + log);
    RunSameBut(cfg, oracle, ignored, EMPTY, log, {MessagesConsumed});
    RunConcat(cfg, oracle, EMPTY, [m] + log, [m]);
    RunKeyed(cfg, oracle, EMPTY, log);
    OneMore(cfg, oracle, once, m);
    PendingVerdictValidates(cfg, oracle, once, m);
  }

  lemma OneMore(cfg: Config, oracle: Oracle, s: State, m: Message)
    ensures Run(cfg, oracle, s, [m]) == Step(cfg, oracle, s, m)
  {
    assert [m][1..] == [];
  }

  lemma PendingVerdictValidates(cfg: Config, oracle: Oracle, s: State, m: Message)
    requires cfg.Accepts(m.header) && m.body.WitnessResult? && m.body.voteId in s.votes
    requires var v := s.votes[m.body.voteId];
             v.voteId == m.body.voteId && v.status == WitnessPending && Answer(oracle, s, v)
    ensures Step(cfg, oracle, s, m).votes[m.body.voteId].status == Validated
  {
  }

  // ---------- session-bounded replay ----------

  function SessionLog(cfg: Config, log: seq<Message>): seq<Message> {
    if log == [] then []
    else (if cfg.Accepts(log[0].header) then [log[0]] else []) + SessionLog(cfg, log[1..])
  }

  lemma {:induction false} SessionRun(cfg: Config, cfg': Config, oracle: Oracle, a: State, b: State, log: seq<Message>)
    requires SameBut(a, b, {MessagesConsumed, SessionFiltered})
    requires cfg' == cfg || cfg' == cfg.(session := None)
    ensures SameBut(Run(cfg, oracle, a, log), Run(cfg', oracle, b, SessionLog(cfg, log)),
                    {MessagesConsumed, SessionFiltered})
    decreases |log|
  {
    if log != [] {
      var m, rest := log[0], log[1..];
      if cfg.Accepts(m.header) {
        var a', b' := a.(metrics := a.metrics + multiset{MessagesConsumed}), b.(metrics := b.metrics + multiset{MessagesConsumed});
        DeliverSameBut(cfg, cfg', oracle, a', b', m.body, {MessagesConsumed, SessionFiltered});
        SessionRun(cfg, cfg', oracle, Step(cfg, oracle, a, m), Step(cfg', oracle, b, m), rest);
        assert ([m] + SessionLog(cfg, rest))[1..] == SessionLog(cfg, rest);
      } else {
        SessionRun(cfg, cfg', oracle, Step(cfg, oracle, a, m), b, rest);
        assert [] + SessionLog(cfg, rest) == SessionLog(cfg, rest);
      }
    }
  }

  /** Filtering a mixed log equals running the session's own messages, with or without the
      filter; only the consumed and filtered counters can tell. */
  lemma SessionBoundedReplay(cfg: Config, oracle: Oracle, log: seq<Message>)
    ensures SameBut(Run(cfg, oracle, EMPTY, log), Run(cfg, oracle, EMPTY, SessionLog(cfg, log)),
                    {MessagesConsumed, SessionFiltered})
    ensures SameBut(Run(cfg, oracle, EMPTY, log), Run(cfg.(session := None), oracle, EMPTY, SessionLog(cfg, log)),
                    {MessagesConsumed, SessionFiltered})
  {
    SessionRun(cfg, cfg, oracle, EMPTY, EMPTY, log);
    SessionRun(cfg, cfg.(session := None), oracle, EMPTY, EMPTY, log);
  }
}
