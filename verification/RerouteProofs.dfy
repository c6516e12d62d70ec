/** Whole-run theorems of the refusal loop. */
module RerouteProofs {
  import opened Prelude
  import opened Lexicographic
  import opened RerouteModel

  // ---------- candidates ----------

  ghost predicate SortedById(tools: seq<Tool>) {
    forall i, j :: 0 <= i < j < |tools| ==> Leq(tools[i].toolId, tools[j].toolId)
  }

  lemma {:induction false} InsertSorted(sorted: seq<Tool>, t: Tool)
    requires SortedById(sorted)
    ensures SortedById(InsertById(sorted, t))
    ensures multiset(InsertById(sorted, t)) == multiset(sorted) + multiset{t}
    ensures forall x :: x in InsertById(sorted, t) <==> x in sorted || x == t
  {
    if sorted == [] {
    } else {
      var front, last := sorted[..|sorted| - 1], sorted[|sorted| - 1];
      assert sorted == front + [last];
      if Leq(last.toolId, t.toolId) {
        forall i | 0 <= i < |sorted| ensures Leq(sorted[i].toolId, t.toolId) {
          if i < |front| {
            LeqTransitive(sorted[i].toolId, last.toolId, t.toolId);
          }
        }
      } else {
        InsertSorted(front, t);
        LeqTotal(last.toolId, t.toolId);
        forall x | x in InsertById(front, t) ensures Leq(x.toolId, last.toolId) {
          if x != t {
            var i :| 0 <= i < |front| && front[i] == x;
            assert sorted[i] == x;
          }
        }
      }
    }
  }

  lemma {:induction false} SortSorted(tools: seq<Tool>)
    ensures SortedById(SortById(tools))
    ensures multiset(SortById(tools)) == multiset(tools)
    ensures forall x :: x in SortById(tools) <==> x in tools
  {
    if tools != [] {
      var front, last := tools[..|tools| - 1], tools[|tools| - 1];
      SortSorted(front);
      InsertSorted(SortById(front), last);
      SplitLast(tools);
      assert multiset(tools) == multiset(front + [last]);
      assert forall x :: x in tools <==> x in front + [last];
    }
  }

  /** The tools of one id, in order. */
  function WithId(tools: seq<Tool>, id: string): seq<Tool> {
    if tools == [] then [] else
      WithId(tools[..|tools| - 1], id)
      + if tools[|tools| - 1].toolId == id then [tools[|tools| - 1]] else []
  }

  lemma WithIdSnoc(tools: seq<Tool>, t: Tool, id: string)
    ensures WithId(tools + [t], id) == WithId(tools, id) + if t.toolId == id then [t] else []
  {
    assert (tools + [t])[..|tools|] == tools;
  }

  lemma {:induction false} InsertStable(sorted: seq<Tool>, t: Tool, id: string)
    ensures WithId(InsertById(sorted, t), id) == WithId(sorted, id) + if t.toolId == id then [t] else []
  {
    if sorted == [] {
      WithIdSnoc([], t, id);
      assert [] + [t] == [t];
    } else {
      var front, last := sorted[..|sorted| - 1], sorted[|sorted| - 1];
      if Leq(last.toolId, t.toolId) {
        WithIdSnoc(sorted, t, id);
      } else {
        InsertStable(front, t, id);
        WithIdSnoc(InsertById(front, t), last, id);
        LeqTotal(last.toolId, last.toolId);
      }
    }
  }

  /** The sort is stable: tools of equal id keep their registry order. */
  lemma {:induction false} SortStable(tools: seq<Tool>, id: string)
    ensures WithId(SortById(tools), id) == WithId(tools, id)
  {
    if tools != [] {
      SortStable(tools[..|tools| - 1], id);
      InsertStable(SortById(tools[..|tools| - 1]), tools[|tools| - 1], id);
    }
  }

  lemma {:induction false} EligibleMembers(req: Requirement, tools: seq<Tool>, t: Tool)
    ensures t in EligibleTools(req, tools) <==> t in tools && Suits(req, t)
  {
    if tools != [] {
      EligibleMembers(req, tools[..|tools| - 1], t);
      assert t in tools <==> t in tools[..|tools| - 1] || t == tools[|tools| - 1];
    }
  }

  /** The selection keeps registry order: that of two registries together is the one's followed
      by the other's, and a single tool is selected exactly when it suits. */
  lemma {:induction false} EligibleInOrder(req: Requirement, a: seq<Tool>, b: seq<Tool>, t: Tool)
    ensures EligibleTools(req, a + b) == EligibleTools(req, a) + EligibleTools(req, b)
    ensures EligibleTools(req, [t]) == if Suits(req, t) then [t] else []
  {
    assert [t][..0] == [];
    if b == [] {
      assert a + b == a;
    } else {
      assert (a + b)[..|a + b| - 1] == a + b[..|b| - 1];
      EligibleInOrder(req, a, b[..|b| - 1], t);
    }
  }

  lemma {:induction false} UntriedMembers(tools: seq<Tool>, excluded: set<string>, t: Tool)
    ensures t in Untried(tools, excluded) <==> t in tools && t.toolId !in excluded
  {
    if tools != [] {
      UntriedMembers(tools[..|tools| - 1], excluded, t);
      assert t in tools <==> t in tools[..|tools| - 1] || t == tools[|tools| - 1];
    }
  }

  /** The tool has the class and all the capabilities required, and is available. */
  predicate Suits(req: Requirement, t: Tool) {
    && t.toolClass == Some(req.toolClass) && t.status == Some("AVAILABLE")
    && forall c :: c in req.capabilities ==> c in t.capabilities
  }

  /** The ids still available: of tools in the registry that suit, and not excluded. */
  ghost function Available(req: Requirement, tools: seq<Tool>, excluded: set<string>): set<string> {
    (set t | t in tools && Suits(req, t) :: t.toolId) - excluded
  }

  /** The candidates are sorted, and theirs are exactly the available ids. */
  lemma CandidatesExact(req: Requirement, tools: seq<Tool>, excluded: set<string>)
    ensures SortedById(Candidates(req, tools, excluded))
    ensures forall t :: t in Candidates(req, tools, excluded) <==>
                        t in tools && Suits(req, t) && t.toolId !in excluded
    ensures (set t | t in Candidates(req, tools, excluded) :: t.toolId) == Available(req, tools, excluded)
  {
    var eligible := EligibleTools(req, tools);
    SortSorted(Untried(eligible, excluded));
    forall t ensures t in Candidates(req, tools, excluded) <==> t in tools && Suits(req, t) && t.toolId !in excluded {
      UntriedMembers(eligible, excluded, t);
      EligibleMembers(req, tools, t);
    }
  }

  /** A selection is an available tool; without the random strategy, the least one. */
  lemma SelectionExact(req: Requirement, tools: seq<Tool>, excluded: set<string>, strategy: Strategy, draw: nat)
    ensures var t := SelectTool(Candidates(req, tools, excluded), strategy, draw);
            && (t.None? <==> Available(req, tools, excluded) == {})
            && (t.Some? ==> t.value in tools && Suits(req, t.value) && t.value.toolId in Available(req, tools, excluded))
            && (t.Some? && strategy != Random ==>
                  forall id :: id in Available(req, tools, excluded) ==> Leq(t.value.toolId, id))
  {
    var cs := Candidates(req, tools, excluded);
    CandidatesExact(req, tools, excluded);
    var t := SelectTool(cs, strategy, draw);
    if cs == [] {
      assert forall id :: id in Available(req, tools, excluded) ==> false;
    } else {
      assert t.value in cs && t.value.toolId in Available(req, tools, excluded);
      forall id | id in Available(req, tools, excluded) && strategy != Random
        ensures Leq(t.value.toolId, id)
      {
        var x :| x in cs && x.toolId == id;
        var i :| 0 <= i < |cs| && cs[i] == x;
        if i == 0 {
          LeqTotal(id, id);
        }
      }
    }
  }

  lemma SmallModulo(i: nat, n: nat)
    requires i < n
    ensures i % n == i
  {
  }

  lemma RandomPicks(cs: seq<Tool>, i: nat)
    requires i < |cs|
    ensures SelectTool(cs, Random, i) == Some(cs[i])
  {
    SmallModulo(i, |cs|);
  }

  /** A random selection can be any candidate. */
  lemma RandomReachesAll(req: Requirement, tools: seq<Tool>, excluded: set<string>, t: Tool)
    requires t in Candidates(req, tools, excluded)
    ensures exists draw :: SelectTool(Candidates(req, tools, excluded), Random, draw) == Some(t)
  {
    var cs := Candidates(req, tools, excluded);
    var i :| 0 <= i < |cs| && cs[i] == t;
    RandomPicks(cs, i);
  }

  // ---------- one step ----------

  lemma RerouteExcludes(s: TaskState, tarId: string, toolId: string)
    ensures Excluded(UpdateForReroute(s, tarId, toolId)) == Excluded(s) + {toolId}
    ensures MaxAttempts(UpdateForReroute(s, tarId, toolId)) == MaxAttempts(s)
  {
    var s' := UpdateForReroute(s, tarId, toolId);
    assert forall a :: a in s'.attemptHistory <==> a in s.attemptHistory || a == Attempt(tarId, toolId);
    assert forall t :: t in s'.excludedTools <==> t in s.excludedTools || t == toolId;
    forall t ensures t in Excluded(s') <==> t in Excluded(s) || t == toolId {
      if t == toolId {
        assert Attempt(tarId, toolId) in s'.attemptHistory;
      }
    }
  }

  /** The id was excluded explicitly or tried before. */
  predicate Tried(s: TaskState, id: string) {
    id in s.excludedTools || exists i :: 0 <= i < |s.attemptHistory| && s.attemptHistory[i].toolId == id
  }

  lemma ExcludedExactly(s: TaskState, id: string)
    ensures id in Excluded(s) <==> Tried(s, id)
  {
    if id in Excluded(s) && id !in s.excludedTools {
      var a :| a in s.attemptHistory && a.toolId == id;
      var i :| 0 <= i < |s.attemptHistory| && s.attemptHistory[i] == a;
    }
    if exists i :: 0 <= i < |s.attemptHistory| && s.attemptHistory[i].toolId == id {
      var i :| 0 <= i < |s.attemptHistory| && s.attemptHistory[i].toolId == id;
      assert s.attemptHistory[i] in s.attemptHistory;
    }
  }

  /** Some tool of the registry suits and has not been tried. */
  ghost predicate ToolsLeft(req: Requirement, s: TaskState, tools: seq<Tool>) {
    exists t :: t in tools && Suits(req, t) && !Tried(s, t.toolId)
  }

  lemma ToolsLeftExactly(req: Requirement, s: TaskState, tools: seq<Tool>)
    ensures ToolsLeft(req, s, tools) <==> Available(req, tools, Excluded(s)) != {}
  {
    if ToolsLeft(req, s, tools) {
      var t :| t in tools && Suits(req, t) && !Tried(s, t.toolId);
      ExcludedExactly(s, t.toolId);
      assert t.toolId in Available(req, tools, Excluded(s));
    }
    if Available(req, tools, Excluded(s)) != {} {
      var id :| id in Available(req, tools, Excluded(s));
      var t :| t in tools && Suits(req, t) && t.toolId == id;
      ExcludedExactly(s, id);
    }
  }

  /** No attempts are left; three are allowed unless the policy says otherwise. */
  predicate AttemptsUsedUp(s: TaskState) {
    s.attemptCount >= if s.policy.Some? && s.policy.value.maxAttempts.Some? then s.policy.value.maxAttempts.value else 3
  }

  /** Escalation is announced unless the policy says not to. */
  predicate Announced(s: TaskState) {
    !(s.policy.Some? && s.policy.value.escalateOnExhaustion == Some(false))
  }

  /** What one invocation decides: a task nobody declined is refused; then the maximum is
      checked, then whether a tool is left, then whether the program lists the task. */
  lemma DecisionExactly(req: Requirement, s: TaskState, r: Round)
    ensures var o := Reroute(req, s, r).outcome;
            && (o.Refused? <==> s.state != NeedsReroute)
            && (o.Exhausted? <==> s.state == NeedsReroute && (AttemptsUsedUp(s) || !ToolsLeft(req, s, r.tools)))
            && (o.Exhausted? ==>
                  o.notified == Announced(s)
                  && o.reason == if AttemptsUsedUp(s) then "REROUTE_MAX_ATTEMPTS_REACHED" else "REROUTE_EXHAUSTED")
            && (o.TaskMissing? <==>
                  s.state == NeedsReroute && !AttemptsUsedUp(s) && ToolsLeft(req, s, r.tools) && !r.inProgram)
            && (o.Rerouted? ==>
                  exists t :: t in r.tools && t.toolId == o.toolId && Suits(req, t) && !Tried(s, t.toolId))
  {
    SelectionExact(req, r.tools, Excluded(s), r.strategy, r.draw);
    ToolsLeftExactly(req, s, r.tools);
    var o := Reroute(req, s, r).outcome;
    if o.Rerouted? {
      ExcludedExactly(s, o.toolId);
    }
  }

  /** What a reroute leaves behind: the new activation is recorded in the state and, with its
      tool, at the end of the history; no invocation does anything more until the tool has
      declined. */
  lemma ActivationAwaitsDecline(req: Requirement, s: TaskState, r: Round)
    requires Reroute(req, s, r).outcome.Rerouted?
    ensures var s', id := Reroute(req, s, r).state, Reroute(req, s, r).outcome.toolId;
            && s'.state == ActivationSent && s'.tarId == r.tarId
            && s'.attemptHistory == s.attemptHistory + [Attempt(r.tarId, id)]
            && s'.attemptCount == s.attemptCount + 1
            && s'.excludedTools == (if id in s.excludedTools then s.excludedTools else s.excludedTools + [id])
            && s'.escalations == s.escalations
            && s'.policy == (if s.policy.Some? then s.policy else Some(Policy(Some(3), Some(true))))
            && forall r' :: Reroute(req, s', r') == Step(s', Refused)
  {
  }

  /** Any other invocation leaves the task as it is, or blocks it with one escalation. */
  lemma OtherwiseKeptOrBlocked(req: Requirement, s: TaskState, r: Round)
    requires !Reroute(req, s, r).outcome.Rerouted?
    ensures var s', o := Reroute(req, s, r).state, Reroute(req, s, r).outcome;
            if o.Exhausted? then
              && s'.state == Blocked && s'.escalations == s.escalations + [Escalation("DUKE", o.reason)]
              && s'.tarId == s.tarId && s'.attemptCount == s.attemptCount && s'.attemptHistory == s.attemptHistory
              && s'.excludedTools == s.excludedTools
              && s'.policy == (if s.policy.Some? then s.policy else Some(Policy(Some(3), Some(true))))
            else s' == s
  {
  }

  // ---------- changing registries ----------

  ghost predicate NoRepeats(s: TaskState, p: Played) {
    && NoDuplicates(p.picks)
    && (forall i :: 0 <= i < |p.picks| ==> p.picks[i] !in Excluded(s))
    && Excluded(p.state) == Excluded(s) + (set t | t in p.picks)
    && p.state.attemptCount == s.attemptCount + |p.picks|
    && |p.state.attemptHistory| == |s.attemptHistory| + |p.picks|
    && (forall i :: 0 <= i < |p.picks| ==> p.state.attemptHistory[|s.attemptHistory| + i].toolId == p.picks[i])
    && s.attemptHistory <= p.state.attemptHistory
  }

  /** Whatever the registries, strategies and draws: no tool is picked twice or was excluded at
      the start, and the attempt history grows by exactly the picks. */
  lemma {:induction false} NeverRepeats(req: Requirement, s: TaskState, rounds: seq<Round>)
    ensures NoRepeats(s, Play(req, s, rounds))
  {
    if rounds != [] {
      var p, r := Play(req, s, rounds[..|rounds| - 1]), rounds[|rounds| - 1];
      NeverRepeats(req, s, rounds[..|rounds| - 1]);
      SelectionExact(req, r.tools, Excluded(p.state), r.strategy, r.draw);
      NextPick(req, s, p, r);
    }
  }

  lemma PickAppended(s: TaskState, p: Played, state: TaskState, a: Attempt)
    requires NoRepeats(s, p) && a.toolId !in Excluded(p.state)
    requires Excluded(state) == Excluded(p.state) + {a.toolId}
    requires state.attemptCount == p.state.attemptCount + 1
    requires state.attemptHistory == p.state.attemptHistory + [a]
    ensures NoRepeats(s, Played(state, p.picks + [a.toolId]))
  {
    var id := a.toolId;
    assert forall t :: t in p.picks + [id] <==> t in p.picks || t == id;
  }

  lemma NextPick(req: Requirement, s: TaskState, p: Played, r: Round)
    requires NoRepeats(s, p)
    requires var step := Reroute(req, p.state, r);
             step.outcome.Rerouted? ==> step.outcome.toolId !in Excluded(p.state)
    ensures var step := Reroute(req, p.state, r);
            NoRepeats(s, if step.outcome.Rerouted? then Played(Decline(step.state), p.picks + [step.outcome.toolId])
                         else Played(step.state, p.picks))
  {
    var step := Reroute(req, p.state, r);
    if step.outcome.Rerouted? {
      RerouteExcludes(p.state, r.tarId, step.outcome.toolId);
      PickAppended(s, p, Decline(step.state), Attempt(r.tarId, step.outcome.toolId));
    } else {
      assert Excluded(step.state) == Excluded(p.state);
    }
  }

  // ---------- a fixed registry: the closed form ----------

  lemma RemoveOne(a: set<string>, x: string)
    requires x in a
    ensures |a - {x}| == |a| - 1
  {
  }

  /** What a first pick leaves: one attempt and one available tool fewer. */
  lemma AfterPick(req: Requirement, s: TaskState, tools: seq<Tool>, r: Round)
    requires Reroute(req, s, r.(tools := tools, inProgram := true)).outcome.Rerouted?
    ensures var step := Reroute(req, s, r.(tools := tools, inProgram := true));
            var id, s' := step.outcome.toolId, Decline(step.state);
            && id in Available(req, tools, Excluded(s))
            && Available(req, tools, Excluded(s')) == Available(req, tools, Excluded(s)) - {id}
            && Remaining(s') == Remaining(s) - 1 && Remaining(s) > 0
            && s'.state == NeedsReroute && s'.escalations == s.escalations
            && (r.strategy != Random ==> forall x :: x in Available(req, tools, Excluded(s)) ==> Leq(id, x))
  {
    SelectionExact(req, tools, Excluded(s), r.strategy, r.draw);
    var id := Reroute(req, s, r.(tools := tools, inProgram := true)).outcome.toolId;
    RerouteExcludes(s, r.tarId, id);
  }

  /** How the loop ends: min(attempts left, tools available) distinct available tools have been
      picked, the task is blocked, and one escalation to the Duke was added, for reaching the
      maximum when that came first or at once, for exhaustion otherwise; in the latter case
      every available tool has been picked. */
  ghost predicate Ends(escalations: seq<Escalation>, remaining: nat, available: set<string>, p: Played) {
    && |p.picks| == (if remaining <= |available| then remaining else |available|)
    && p.state.state == Blocked
    && p.state.escalations == escalations +
         [Escalation("DUKE", if remaining <= |available| then MAX_ATTEMPTS_REACHED else EXHAUSTED)]
    && (forall i :: 0 <= i < |p.picks| ==> p.picks[i] in available)
    && NoDuplicates(p.picks)
    && (remaining > |available| ==> available == set t | t in p.picks)
  }

  lemma EndsOneEarlier(escalations: seq<Escalation>, remaining: nat, available: set<string>, id: string, rest: Played)
    requires id in available && remaining > 0
    requires Ends(escalations, remaining - 1, available - {id}, rest)
    ensures Ends(escalations, remaining, available, Played(rest.state, [id] + rest.picks))
  {
    RemoveOne(available, id);
    Prepended(id, rest.picks, available);
  }

  lemma EndsAtOnce(req: Requirement, s: TaskState, tools: seq<Tool>, r: Round)
    requires s.state == NeedsReroute && r.inProgram && r.tools == tools && !Reroute(req, s, r).outcome.Rerouted?
    ensures Ends(s.escalations, Remaining(s), Available(req, tools, Excluded(s)), Played(Reroute(req, s, r).state, []))
  {
    SelectionExact(req, tools, Excluded(s), r.strategy, r.draw);
  }

  /** The closed form. Against a fixed registry, with any strategies and draws, the loop makes
      exactly min(attempts left, tools available) reroutes and then blocks the task with one
      escalation to the Duke of the exact reason. */
  lemma {:induction false} ClosedForm(req: Requirement, s: TaskState, tools: seq<Tool>, choices: nat -> Round, n: nat)
    requires s.state == NeedsReroute
    ensures Ends(s.escalations, Remaining(s), Available(req, tools, Excluded(s)), Exhaust(req, s, tools, choices, n))
    decreases Remaining(s)
  {
    var r := choices(n).(tools := tools, inProgram := true);
    var step := Reroute(req, s, r);
    if step.outcome.Rerouted? {
      AfterPick(req, s, tools, choices(n));
      ClosedForm(req, Decline(step.state), tools, choices, n + 1);
      EndsOneEarlier(s.escalations, Remaining(s), Available(req, tools, Excluded(s)), step.outcome.toolId,
                     Exhaust(req, Decline(step.state), tools, choices, n + 1));
    } else {
      EndsAtOnce(req, s, tools, r);
    }
  }

  lemma Prepended(id: string, rest: seq<string>, available: set<string>)
    requires id in available && NoDuplicates(rest)
    requires forall i :: 0 <= i < |rest| ==> rest[i] in available - {id}
    ensures NoDuplicates([id] + rest)
    ensures forall i :: 0 <= i < |[id] + rest| ==> ([id] + rest)[i] in available
    ensures (set t | t in [id] + rest) == (set t | t in rest) + {id}
  {
    assert forall t :: t in [id] + rest <==> t in rest || t == id;
  }

  /** Each pick is the least of the available ids not picked before it. */
  ghost predicate LeastFirst(picks: seq<string>, available: set<string>) {
    forall i, x :: 0 <= i < |picks| && x in available && x !in picks[..i] ==> Leq(picks[i], x)
  }

  lemma LeastPrepended(id: string, rest: seq<string>, available: set<string>)
    requires forall x :: x in available ==> Leq(id, x)
    requires LeastFirst(rest, available - {id})
    ensures LeastFirst([id] + rest, available)
  {
    var picks := [id] + rest;
    forall i, x | 0 <= i < |picks| && x in available && x !in picks[..i]
      ensures Leq(picks[i], x)
    {
      if i > 0 {
        assert picks[..i] == [id] + rest[..i - 1];
        assert id in picks[..i] && forall y :: y in rest[..i - 1] ==> y in picks[..i];
        assert x in available - {id} && x !in rest[..i - 1];
      }
    }
  }

  lemma {:induction false} PicksLeastFirst(req: Requirement, s: TaskState, tools: seq<Tool>, choices: nat -> Round, n: nat)
    requires s.state == NeedsReroute
    requires forall k :: choices(k).strategy != Random
    ensures LeastFirst(Exhaust(req, s, tools, choices, n).picks, Available(req, tools, Excluded(s)))
    decreases Remaining(s)
  {
    var step := Reroute(req, s, choices(n).(tools := tools, inProgram := true));
    if step.outcome.Rerouted? {
      AfterPick(req, s, tools, choices(n));
      PicksLeastFirst(req, Decline(step.state), tools, choices, n + 1);
      LeastPrepended(step.outcome.toolId, Exhaust(req, Decline(step.state), tools, choices, n + 1).picks,
                     Available(req, tools, Excluded(s)));
    }
  }

  lemma LeastFirstAscends(picks: seq<string>, available: set<string>)
    requires LeastFirst(picks, available) && NoDuplicates(picks)
    requires forall i :: 0 <= i < |picks| ==> picks[i] in available
    ensures forall i, j :: 0 <= i < j < |picks| ==> Leq(picks[i], picks[j]) && picks[i] != picks[j]
  {
    forall i, j | 0 <= i < j < |picks| ensures Leq(picks[i], picks[j]) {
      assert picks[j] !in picks[..i];
    }
  }

  /** Deterministic strategies pick in strictly ascending order of tool id, each time the least
      available tool not picked yet. */
  lemma RoundRobinAscends(req: Requirement, s: TaskState, tools: seq<Tool>, choices: nat -> Round, n: nat)
    requires s.state == NeedsReroute
    requires forall k :: choices(k).strategy != Random
    ensures var picks := Exhaust(req, s, tools, choices, n).picks;
            && LeastFirst(picks, Available(req, tools, Excluded(s)))
            && forall i, j :: 0 <= i < j < |picks| ==> Leq(picks[i], picks[j]) && picks[i] != picks[j]
  {
    ClosedForm(req, s, tools, choices, n);
    PicksLeastFirst(req, s, tools, choices, n);
    LeastFirstAscends(Exhaust(req, s, tools, choices, n).picks, Available(req, tools, Excluded(s)));
  }
}
