/** The reroute script as it runs, proved to compute the functions of `RerouteModel`. */
module RerouteTask {
  import opened Prelude
  import opened RerouteModel

  method BuildExclusionSet(s: TaskState) returns (excluded: set<string>)
    ensures excluded == Excluded(s)
  {
    excluded := set t | t in s.excludedTools;
    for i := 0 to |s.attemptHistory|
      invariant excluded == (set t | t in s.excludedTools) + (set a | a in s.attemptHistory[..i] :: a.toolId)
    {
      assert s.attemptHistory[..i + 1] == s.attemptHistory[..i] + [s.attemptHistory[i]];
      excluded := excluded + {s.attemptHistory[i].toolId};
    }
    assert s.attemptHistory[..|s.attemptHistory|] == s.attemptHistory;
  }

  method HasCapabilities(required: seq<string>, t: Tool) returns (has: bool)
    ensures has <==> forall i :: 0 <= i < |required| ==> required[i] in t.capabilities
  {
    for i := 0 to |required|
      invariant forall j :: 0 <= j < i ==> required[j] in t.capabilities
    {
      if required[i] !in t.capabilities {
        return false;
      }
    }
    return true;
  }

  method FilterEligibleTools(req: Requirement, tools: seq<Tool>) returns (matched: seq<Tool>)
    ensures matched == EligibleTools(req, tools)
  {
    matched := [];
    for i := 0 to |tools|
      invariant matched == EligibleTools(req, tools[..i])
    {
      assert tools[..i + 1][..i] == tools[..i];
      var tool := tools[i];
      if tool.toolClass != Some(req.toolClass) {
        continue;
      }
      if tool.status != Some("AVAILABLE") {
        continue;
      }
      var has := HasCapabilities(req.capabilities, tool);
      if has {
        matched := matched + [tool];
      }
    }
    assert tools[..|tools|] == tools;
  }

  /** One pass with the exclusion test first, then the sort: the same tools as filtering the
      administrative pipeline's selection. */
  method FilterRerouteCandidates(req: Requirement, tools: seq<Tool>, excluded: set<string>)
    returns (candidates: seq<Tool>)
    ensures candidates == Candidates(req, tools, excluded)
  {
    candidates := [];
    for i := 0 to |tools|
      invariant candidates == Untried(EligibleTools(req, tools[..i]), excluded)
    {
      assert tools[..i + 1][..i] == tools[..i];
      var tool := tools[i];
      ghost var eligible := EligibleTools(req, tools[..i]);
      assert EligibleTools(req, tools[..i + 1]) == if Eligible(req, tool) then eligible + [tool] else eligible;
      UntriedSnoc(eligible, tool, excluded);
      if tool.toolId in excluded {
        continue;
      }
      if tool.toolClass != Some(req.toolClass) {
        continue;
      }
      if tool.status != Some("AVAILABLE") {
        continue;
      }
      var has := HasCapabilities(req.capabilities, tool);
      if has {
        candidates := candidates + [tool];
      }
    }
    assert tools[..|tools|] == tools;
    candidates := SortById(candidates);
  }

  lemma UntriedSnoc(tools: seq<Tool>, t: Tool, excluded: set<string>)
    ensures Untried(tools + [t], excluded) ==
            if t.toolId in excluded then Untried(tools, excluded) else Untried(tools, excluded) + [t]
  {
    assert (tools + [t])[..|tools|] == tools;
  }

  /** One invocation of the script on a stored task state. */
  method RerouteOnce(req: Requirement, s: TaskState, r: Round) returns (updated: TaskState, outcome: Outcome)
    ensures Step(updated, outcome) == Reroute(req, s, r)
  {
    updated := s;
    if s.state != NeedsReroute {
      return updated, Refused;
    }
    if CheckMaxAttempts(s) {
      updated := UpdateForExhaustion(s, MAX_ATTEMPTS_REACHED);
      return updated, Exhausted(MAX_ATTEMPTS_REACHED, Escalates(s));
    }
    var excluded := BuildExclusionSet(s);
    var candidates := FilterRerouteCandidates(req, r.tools, excluded);
    if |candidates| == 0 {
      updated := UpdateForExhaustion(s, EXHAUSTED);
      return updated, Exhausted(EXHAUSTED, Escalates(s));
    }
    var selected := SelectTool(candidates, r.strategy, r.draw);
    if !r.inProgram {
      return updated, TaskMissing;
    }
    updated := UpdateForReroute(s, r.tarId, selected.value.toolId);
    outcome := Rerouted(selected.value.toolId);
  }
}
