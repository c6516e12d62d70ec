/** The petition bridge: batches of pending rows are submitted, and every row's status and
    retry count follow the outcomes. */
module Bridge {
  import opened Prelude

  datatype Status = Pending | Processing | Submitted | Failed | DeadLetter

  datatype Row = Row(status: Status, retryCount: nat, remoteId: Option<string>, remoteState: Option<string>, error: Option<string>)

  type Table = map<string, Row>

  datatype Config = Config(batchSize: nat, maxRetries: int, dryRun: bool)

  /** What a submission meets. */
  datatype Outcome =
    | Accepted(remoteId: string, remoteState: string)
    | Permanent(message: string)
    | Transient(message: string)
    | Unexpected(message: string)

  /** A fetched record: its id and the retry count at fetch time. */
  datatype Petition = Petition(id: string, retryCount: nat)

  datatype ProcessingResult = ProcessingResult(petitionId: string, success: bool, remoteId: Option<string>,
                                               remoteState: Option<string>, error: Option<string>, shouldRetry: bool)

  function Cut(s: string, n: nat): string {
    if |s| <= n then s else s[..n]
  }

  // ---------- one row ----------

  /** What processing does to the petition's own row. The retry limit is checked against the
      count that was fetched; the count that is incremented is the row's at that time. */
  function RowStep(cfg: Config, fetched: nat, row: Row, o: Outcome): Row {
    if cfg.dryRun then row else
      match o
      case Accepted(id, state) => row.(status := Submitted, remoteId := Some(id), remoteState := Some(state), error := None)
      case Permanent(e) => row.(status := Failed, error := Some(Cut(e, 1000)))
      case Transient(e) =>
        if fetched >= cfg.maxRetries then row.(status := DeadLetter, error := Some("DEAD_LETTER: " + Cut(e, 900)))
        else row.(status := Failed, retryCount := row.retryCount + 1, error := Some(Cut(e, 1000)))
      case Unexpected(e) =>
        row.(status := Failed, retryCount := row.retryCount + 1, error := Some(Cut("Unexpected: " + e, 1000)))
  }

  function ResultFor(cfg: Config, p: Petition, o: Outcome): ProcessingResult {
    if cfg.dryRun then ProcessingResult(p.id, true, Some("dry-run-id"), Some("DRY_RUN"), None, false) else
      match o
      case Accepted(id, state) => ProcessingResult(p.id, true, Some(id), Some(state), None, false)
      case Permanent(e) => ProcessingResult(p.id, false, None, None, Some(e), false)
      case Transient(e) =>
        if p.retryCount >= cfg.maxRetries
        then ProcessingResult(p.id, false, None, None, Some("DEAD_LETTER: " + e), false)
        else ProcessingResult(p.id, false, None, None, Some(e), true)
      case Unexpected(e) => ProcessingResult(p.id, false, None, None, Some(e), true)
  }

  // ---------- the client and the extractor ----------

  class SupabaseClient {
    var rows: Table

    constructor (rows: Table)
      ensures this.rows == rows
    {
      this.rows := rows;
    }

    method MarkProcessing(ids: seq<string>)
      modifies this
      ensures rows == map id | id in old(rows) :: if id in ids then old(rows)[id].(status := Processing) else old(rows)[id]
    {
      rows := map id | id in rows :: if id in ids then rows[id].(status := Processing) else rows[id];
    }

    method MarkSubmitted(id: string, remoteId: string, remoteState: string)
      modifies this
      ensures rows == if id in old(rows)
                      then old(rows)[id := old(rows)[id].(status := Submitted, remoteId := Some(remoteId),
                                                          remoteState := Some(remoteState), error := None)]
                      else old(rows)
    {
      if id in rows {
        rows := rows[id := rows[id].(status := Submitted, remoteId := Some(remoteId),
                                     remoteState := Some(remoteState), error := None)];
      }
    }

    /** Reads the current retry count before writing it incremented. */
    method MarkFailed(id: string, error: string, increment: bool)
      modifies this
      ensures rows == if id in old(rows)
                      then old(rows)[id := old(rows)[id].(status := Failed, error := Some(Cut(error, 1000)),
                                                          retryCount := old(rows)[id].retryCount + if increment then 1 else 0)]
                      else old(rows)
    {
      var current := if increment && id in rows then rows[id].retryCount + 1 else 0;
      if id in rows {
        rows := rows[id := rows[id].(status := Failed, error := Some(Cut(error, 1000)))];
        if increment {
          rows := rows[id := rows[id].(retryCount := current)];
        }
      }
    }

    method MarkDeadLetter(id: string, error: string)
      modifies this
      ensures rows == if id in old(rows)
                      then old(rows)[id := old(rows)[id].(status := DeadLetter, error := Some("DEAD_LETTER: " + Cut(error, 900)))]
                      else old(rows)
    {
      if id in rows {
        rows := rows[id := rows[id].(status := DeadLetter, error := Some("DEAD_LETTER: " + Cut(error, 900)))];
      }
    }

    /** No guard: any row, even a dead letter, becomes pending, with its retry count. */
    method ResetToPending(id: string)
      modifies this
      ensures rows == ResetRow(old(rows), id)
    {
      if id in rows {
        rows := rows[id := rows[id].(status := Pending, error := None)];
      }
    }
  }

  function ResetRow(t: Table, id: string): Table {
    if id in t then t[id := t[id].(status := Pending, error := None)] else t
  }

  /** What the fetch query may return: distinct pending rows, at most the batch size. */
  ghost predicate Fetched(t: Table, cfg: Config, ids: seq<string>) {
    && NoDuplicates(ids) && |ids| <= cfg.batchSize
    && forall i :: 0 <= i < |ids| ==> ids[i] in t && t[ids[i]].status == Pending
  }

  function Counted(results: seq<ProcessingResult>, p: ProcessingResult -> bool): nat {
    if results == [] then 0
    else Counted(results[..|results| - 1], p) + if p(results[|results| - 1]) then 1 else 0
  }

  predicate Success(r: ProcessingResult) { r.success }

  predicate Failure(r: ProcessingResult) { !r.success }

  predicate Retryable(r: ProcessingResult) { r.shouldRetry }

  class PetitionExtractor {
    const cfg: Config
    const supabase: SupabaseClient

    constructor (cfg: Config, supabase: SupabaseClient)
      ensures this.cfg == cfg && this.supabase == supabase
    {
      this.cfg, this.supabase := cfg, supabase;
    }

    method ProcessSingle(p: Petition, o: Outcome) returns (result: ProcessingResult)
      modifies supabase
      ensures supabase.rows == if p.id in old(supabase.rows)
                               then old(supabase.rows)[p.id := RowStep(cfg, p.retryCount, old(supabase.rows)[p.id], o)]
                               else old(supabase.rows)
      ensures result == ResultFor(cfg, p, o)
    {
      if cfg.dryRun {
        return ProcessingResult(p.id, true, Some("dry-run-id"), Some("DRY_RUN"), None, false);
      }
      match o {
        case Accepted(id, state) =>
          supabase.MarkSubmitted(p.id, id, state);
          return ProcessingResult(p.id, true, Some(id), Some(state), None, false);
        case Permanent(e) =>
          supabase.MarkFailed(p.id, e, false);
          return ProcessingResult(p.id, false, None, None, Some(e), false);
        case Transient(e) =>
          if p.retryCount >= cfg.maxRetries {
            supabase.MarkDeadLetter(p.id, e);
            return ProcessingResult(p.id, false, None, None, Some("DEAD_LETTER: " + e), false);
          }
          supabase.MarkFailed(p.id, e, true);
          return ProcessingResult(p.id, false, None, None, Some(e), true);
        case Unexpected(e) =>
          supabase.MarkFailed(p.id, "Unexpected: " + e, true);
          return ProcessingResult(p.id, false, None, None, Some(e), true);
      }
    }

    /** One batch over the fetched ids; `outcome` says what each submission meets. */
    method ProcessBatch(ids: seq<string>, outcome: string -> Outcome)
      returns (results: seq<ProcessingResult>, total: nat, successful: nat, failed: nat, retryable: nat)
      requires Fetched(supabase.rows, cfg, ids)
      modifies supabase
      ensures supabase.rows == Batch(cfg, old(supabase.rows), ids, outcome)
      ensures |results| == |ids|
      ensures forall i :: 0 <= i < |ids| ==>
                results[i] == ResultFor(cfg, Petition(ids[i], old(supabase.rows)[ids[i]].retryCount), outcome(ids[i]))
      ensures total == |ids| && successful == Counted(results, Success)
      ensures failed == Counted(results, Failure) && retryable == Counted(results, Retryable)
      ensures total == successful + failed && retryable <= failed
    {
      var petitions := Fetch(ids);
      ghost var before := supabase.rows;
      supabase.MarkProcessing(ids);
      results := [];
      ProgressStart(cfg, before, ids, outcome);
      for i := 0 to |ids|
        invariant |results| == i
        invariant forall j :: 0 <= j < i ==> results[j] == ResultFor(cfg, petitions[j], outcome(ids[j]))
        invariant supabase.rows == Progress(cfg, before, ids, outcome, i)
      {
        ProgressNext(cfg, before, ids, outcome, i);
        var result := ProcessSingle(petitions[i], outcome(ids[i]));
        results := results + [result];
      }
      ProgressEnd(cfg, before, ids, outcome);
      total, successful := |results|, Counted(results, Success);
      failed, retryable := Counted(results, Failure), Counted(results, Retryable);
      CountsAddUp(results);
    }

    /** The fetched records, read before the rows are marked as processing. */
    method Fetch(ids: seq<string>) returns (petitions: seq<Petition>)
      requires Fetched(supabase.rows, cfg, ids)
      ensures |petitions| == |ids|
      ensures forall i :: 0 <= i < |ids| ==> petitions[i] == Petition(ids[i], supabase.rows[ids[i]].retryCount)
    {
      petitions := [];
      for i := 0 to |ids|
        invariant |petitions| == i
        invariant forall j :: 0 <= j < i ==> petitions[j] == Petition(ids[j], supabase.rows[ids[j]].retryCount)
      {
        petitions := petitions + [Petition(ids[i], supabase.rows[ids[i]].retryCount)];
      }
    }
  }

  lemma {:induction false} CountsAddUp(results: seq<ProcessingResult>)
    requires forall i :: 0 <= i < |results| ==> results[i].shouldRetry ==> !results[i].success
    ensures Counted(results, Success) + Counted(results, Failure) == |results|
    ensures Counted(results, Retryable) <= Counted(results, Failure)
  {
    if results != [] {
      CountsAddUp(results[..|results| - 1]);
    }
  }

  /** A row after its own submission in a batch. */
  function Processed(cfg: Config, row: Row, o: Outcome): Row {
    RowStep(cfg, row.retryCount, row.(status := Processing), o)
  }

  function Batch(cfg: Config, t: Table, ids: seq<string>, outcome: string -> Outcome): Table {
    map id | id in t :: if id in ids then Processed(cfg, t[id], outcome(id)) else t[id]
  }

  /** The table when the first n petitions of a batch have been processed. */
  function Progress(cfg: Config, t: Table, ids: seq<string>, outcome: string -> Outcome, n: nat): Table
    requires n <= |ids|
  {
    map id | id in t ::
      if id in ids[..n] then Processed(cfg, t[id], outcome(id))
      else if id in ids then t[id].(status := Processing)
      else t[id]
  }

  lemma ProgressStart(cfg: Config, t: Table, ids: seq<string>, outcome: string -> Outcome)
    ensures Progress(cfg, t, ids, outcome, 0)
         == map id | id in t :: if id in ids then t[id].(status := Processing) else t[id]
  {
  }

  lemma ProgressNext(cfg: Config, t: Table, ids: seq<string>, outcome: string -> Outcome, n: nat)
    requires n < |ids| && NoDuplicates(ids) && ids[n] in t
    ensures var id, now := ids[n], Progress(cfg, t, ids, outcome, n);
            && id in now && now[id := RowStep(cfg, t[id].retryCount, now[id], outcome(id))]
                            == Progress(cfg, t, ids, outcome, n + 1)
  {
    assert ids[n] !in ids[..n] && ids[n] in ids;
    assert forall id :: id in ids[..n + 1] <==> id in ids[..n] || id == ids[n];
  }

  lemma ProgressEnd(cfg: Config, t: Table, ids: seq<string>, outcome: string -> Outcome)
    ensures Progress(cfg, t, ids, outcome, |ids|) == Batch(cfg, t, ids, outcome)
  {
    assert ids[..|ids|] == ids;
  }

  // ---------- whole runs ----------

  datatype Action = RunBatch(ids: seq<string>, outcome: string -> Outcome) | Reset(id: string)

  function Act(cfg: Config, t: Table, a: Action): Table {
    match a
    case RunBatch(ids, outcome) => Batch(cfg, t, ids, outcome)
    case Reset(id) => ResetRow(t, id)
  }

  function Lifecycle(cfg: Config, t: Table, actions: seq<Action>): Table {
    if actions == [] then t else Act(cfg, Lifecycle(cfg, t, actions[..|actions| - 1]), actions[|actions| - 1])
  }

  /** The outcomes a petition met, in order. */
  function OutcomesOf(actions: seq<Action>, id: string): seq<Outcome> {
    if actions == [] then [] else
      var a := actions[|actions| - 1];
      OutcomesOf(actions[..|actions| - 1], id) + if a.RunBatch? && id in a.ids then [a.outcome(id)] else []
  }

  function Transients(os: seq<Outcome>): nat {
    if os == [] then 0 else Transients(os[..|os| - 1]) + if os[|os| - 1].Transient? then 1 else 0
  }

  function Unexpecteds(os: seq<Outcome>): nat {
    if os == [] then 0 else Unexpecteds(os[..|os| - 1]) + if os[|os| - 1].Unexpected? then 1 else 0
  }

  function Failures(os: seq<Outcome>): nat {
    if os == [] then 0
    else Failures(os[..|os| - 1]) + if os[|os| - 1].Transient? || os[|os| - 1].Unexpected? then 1 else 0
  }

  /** The transient failures met before all failures together had used up the retries, when
      the row started with r of them. */
  function Retried(cfg: Config, r: nat, os: seq<Outcome>): nat {
    if os == [] then 0 else
      var front := os[..|os| - 1];
      Retried(cfg, r, front) + if os[|os| - 1].Transient? && r + Failures(front) < cfg.maxRetries then 1 else 0
  }

  /** The retries a row that starts with r of them has left. */
  function Room(cfg: Config, r: nat): nat {
    if cfg.maxRetries <= r then 0 else cfg.maxRetries - r
  }

  function Cap(cfg: Config): nat {
    if cfg.maxRetries < 0 then 0 else cfg.maxRetries
  }

  function Least(a: nat, b: nat): nat {
    if a < b then a else b
  }

  /** What an action does to one row. */
  function RowAct(cfg: Config, row: Row, a: Action, id: string): Row {
    match a
    case RunBatch(ids, outcome) => if id in ids then Processed(cfg, row, outcome(id)) else row
    case Reset(x) => if x == id then row.(status := Pending, error := None) else row
  }

  function RowLifecycle(cfg: Config, row: Row, actions: seq<Action>, id: string): Row {
    if actions == [] then row
    else RowAct(cfg, RowLifecycle(cfg, row, actions[..|actions| - 1], id), actions[|actions| - 1], id)
  }

  lemma ActOnRow(cfg: Config, t: Table, a: Action, id: string)
    requires id in t
    ensures id in Act(cfg, t, a) && Act(cfg, t, a)[id] == RowAct(cfg, t[id], a, id)
  {
  }

  /** A row's fate in the table is its fate on its own. */
  lemma {:induction false} LifecycleOfRow(cfg: Config, t: Table, actions: seq<Action>, id: string)
    requires id in t
    ensures id in Lifecycle(cfg, t, actions)
    ensures Lifecycle(cfg, t, actions)[id] == RowLifecycle(cfg, t[id], actions, id)
  {
    if actions != [] {
      var front := actions[..|actions| - 1];
      LifecycleOfRow(cfg, t, front, id);
      ActOnRow(cfg, Lifecycle(cfg, t, front), actions[|actions| - 1], id);
    }
  }

  lemma OutcomesSnoc(cfg: Config, r: nat, front: seq<Outcome>, o: Outcome)
    ensures Unexpecteds(front + [o]) == Unexpecteds(front) + (if o.Unexpected? then 1 else 0)
    ensures Transients(front + [o]) == Transients(front) + (if o.Transient? then 1 else 0)
    ensures Failures(front + [o]) == Failures(front) + (if o.Transient? || o.Unexpected? then 1 else 0)
    ensures Retried(cfg, r, front + [o]) ==
            Retried(cfg, r, front) + if o.Transient? && r + Failures(front) < cfg.maxRetries then 1 else 0
  {
    assert (front + [o])[..|front|] == front;
  }

  /** The retry count is the count of all failures, unless both have used up the retries. */
  ghost predicate InStep(cfg: Config, count: nat, failures: nat) {
    count == failures || (count >= cfg.maxRetries && failures >= cfg.maxRetries)
  }

  /** The retry count of a row that started with r retries, from its outcomes. */
  ghost predicate Counts(cfg: Config, r: nat, row: Row, os: seq<Outcome>) {
    if cfg.dryRun then row.retryCount == r else
      && row.retryCount == r + Unexpecteds(os) + Retried(cfg, r, os)
      && InStep(cfg, row.retryCount, r + Failures(os))
  }

  lemma ProcessedCounts(cfg: Config, r: nat, row: Row, os: seq<Outcome>, o: Outcome)
    requires Counts(cfg, r, row, os)
    ensures Counts(cfg, r, Processed(cfg, row, o), os + [o])
  {
    OutcomesSnoc(cfg, r, os, o);
  }

  lemma {:induction false} RowCounts(cfg: Config, row: Row, actions: seq<Action>, id: string)
    ensures Counts(cfg, row.retryCount, RowLifecycle(cfg, row, actions, id), OutcomesOf(actions, id))
  {
    if actions != [] {
      var front, a := actions[..|actions| - 1], actions[|actions| - 1];
      RowCounts(cfg, row, front, id);
      if a.RunBatch? && id in a.ids {
        ProcessedCounts(cfg, row.retryCount, RowLifecycle(cfg, row, front, id), OutcomesOf(front, id), a.outcome(id));
      } else {
        assert OutcomesOf(front, id) + [] == OutcomesOf(front, id);
      }
    }
  }

  /** The transient failures that raise the count never exceed the room there was, and when
      nothing was unexpected they are all of them, up to that room. */
  lemma {:induction false} RetriedExact(cfg: Config, r: nat, os: seq<Outcome>)
    ensures Retried(cfg, r, os) <= Least(Transients(os), Room(cfg, r))
    ensures Retried(cfg, r, os) <= Failures(os)
    ensures Unexpecteds(os) == 0 ==>
              Retried(cfg, r, os) == Least(Transients(os), Room(cfg, r)) && Failures(os) == Transients(os)
  {
    if os != [] {
      RetriedExact(cfg, r, os[..|os| - 1]);
    }
  }

  /** Over any batches and resets: the retry count grows by every unexpected exception, and by
      the transient failures met while all failures were fewer than the retries left. Without
      unexpected exceptions, that is the number of transient failures capped at the retries
      left; with them, the cap is exceeded by at most their number. */
  lemma RetryCountExact(cfg: Config, t: Table, actions: seq<Action>, id: string)
    requires id in t
    ensures var t', os, r := Lifecycle(cfg, t, actions), OutcomesOf(actions, id), t[id].retryCount;
            && id in t'
            && t'[id].retryCount == (if cfg.dryRun then r else r + Unexpecteds(os) + Retried(cfg, r, os))
            && Retried(cfg, r, os) <= Room(cfg, r)
            && (Unexpecteds(os) == 0 ==> Retried(cfg, r, os) == Least(Transients(os), Room(cfg, r)))
  {
    LifecycleOfRow(cfg, t, actions, id);
    RowCounts(cfg, t[id], actions, id);
    RetriedExact(cfg, t[id].retryCount, OutcomesOf(actions, id));
  }

  lemma RowAfterBatch(cfg: Config, t: Table, actions: seq<Action>, batch: Action, id: string)
    requires id in t && batch.RunBatch? && id in batch.ids
    ensures id in Act(cfg, Lifecycle(cfg, t, actions), batch)
    ensures Act(cfg, Lifecycle(cfg, t, actions), batch)[id]
         == Processed(cfg, RowLifecycle(cfg, t[id], actions, id), batch.outcome(id))
  {
    LifecycleOfRow(cfg, t, actions, id);
    ActOnRow(cfg, Lifecycle(cfg, t, actions), batch, id);
  }

  /** A batch dead-letters a petition exactly when it fails transiently and all failures it met
      before, transient or unexpected, have used up the retries. */
  lemma DeadLetterExactly(cfg: Config, t: Table, actions: seq<Action>, batch: Action, id: string)
    requires !cfg.dryRun && id in t && batch.RunBatch? && id in batch.ids
    ensures var t' := Act(cfg, Lifecycle(cfg, t, actions), batch);
            && id in t'
            && (t'[id].status == DeadLetter <==>
                  batch.outcome(id).Transient?
                  && t[id].retryCount + Failures(OutcomesOf(actions, id)) >= cfg.maxRetries)
  {
    RowAfterBatch(cfg, t, actions, batch, id);
    RowCounts(cfg, t[id], actions, id);
  }

  /** Some unexpected exception is met when the retries are already used up. */
  ghost predicate Overrun(cfg: Config, r: nat, os: seq<Outcome>) {
    exists i :: 0 <= i < |os| && os[i].Unexpected? && r + Failures(os[..i]) >= cfg.maxRetries
  }

  lemma OverrunSnoc(cfg: Config, r: nat, os: seq<Outcome>, o: Outcome)
    ensures Overrun(cfg, r, os + [o]) <==>
            Overrun(cfg, r, os) || (o.Unexpected? && r + Failures(os) >= cfg.maxRetries)
  {
    var all := os + [o];
    assert all[..|os|] == os && all[|os|] == o;
    assert forall i :: 0 <= i < |os| ==> all[..i] == os[..i] && all[i] == os[i];
  }

  lemma {:induction false} WithinLimit(cfg: Config, r: nat, os: seq<Outcome>)
    requires r <= Cap(cfg)
    ensures r + Unexpecteds(os) + Retried(cfg, r, os) <= Cap(cfg) <==> !Overrun(cfg, r, os)
    ensures InStep(cfg, r + Unexpecteds(os) + Retried(cfg, r, os), r + Failures(os))
  {
    if os != [] {
      var front, o := os[..|os| - 1], os[|os| - 1];
      WithinLimit(cfg, r, front);
      OverrunSnoc(cfg, r, front, o);
      SplitLast(os);
    }
  }

  /** Over any batches and resets, a retry count that starts within the limit stays within it
      exactly unless an unexpected exception meets the petition when its failures have already
      used up the retries: that path increments without checking. */
  lemma LimitKeptExactly(cfg: Config, t: Table, actions: seq<Action>, id: string)
    requires !cfg.dryRun && id in t && t[id].retryCount <= Cap(cfg)
    ensures id in Lifecycle(cfg, t, actions)
    ensures Lifecycle(cfg, t, actions)[id].retryCount <= Cap(cfg)
            <==> !Overrun(cfg, t[id].retryCount, OutcomesOf(actions, id))
  {
    RetryCountExact(cfg, t, actions, id);
    WithinLimit(cfg, t[id].retryCount, OutcomesOf(actions, id));
  }

  // ---------- what a submission does, and what it reports ----------

  function FirstChars(s: string, n: nat): (r: string)
    ensures r <= s && |r| == if |s| < n then |s| else n
  {
    s[..if |s| < n then |s| else n]
  }

  /** One submission in a batch: an accepted petition is submitted under its remote id, a
      permanent error fails it, a transient one fails and counts it while retries are left and
      dead-letters it afterwards, an unexpected exception fails and counts it in any case. */
  lemma SubmissionExactly(cfg: Config, t: Table, ids: seq<string>, outcome: string -> Outcome, id: string)
    requires id in t && id in ids
    ensures var row, o := t[id], outcome(id);
            var row' := Batch(cfg, t, ids, outcome)[id];
            if cfg.dryRun then row' == row.(status := Processing) else
              && (o.Accepted? ==> row' == Row(Submitted, row.retryCount, Some(o.remoteId), Some(o.remoteState), None))
              && (o.Permanent? ==>
                    row' == Row(Failed, row.retryCount, row.remoteId, row.remoteState, Some(FirstChars(o.message, 1000))))
              && (o.Transient? && row.retryCount < cfg.maxRetries ==>
                    row' == Row(Failed, row.retryCount + 1, row.remoteId, row.remoteState, Some(FirstChars(o.message, 1000))))
              && (o.Transient? && row.retryCount >= cfg.maxRetries ==>
                    row' == Row(DeadLetter, row.retryCount, row.remoteId, row.remoteState,
                                Some("DEAD_LETTER: " + FirstChars(o.message, 900))))
              && (o.Unexpected? ==>
                    row' == Row(Failed, row.retryCount + 1, row.remoteId, row.remoteState,
                                Some(FirstChars("Unexpected: " + o.message, 1000))))
  {
    var o := outcome(id);
    if !o.Accepted? {
      CutExactly(o.message, 1000);
      CutExactly(o.message, 900);
      CutExactly("Unexpected: " + o.message, 1000);
    }
  }

  lemma CutExactly(s: string, n: nat)
    ensures Cut(s, n) == FirstChars(s, n)
  {
    assert s[..|s|] == s;
  }

  /** What is reported about a petition agrees with what was stored: success exactly when it is
      now submitted, a retry exactly when its count was raised. */
  lemma ReportTells(cfg: Config, id: string, row: Row, o: Outcome)
    ensures var report, row' := ResultFor(cfg, Petition(id, row.retryCount), o), Processed(cfg, row, o);
            if cfg.dryRun then report == ProcessingResult(id, true, Some("dry-run-id"), Some("DRY_RUN"), None, false) else
            && report.petitionId == id
            && (report.success <==> row'.status == Submitted)
            && (report.success ==> report.remoteId == row'.remoteId && report.remoteState == row'.remoteState && report.error.None?)
            && (report.shouldRetry <==> row'.retryCount == row.retryCount + 1)
            && (!report.shouldRetry <==> row'.retryCount == row.retryCount)
            && (!report.success ==> report.error.Some? && report.remoteId.None? && report.remoteState.None?)
            && (!report.success ==>
                  report.error.value == (if row'.status == DeadLetter then "DEAD_LETTER: " else "") + o.message)
  {
  }

  /** What happened last to a petition. */
  datatype Last = Untouched | WasReset | Met(outcome: Outcome)

  function LastAbout(actions: seq<Action>, id: string): Last {
    if actions == [] then Untouched else
      match actions[|actions| - 1]
      case Reset(x) => if x == id then WasReset else LastAbout(actions[..|actions| - 1], id)
      case RunBatch(ids, outcome) => if id in ids then Met(outcome(id)) else LastAbout(actions[..|actions| - 1], id)
  }

  /** The remote id and state of the last accepted submission. */
  function LastAccepted(os: seq<Outcome>): Option<(string, string)> {
    if os == [] then None
    else if os[|os| - 1].Accepted? then Some((os[|os| - 1].remoteId, os[|os| - 1].remoteState))
    else LastAccepted(os[..|os| - 1])
  }

  /** The row of a petition that started as `start`, from what it met and what came last. */
  ghost predicate Settled(cfg: Config, start: Row, row: Row, os: seq<Outcome>, last: Last) {
    && row.status == (match last
                      case Untouched => start.status
                      case WasReset => Pending
                      case Met(o) =>
                        match o
                        case Accepted(_, _) => Submitted
                        case Transient(_) => if start.retryCount + Failures(os) > cfg.maxRetries then DeadLetter else Failed
                        case _ => Failed)
    && (match LastAccepted(os)
        case Some(pair) => row.remoteId == Some(pair.0) && row.remoteState == Some(pair.1)
        case None => row.remoteId == start.remoteId && row.remoteState == start.remoteState)
  }

  lemma AcceptedSnoc(os: seq<Outcome>, o: Outcome)
    ensures LastAccepted(os + [o]) == if o.Accepted? then Some((o.remoteId, o.remoteState)) else LastAccepted(os)
  {
    assert (os + [o])[..|os|] == os;
  }

  lemma ProcessedSettles(cfg: Config, start: Row, row: Row, os: seq<Outcome>, last: Last, o: Outcome)
    requires !cfg.dryRun && Counts(cfg, start.retryCount, row, os) && Settled(cfg, start, row, os, last)
    ensures Settled(cfg, start, Processed(cfg, row, o), os + [o], Met(o))
  {
    OutcomesSnoc(cfg, start.retryCount, os, o);
    AcceptedSnoc(os, o);
  }

  lemma {:induction false} RowSettles(cfg: Config, row: Row, actions: seq<Action>, id: string)
    requires !cfg.dryRun
    ensures Settled(cfg, row, RowLifecycle(cfg, row, actions, id), OutcomesOf(actions, id), LastAbout(actions, id))
  {
    if actions != [] {
      var front, a := actions[..|actions| - 1], actions[|actions| - 1];
      RowSettles(cfg, row, front, id);
      RowCounts(cfg, row, front, id);
      if a.RunBatch? && id in a.ids {
        ProcessedSettles(cfg, row, RowLifecycle(cfg, row, front, id), OutcomesOf(front, id), LastAbout(front, id), a.outcome(id));
      } else {
        assert OutcomesOf(front, id) + [] == OutcomesOf(front, id);
      }
    }
  }

  /** Over any batches and resets, a petition's status is that of what happened last: pending
      after a reset, submitted after an acceptance, dead-lettered after a transient failure if
      all failures together exceed the limit, failed otherwise; and its remote id and state are
      those of the last acceptance. */
  lemma StatusExactly(cfg: Config, t: Table, actions: seq<Action>, id: string)
    requires !cfg.dryRun && id in t
    ensures id in Lifecycle(cfg, t, actions)
    ensures Settled(cfg, t[id], Lifecycle(cfg, t, actions)[id], OutcomesOf(actions, id), LastAbout(actions, id))
  {
    LifecycleOfRow(cfg, t, actions, id);
    RowSettles(cfg, t[id], actions, id);
  }
}
