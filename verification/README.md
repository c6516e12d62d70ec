# Archon 72: vote consensus, alerting, rerouting and their neighbours

A Dafny model of the parts of Archon 72 that keep state over a long run, and proofs of what
they keep. Check it with `dafny verify dfyconfig.toml`.

- **Consensus aggregation** (`ConsensusModel`, `ConsensusAggregator`, `ConsensusViews`,
  `ConsensusReplay`, `ConsensusSafety`, `ConsensusDecisions`, `ConsensusCounters`). The
  aggregator consumes an at-least-once log of secretary results, witness verdicts and legacy
  validator results and publishes witness requests, validated votes and dead letters.
  `ConsensusModel` says on values what a message does to its vote; the classes of
  `ConsensusAggregator` update vote objects and counters in place and are proved to compute it;
  the other modules prove theorems about whole runs. Publishing succeeds or fails as an oracle says, whose answer may depend on the vote, on
  its earlier publish attempts and, since one broker and one circuit breaker serve all votes, on
  the attempts of the whole aggregator. Unless they say `Reliable` or `PerVote`, theorems hold
  for every oracle: those about one run, and those that drop messages which make no publish
  attempt. Theorems that compare a vote across different logs need answers given vote by vote
  (`PerVote`), as by a reliable broker. Every single run is a run of such a broker
  (`EveryRunIsPerVote`), but with shared answers votes are independent exactly when all answers
  are the same (`SharedAnswersCouple`). The metrics record is a multiset of counters.
  `attempts` and `disagreements` are history variables of a vote, its publish attempts and the
  evaluations counted as a disagreement; the counter `PublishAttempts` is the history of all
  attempts.
- **Legitimacy alerting** (`AlertingModel`, `LegitimacyAlerting`, `AlertingProofs`). Scores are
  reals; an alert keeps the severity it was triggered with, as
  `src/domain/models/legitimacy_alert_state.py` has it.
- **The refusal loop** (`RerouteModel`, `RerouteTask`, `RerouteProofs`, `Lexicographic`).
  A declined task is rerouted to an untried tool until attempts or tools run out.
- **The motion ledger** (`Registrar`), **retry decisions and backoff** (`ErrorHandling`),
  **the petition bridge** (`Bridge`) and **the vote-transcript scanners** (`VoteTranscript`,
  with the string operations in `Text`).

Where the code and its own documentation differ, the model follows the code:

- The aggregator is documented as safe for at-least-once delivery. That is proved for secretary
  and legacy results. Witness verdicts are not deduplicated: one is ignored exactly unless its
  vote awaits its witness (`VerdictIgnoredExactly`), so a repeated verdict has an effect when
  the first publish failed (`RepeatedVerdictExactly`), and one that was ignored can validate the
  vote when it is delivered again (`EarlyVerdictNeedsRedelivery`).
- Session filtering is documented as disabled by `None`; an empty session id disables it too.
- A disagreement is meant to be differing latest responses. When a dead-letter publish fails,
  the vote stays in DISAGREEMENT and any later stored response is counted as well, even one that
  decides nothing (`CountedExactly`, `FailedDeadLetterRecounts`).
- A recovery is documented as the score rising above the threshold; a critical alert also
  recovers while the warning threshold is still breached (`RecoveryMatchesTrigger`).
- Backoff delays are documented as capped; the first delay is not, and a negative configured
  base draws below itself. `DelaysInRangeExactly` gives the exact condition.
- An unexpected exception in the bridge increments the retry count without checking the limit;
  `LimitKeptExactly` says when that exceeds it.
- The text the scanners attribute to the last archon of a vote transcript includes the vote
  summary (`TranscriptRoundTrip`).
- `reset_to_pending` is documented for failed petitions; it has no guard and resets any row.

## Model

| member | source | states |
|---|---|---|
| ConsensusAggregator.VoteAggregation.AddResponse | src/workers/consensus_aggregator.py:126-149 | a legacy response is stored once under validator and attempt; a second one changes nothing and is reported |
| ConsensusAggregator.VoteAggregation.AddSecretaryResponse | src/workers/consensus_aggregator.py:254-276 | the same for secretaries, first write wins |
| ConsensusAggregator.VoteAggregation.GetLatestResponses | src/workers/consensus_aggregator.py:151-175 | the loop computes the latest-response view (all of one attempt when one is named) |
| ConsensusAggregator.OfAttemptExactly | src/workers/consensus_aggregator.py:159-164 | with an attempt named, the view holds the responses of that attempt and no others, in order |
| ConsensusAggregator.VoteAggregation.GetSecretaryResponses | src/workers/consensus_aggregator.py:278-302 | the loop computes the latest response per role, optionally of one attempt |
| ConsensusAggregator.VoteAggregation.CheckConsensus | src/workers/consensus_aggregator.py:177-203 | the set-of-choices test decides unanimity of the latest responses and sets choice, confidence and status |
| ConsensusAggregator.VoteAggregation.CheckSecretaryConsensus | src/workers/consensus_aggregator.py:304-333 | decides on each role's latest response, whatever their attempts |
| ConsensusAggregator.ConsensusAggregator.PublishWitnessRequest | src/workers/consensus_aggregator.py:597-641 | status, counter and log change only when the publish is confirmed |
| ConsensusAggregator.ConsensusAggregator.PublishValidatedWithWitness | src/workers/consensus_aggregator.py:643-700 | the same for the witnessed record, counting agreements and dissents |
| ConsensusAggregator.ConsensusAggregator.PublishValidated | src/workers/consensus_aggregator.py:702-746 | the same for the legacy record |
| ConsensusAggregator.ConsensusAggregator.PublishDeadLetter | src/workers/consensus_aggregator.py:748-797 | the same for the dead letter |
| ConsensusAggregator.ConsensusAggregator.ReceiveSecretary | src/workers/consensus_aggregator.py:895-980 | a secretary result: terminal votes and duplicates skipped, else stored, checked, requested, retried or dead-lettered |
| ConsensusAggregator.ConsensusAggregator.ReceiveWitness | src/workers/consensus_aggregator.py:982-1033 | a verdict counts only for a vote awaiting its witness |
| ConsensusAggregator.ConsensusAggregator.ReceiveLegacy | src/workers/consensus_aggregator.py:1035-1099 | a legacy result, by the same rules |
| ConsensusAggregator.ConsensusAggregator.Process | src/workers/consensus_aggregator.py:910-924 | a vote is found or created by its first result, never by a verdict |
| ConsensusAggregator.ConsensusAggregator.ProcessMessage | src/workers/consensus_aggregator.py:853-893 | one message on the heap is one step of the value model |
| ConsensusAggregator.ConsensusAggregator.Run | src/workers/consensus_aggregator.py:1122-1148 | a log on the heap is a run of the value model |
| ConsensusAggregator.ConsensusAggregator.GetPendingVotes | src/workers/consensus_aggregator.py:1182-1193 | the non-terminal ids, in insertion order |
| ConsensusViews.DuplicateExactly | src/workers/consensus_aggregator.py:135-146 | the string key drops a response exactly when the same validator answered the same attempt, colons in ids included |
| ConsensusViews.DuplicateSecretaryExactly | src/workers/consensus_aggregator.py:263-273 | the same for role and attempt |
| ConsensusViews.LatestByRoleExact | src/workers/consensus_aggregator.py:289-302 | the view holds a maximum-attempt response of every role heard, and of no other |
| ConsensusViews.LatestByValidatorExact | src/workers/consensus_aggregator.py:166-175 | the view holds exactly one maximum-attempt response per validator heard |
| ConsensusViews.ValidatorViewExact | src/workers/consensus_aggregator.py:166-175 | for any enumeration of the dictionary, a response is in the view exactly when none supersedes it |
| ConsensusSafety.ReachableViewsOrderIndependent | src/workers/consensus_aggregator.py:151-203 | in every reachable vote, views and the legacy decision are the same for every iteration order |
| ConsensusReplay.Locality | src/workers/consensus_aggregator.py:853-1099 | with answers given vote by vote, a vote's state and records in any run are those of running its own messages alone |
| ConsensusReplay.EveryRunIsPerVote | src/workers/consensus_aggregator.py:597-641 | whatever broker and breaker do, a run is one of a broker answering vote by vote: a vote's fate depends on its own messages and on the answers its own attempts got |
| ConsensusReplay.SharedAnswersCouple | src/workers/consensus_aggregator.py:494-498 | with answers shared by all votes, votes are independent in all runs exactly when all answers are the same |
| ConsensusReplay.InterleavingIrrelevant | src/workers/consensus_aggregator.py:853-1099 | with answers given vote by vote, logs that agree vote by vote give the same vote map and per-vote records |
| ConsensusReplay.PartitioningIrrelevant | src/workers/consensus_aggregator.py:853-1099 | with answers given vote by vote, consuming by partitions gives every vote the same fate |
| ConsensusReplay.AtLeastOnceIsExactlyOnce | src/workers/consensus_aggregator.py:927-945 | for every oracle, run-wide ones included, dropping repeated secretary and legacy messages changes only the consumed and duplicate counters |
| ConsensusReplay.VerdictIgnoredExactly | src/workers/consensus_aggregator.py:1001-1012 | a verdict changes nothing but the consumed counter exactly unless its vote awaits its witness |
| ConsensusReplay.IgnoredVerdictRemovable | src/workers/consensus_aggregator.py:1001-1012 | a verdict that its vote does not await can be dropped from any log without changing votes, records or other counters |
| ConsensusReplay.RepeatedVerdictExactly | src/workers/consensus_aggregator.py:1006-1033 | a verdict repeated at once has an effect exactly when the vote awaited it and the first record could not be published |
| ConsensusReplay.EarlyVerdictNeedsRedelivery | src/workers/consensus_aggregator.py:1001-1012 | a verdict before its vote is ignored, and its redelivery validates the vote |
| ConsensusReplay.SessionBoundedReplay | src/workers/consensus_aggregator.py:866-876 | for every oracle, a filtered mixed log equals the session's own sublog, with or without the filter, up to two counters |
| ConsensusSafety.WitnessedRecordSound | src/workers/consensus_aggregator.py:304-400 | every witnessed record carries both latest secretary responses, both with the validated choice, their least confidence and a witness; the last request before it carried that choice |
| ConsensusSafety.LegacyRecordSound | src/workers/consensus_aggregator.py:177-228 | every legacy record is a unanimous, sufficiently large latest view with its least confidence and the right override flag |
| ConsensusSafety.DeadLetterRecordSound | src/workers/consensus_aggregator.py:230-248 | every dead letter comes from a spent retry budget |
| ConsensusSafety.TerminalAbsorbing | src/workers/consensus_aggregator.py:926-928 | no later message changes a validated or dead-lettered vote or publishes about it |
| ConsensusSafety.AtMostOneFinalRecord | src/workers/consensus_aggregator.py:683-797 | a vote has at most one record over the validated and dead-letter topics together |
| ConsensusSafety.RetryBudget | src/workers/consensus_aggregator.py:964-980 | retries never exceed the budget and equal the counted disagreements until it is spent, for any outcomes |
| ConsensusSafety.ReliableRetryBudget | src/workers/consensus_aggregator.py:957-980 | with reliable publishing a vote is dead-lettered exactly at disagreement budget + 1 and never rests in CONSENSUS or DISAGREEMENT |
| ConsensusSafety.CountedExactly | src/workers/consensus_aggregator.py:957-980 | a message counts as a disagreement exactly when it is a stored result after which the responses differ, or still wait while the vote rests in DISAGREEMENT |
| ConsensusSafety.ReliablyCountedExactly | src/workers/consensus_aggregator.py:957-980 | with reliable publishing, in any run, exactly the stored results after which the latest responses differ are counted |
| ConsensusSafety.FailedDeadLetterRecounts | src/workers/consensus_aggregator.py:1077-1099 | after one disagreement whose dead letter failed, a lone legacy response that decides nothing is counted as a second |
| ConsensusDecisions.SecretaryReadingExactly | src/workers/consensus_aggregator.py:304-333 | over any stored responses and attempts the two latest choices decide, agreement at the lower confidence |
| ConsensusDecisions.SecretaryWaitsExactly | src/workers/consensus_aggregator.py:311-315 | the check waits exactly while a role is unheard |
| ConsensusDecisions.ValidatorReadingExactly | src/workers/consensus_aggregator.py:177-203 | the legacy check waits exactly while fewer distinct validators than required were heard; one latest choice is agreement at the least confidence, two are disagreement |
| ConsensusDecisions.AgreementRequestsWitness | src/workers/consensus_aggregator.py:957-962 | in any run, a new secretary result after which the latest choices are equal has exactly the effect of a witness request with that choice, on vote, topics and counters |
| ConsensusDecisions.ReliableAgreement | src/workers/consensus_aggregator.py:957-962 | with reliable publishing, agreement, also on a retry, leaves the vote awaiting its witness with that choice |
| ConsensusDecisions.DifferenceRetriesOrDeadLetters | src/workers/consensus_aggregator.py:964-980 | if they differ, a retry is scheduled while retries are left, and a dead letter sent with the secretaries' reason otherwise |
| ConsensusDecisions.LoneSecretaryWaits | src/workers/consensus_aggregator.py:304-315 | while a secretary is unheard the result is only stored |
| ConsensusDecisions.UnanimityValidates | src/workers/consensus_aggregator.py:1081-1084 | enough validators of one latest choice validate the vote, with the override flag and the latest lines |
| ConsensusDecisions.DissentRetriesOrDeadLetters | src/workers/consensus_aggregator.py:1086-1099 | enough validators that differ lead to a retry or a dead letter with the validators' reason |
| ConsensusDecisions.TooFewWait | src/workers/consensus_aggregator.py:177-192 | with too few validators the result is only stored |
| ConsensusDecisions.SkippedExactly | src/workers/consensus_aggregator.py:926-945 | a result about a closed vote, or for an attempt already answered, changes nothing but the duplicate counter of an open vote |
| ConsensusDecisions.VerdictValidates | src/workers/consensus_aggregator.py:1014-1033 | a verdict awaited is stored and counted by its kind; the record carries the agreed choice, both latest responses and the verdict |
| ConsensusDecisions.RoutedExactly | src/workers/consensus_aggregator.py:864-893 | a message is filtered exactly if a non-empty session is configured and its header differs, and delivered otherwise |
| ConsensusDecisions.ConsumedAndFiltered | src/workers/consensus_aggregator.py:864-876 | the consumed counter is the length of the log, the filtered one the number of foreign messages in it |
| ConsensusDecisions.TrackedExactly | src/workers/consensus_aggregator.py:910-922 | a vote is tracked exactly when an unfiltered result names it, and for good carries what the first of them said |
| ConsensusCounters.Conservation | src/workers/consensus_aggregator.py:403-421 | nine counters are sums over the tracked votes or counts of published records, agreeing and dissenting verdicts apart, in every reachable state |
| ConsensusCounters.PendingVotesConserved | src/workers/consensus_aggregator.py:1182-1208 | pending votes are the tracked ones less the validated and dead-lettered counts |
| ConsensusCounters.PendingExactly | src/workers/consensus_aggregator.py:1182-1193 | the pending ids are exactly those of tracked votes neither validated nor dead-lettered, in the order first seen |
| LegitimacyAlerting.LegitimacyAlertingService.Create | src/services/legitimacy_alerting_service.py:53-98 | invalid thresholds are rejected in the constructor's order |
| LegitimacyAlerting.LegitimacyAlertState.UpdateBreachCount | src/domain/models/legitimacy_alert_state.py:112-133 | only the breach count changes; an inactive state is an error |
| LegitimacyAlerting.LegitimacyAlertState.ClearAlert | src/domain/models/legitimacy_alert_state.py:135-145 | only the active flag changes; an inactive state is an error |
| LegitimacyAlerting.LegitimacyAlertingService.TriggerRecovery | src/services/legitimacy_alerting_service.py:259-298 | recovery reports the alert's id and trigger score and resets the count |
| LegitimacyAlerting.LegitimacyAlertingService.HandleActiveAlert | src/services/legitimacy_alerting_service.py:155-189 | recovery is tried before the breach count is updated |
| LegitimacyAlerting.LegitimacyAlertingService.HandleAlertTrigger | src/services/legitimacy_alerting_service.py:191-257 | a trigger needs the configured run of breaches and draws a fresh id |
| LegitimacyAlerting.LegitimacyAlertingService.CheckAndAlert | src/services/legitimacy_alerting_service.py:100-153 | one cycle, with or without a state object |
| LegitimacyAlerting.LegitimacyAlertingService.Monitor | src/services/legitimacy_alerting_service.py:100-153 | a caller holding one state object sees the run of the value model |
| AlertingProofs.AntiFlapBound | src/services/legitimacy_alerting_service.py:300-346 | recoveries times the buffer stay below the total upward variation of the scores, strictly after the first; an alert inherited at the start may recover once for free |
| AlertingProofs.BoundIsTight | src/services/legitimacy_alerting_service.py:300-346 | for every number of recoveries and every margin, some scores meet the bound up to that margin |
| AlertingProofs.Alternation | src/services/legitimacy_alerting_service.py:128-153 | triggers less recoveries is 1 if active and 0 otherwise, and no error is ever raised |
| AlertingProofs.RecoveryMatchesTrigger | src/services/legitimacy_alerting_service.py:259-298 | a recovery carries the latest trigger's id and score and a rise of more than the buffer; when it still breaches |
| AlertingProofs.TriggerTiming | src/services/legitimacy_alerting_service.py:214-230 | from any start a trigger fires exactly when no alert is active and the trailing run of scores below the warning threshold reaches its length; it exceeds that length only if the stored count already did |
| AlertingProofs.RecoveryTiming | src/services/legitimacy_alerting_service.py:322-346 | in any run a cycle recovers exactly when an alert is active and the score reaches the critical or warning threshold, as the triggering score decides, and the buffer |
| AlertingProofs.StoredExactly | src/services/legitimacy_alerting_service.py:128-189 | after any run the active flag, the breach count and the alert's fields follow from the scores and the events reported |
| AlertingProofs.EveryTriggerReports | src/services/legitimacy_alerting_service.py:222-257 | in any run every trigger reports its own cycle and score, critical with the critical threshold exactly below it, warning with the warning threshold otherwise |
| AlertingProofs.AlertIdsFresh | src/services/legitimacy_alerting_service.py:222-234 | alert ids are never reused |
| RerouteTask.BuildExclusionSet | scripts/reroute_task.py:78-88 | the loop collects the explicit exclusions and all tools tried |
| RerouteTask.FilterEligibleTools | scripts/run_administrative_pipeline.py:108-133 | the loop selects the eligible tools in registry order |
| RerouteProofs.EligibleInOrder | scripts/run_administrative_pipeline.py:108-133 | the selection of joined registries is the joined selections, and a tool is selected exactly if class, availability and capabilities suit |
| RerouteTask.FilterRerouteCandidates | scripts/reroute_task.py:91-122 | its one pass refines the administrative selection less the exclusions, sorted |
| RerouteTask.RerouteOnce | scripts/reroute_task.py:396-580 | the decision order of one invocation: refuse, maximum, exhaustion, missing task, reroute |
| RerouteProofs.CandidatesExact | scripts/reroute_task.py:91-122 | the candidates are sorted and are exactly the tools of the registry that suit and are not excluded |
| RerouteProofs.SortStable | scripts/reroute_task.py:120-122 | tools of equal id keep their registry order |
| RerouteProofs.SelectionExact | scripts/reroute_task.py:125-148 | a selection is an available tool, the least one unless random, and fails only when none is available |
| RerouteProofs.RandomReachesAll | scripts/reroute_task.py:125-148 | a random selection can be any candidate |
| RerouteProofs.DecisionExactly | scripts/reroute_task.py:396-500 | an invocation refuses exactly a task nobody declined, exhausts exactly without attempts or tools left, in that order and with that reason, and reroutes to an untried tool that suits |
| RerouteProofs.ActivationAwaitsDecline | scripts/reroute_task.py:261-300 | a reroute leaves ACTIVATION_SENT with the new activation in state and history, and no further invocation does anything before a decline |
| RerouteProofs.OtherwiseKeptOrBlocked | scripts/reroute_task.py:303-332 | any other invocation keeps the task, or blocks it with one escalation and keeps its history |
| Lexicographic.LeqExactly | scripts/reroute_task.py:120-122 | tool ids are ordered by prefix or by the first differing character |
| RerouteProofs.NeverRepeats | scripts/reroute_task.py:261-300 | under any registries, no tool is picked twice or was excluded, and the history grows by exactly the picks |
| RerouteProofs.ClosedForm | scripts/reroute_task.py:151-332 | with a fixed registry the loop makes exactly min(attempts left, available tools) reroutes and blocks with one Duke escalation of the exact reason |
| RerouteProofs.RoundRobinAscends | scripts/reroute_task.py:139-148 | deterministic strategies pick in strictly ascending order, each the least available tool left |
| Registrar.LedgerDirectory.IndexEntries | scripts/run_registrar.py:182-184 | the index of prior entries by session and motion |
| Registrar.LedgerDirectory.RegisterConclave | scripts/run_registrar.py:160-220 | the loop over passed motions, on entries, files and ids in place |
| Registrar.RegistrationExact | scripts/run_registrar.py:186-216 | one registration only appends, files every entry, records exactly the passed motions; keys stay unique exactly when no two new motions share an id |
| Registrar.MandateCarries | scripts/run_registrar.py:186-213 | each mandate returned is of the result's own session and, unless the ledger held the motion, carries the motion's title and text and the result's date |
| Registrar.SessionsSeparate | scripts/run_registrar.py:164-188 | results of different sessions never share a mandate, even for equal motion ids, and the ledger holds both motions |
| Registrar.LedgerHistory | scripts/run_registrar.py:176-216 | over any registrations the ledger is append-only, uniquely keyed and holds exactly the motions passed |
| Registrar.IdsUnique | scripts/run_registrar.py:188-190 | no registration gives two entries the same mandate id or ledger id |
| Registrar.ReregistrationIdempotent | scripts/run_registrar.py:186-216 | registering again, at once or later, adds nothing and returns the same mandates |
| ErrorHandling.DelaysInRangeExactly | src/workers/error_handler.py:386-404 | every delay lies in [base, maximum] for all attempts and draws exactly when 0 <= base <= maximum |
| ErrorHandling.DelaysAttained | src/workers/error_handler.py:386-404 | after the first attempt the delays drawn are exactly those from the base to three times the previous exponential step, capped at the maximum |
| ErrorHandling.LoopStopsExactly | src/workers/error_handler.py:179-196 | the documented loop stops at the first success, error not worth a retry or last attempt, and then propagates, skips or dead-letters by category |
| ErrorHandling.AttemptsBounded | src/workers/error_handler.py:321-384 | at most max(1, max_attempts) attempts |
| ErrorHandling.LoopDelays | src/workers/error_handler.py:321-337 | the loop sleeps for the delay of each attempt's own category and number |
| ErrorHandling.FirstSleep | src/workers/error_handler.py:386-397 | the first sleep is 2, 5, 1 or 3 seconds by category, or the configured base |
| ErrorHandling.TotalDelayCapped | src/workers/error_handler.py:386-404 | the loop's first m delays, of any categories, sum to at most the first failure's base and m - 1 maxima |
| ErrorHandling.TotalDelayGeometric | src/workers/error_handler.py:386-404 | and to at most top + 3 top (2^(m-1) - 1), where top bounds the bases met |
| ErrorHandling.OneCategoryDelays | src/workers/error_handler.py:179-196 | with one category throughout, both bounds are those of its base |
| Bridge.SupabaseClient.MarkProcessing | aegis-bridge/src/clients/supabase.py:77-91 | sets exactly the listed rows to processing |
| Bridge.SupabaseClient.MarkSubmitted | aegis-bridge/src/clients/supabase.py:93-115 | overwrites the row's submission fields, or nothing if there is no row |
| Bridge.SupabaseClient.MarkFailed | aegis-bridge/src/clients/supabase.py:117-151 | reads the current retry count and writes it incremented, if asked |
| Bridge.SupabaseClient.MarkDeadLetter | aegis-bridge/src/clients/supabase.py:153-166 | keeps the retry count |
| Bridge.SupabaseClient.ResetToPending | aegis-bridge/src/clients/supabase.py:168-181 | resets any row, keeping its retry count |
| Bridge.PetitionExtractor.ProcessSingle | aegis-bridge/src/extractor.py:81-192 | one submission's effect on its row, also if the row is gone or its count has changed since the fetch, and its result, dry runs included |
| Bridge.PetitionExtractor.ProcessBatch | aegis-bridge/src/extractor.py:194-245 | a batch treats every row by its own outcome; total = successful + failed and retryable <= failed |
| Bridge.SubmissionExactly | aegis-bridge/src/extractor.py:81-192 | what each kind of outcome makes of the petition's status, count, remote fields and error text |
| Bridge.ReportTells | aegis-bridge/src/extractor.py:81-192 | the report agrees with what was stored: success exactly if submitted, retry exactly if the count was raised |
| Bridge.StatusExactly | aegis-bridge/src/extractor.py:81-245 | over any batches and resets a petition's status is that of what happened last, and its remote id that of the last acceptance |
| Bridge.RetryCountExact | aegis-bridge/src/extractor.py:145-192 | over any batches and resets, from any count, the retry count grows by the unexpected exceptions and by the transient failures met while all failures were fewer than the retries left; without exceptions these are the transient failures capped at the retries left |
| Bridge.DeadLetterExactly | aegis-bridge/src/extractor.py:152-163 | a batch dead-letters a petition exactly at a transient failure after all earlier failures have used up the retries |
| Bridge.LimitKeptExactly | aegis-bridge/src/extractor.py:177-192 | over any batches and resets the limit is kept exactly unless an unexpected exception is met when the failures have already used up the retries |
| VoteTranscript.ParseVoteBlocks | scripts/run_petition_deliberation.py:188-201 | the loop collects each archon's lines under its header's id |
| VoteTranscript.ExtractDissentRationale | scripts/run_petition_deliberation.py:115-132 | the loop with its early exit collects the first stretch under the marker, or the fallback |
| VoteTranscript.ScannersAgreeExactly | scripts/run_petition_deliberation.py:115-201 | on transcripts with the adapter's headers, the two scanners agree on an archon's text exactly when what follows an interruption of its block is blank |
| VoteTranscript.OneHeaderScannersAgree | scripts/run_petition_deliberation.py:115-201 | on such transcripts with one header per archon they always agree |
| VoteTranscript.HeaderNamesExactly | scripts/run_petition_deliberation.py:117-195 | the scanners take a header that ends in a parenthesised id for the same archon exactly unless an earlier group is another archon's marker |
| VoteTranscript.UngroupedBlock | scripts/run_petition_deliberation.py:193-200 | a header without a group opens a block under "unknown" |
| VoteTranscript.MarkerInNameDisagrees | scripts/run_petition_deliberation.py:117-195 | a name holding an archon's marker makes the rationale another archon's text while the parse finds no block |
| VoteTranscript.TranscriptRoundTrip | src/infrastructure/adapters/external/crewai_deliberation_adapter.py:901-928 | from the transcript the adapter writes, both scanners attribute to every archon the same text, its response exactly unless it voted last and the summary is not blank |
| VoteTranscript.GrabTaggedBlock | scripts/run_petition_deliberation.py:135-155 | the grab returns the block's stripped text, always advances and stays within the lines |
| VoteTranscript.ExtractTaggedArtifacts | scripts/run_petition_deliberation.py:158-185 | the scan over all lines, never grabbing a line without its tag |
| VoteTranscript.ArtifactsRoundTrip | scripts/run_petition_deliberation.py:135-185 | from tagged blocks written in any number and order among prose, response, question and evidence are each the text of the last block under their own tag, or nothing |
| VoteTranscript.TagOpenedExactly | scripts/run_petition_deliberation.py:166-181 | a line opens the response if that tag occurs anywhere, the question or evidence only if it starts with theirs |
| VoteTranscript.BlockEndedExactly | scripts/run_petition_deliberation.py:146-152 | a block ends exactly at a blank line or a line starting with a tag |

## Left out

- Kafka, Avro and HTTP clients, message headers and the circuit breaker: messages are typed values, and the outcome of a publish attempt is an oracle. A message that cannot be decoded changes only the consumed counter; one whose fields fail to convert after decoding is not modelled.
- A confirmed record is one whose publish returned success; a flush that timed out after delivery counts as a failure, as in the code.
- `reconstruct_state`: it replays nothing; replay is a run over a log.
- Wall-clock fields, logging, alert durations and the stuck-petition count of a trigger event; UUIDs are drawn from a supply of fresh numbers.
- Floating point: scores, confidences and delays are reals, so the strict bounds do not speak about rounding of `threshold + buffer`.
- `categorize_error`: the category of an error is an input.
- Reroute: the activation record's contents, the event file and dry runs; the refusal loop is stated for a task the program lists.
- Registrar: locating and parsing files, checkpoints, the ratified output and hashes; a mandate carries its title and text for all the motion's fields.
- Bridge: the pending query is an input constrained to distinct pending rows; its order by submission time, and several bridges at once, are not modelled.
- Bridge: the database client's own error when a row to be incremented no longer exists; the row is then left alone.
- Transcript scanners: they work on lines, so `splitlines` itself is not modelled.
- The validation dispatcher, Conclave runners, API, bootstrap wiring and the other scripts: their logic would only add easy members.
