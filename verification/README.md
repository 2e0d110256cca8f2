# Bricolage: a verified model of the decision code

Bricolage is a content management system written in Go. This project models the parts of it that decide
something: how two texts differ, who may hand out which privilege, what publishing a document takes with it,
how workers share a job queue, how alerts are evaluated and recorded once, how an output tree and its rows
change together, how a category tree survives moves, and the codecs for identifiers, addresses and threads.
`dafny verify dfyconfig.toml` checks all of it.

| file | module | what it models |
|---|---|---|
| `lcs.dfy` | `Lcs` | common subsequences, edit scripts, and the recurrence of the diff table |
| `script.dfy` | `DiffScript`, `DiffOps` | tokens, scripts of kept, deleted and inserted words, and ops as their rendering |
| `diff.dfy` | `WordDiff` | tokenizing, trimming, the table in a flat array, the forward walk, merging runs |
| `reading.dfy` | `OldReading` | when the older words, and the older text, can be read off a diff |
| `authz.dfy` | `Privileges`, `Authz` | the privilege scale, scope matching, containment, intersection, delegation |
| `grants.dfy` | `GrantRuns` | writing grants and assigning roles, and every run of those writes |
| `cascade.dfy` | `Cascade` | the gated worklist traversal over a cyclic graph of references |
| `loader.dfy` | `Loader` | loading the neighbourhood that traversal needs |
| `jobs.dfy` | `Jobs` | a job row, the statements on it, the claim, retry delays |
| `leases.dfy` | `LeaseRuns` | interleavings of workers that claim, report, heartbeat, crash and retry |
| `alerts.dfy` | `Alerts` | rules, facts, recipients; the indexed and cached evaluation against a plain loop |
| `dispatch.dfy` | `Dispatch` | the event table, the cursor and the inbox; one pass of a dispatcher |
| `passes.dfy` | `DispatchRuns` | interleavings of dispatchers that read, evaluate, swap the cursor, send, fail and die |
| `paths.dfy` | `Paths` | splitting, joining and cleaning slash-separated paths |
| `tree.dfy` | `OutputTree` | the output tree and an undoable batch of writes, with a fault possible at every operation |
| `publish.dfy` | `Publishing` | one publish: rows, jobs and event in a transaction, files inside it |
| `category.dfy` | `CategoryPaths` | materialised paths and their ancestors |
| `categories.dfy` | `Categories` | the category table and subtree moves |
| `bits.dfy` | `Bits` | 64-bit words and the numbers they denote |
| `ids.dfy` | `Numerals`, `Ids` | ULIDs (the ULID specification's binary layout and Crockford base 32, lowercased) |
| `uri.dfy` | `Uris` | canonical addresses and the files they are written to |
| `comment.dfy` | `Comments` | grouping comments into threads |
| `wrappers.dfy` | `Wrappers` | `Option`, `Result` and small shared tools |

## How to read the model

- Text is a sequence of characters that stand for the bytes the Go code indexes. Row ids are unbounded
  integers, which the code only compares; the table of the diff holds 32-bit values and is shown not to
  overflow. Instants are integers.
- Whether a read, a write, a rename, a commit or a delivery works is given from outside: as an argument
  (`Storage`, `Outside`, `minted`), or as the `works` of a tree or a database, whose failed operations
  `Faults` counts. Contracts say both what holds whatever fails and that nothing fails without a cause.
- A few Go loops and closures written inline are methods of their own here, named for what they do:
  `SkipSpaces`, `SkipWord`, `CellValue`, `FillRow`, `FillTable`, `Walk`, `AddRun`, `Emit`, `EmitRuns`,
  `CountHead`, `CountTail` in the diff; `ReadNode` and `Scan` in the loader; `AskAll`, `IndexRules` and
  `Spread` in the alerts; `SendAll` in the dispatcher; `Remember` in the batch; `StartThreads`,
  `AttachReplies`, `SortReplies` in the comments; `Undo`, `MakeAndWrite` in the batch; `RecordAndSend` in a pass; `Spell`, `Word` and `Stamp` in the identifiers.
- The identifiers are computed on bytes and 64-bit words with the code's own shifts and masks; `Bits.Num`
  is the number a word denotes, by its bits, and the laws of shifts are proved of it.
- A protocol is a state machine whose steps are the transactions of the store, and a run is any sequence
  of steps: nothing orders the workers, and nothing relates the clocks of different steps.

## Where the code and its comments disagree

The model follows the code, and the SQL of `internal/store` where that is what runs.

- `internal/domain/diff.go:56-61` says that the kept and deleted runs concatenated have the older text's
  words. They do run by run, which is what `DiffWords` states. Concatenated they do exactly unless
  `JoinsOldWords(from, to)`: the newer text ends in a word with no space after it, the texts share no tail,
  older words remain after the shared head, and either the newer words are all of that head or the middles
  fit the table and its longest match needs the newer side's last word. `OldWordsExactly` proves that of
  every two texts, `OldRunsCanJoin` gives the ops for "a b" and "a", which read "ab", and `OldTextExactly`
  says exactly when the concatenation is the older text.
- `internal/domain/job.go:135-142` says a report needs a live lease. The statements in
  `internal/store/jobs.go:230-358` match the owner alone. `AcceptedLateExactly` says, of every reachable
  state, when a report is accepted and from which instant it is late; `LateReportHappens` is a run in which
  a worker completes a job at the instant its lease runs out. The protocol is proved for the statements as
  they are.
- The claim statement (`internal/store/jobs.go:137-149`) and `Claimable` (`internal/domain/job.go:149-151`)
  differ at the one instant at which a lease runs out: `ClaimableVersusReady`.
- `INSERT OR IGNORE` under the unique index on user, event and rule makes the inbox a list of the notes
  without repetition, not a list of all of them: `InsertAllMeans`.
- `internal/domain/diff.go:213-220` says a middle too large for the table degrades to a replacement.
  `DiffWords` states exactly when the result still has as few edits as any script: when the trimmed
  middles fit the table, or have no word in common.

## Model

| member | source | states |
|---|---|---|
| WordDiff.Tokenize | internal/domain/diff.go:187-206 | prefix and tokens reassemble the text byte for byte; the words are the maximal runs of non-space characters; only the last separator can be empty |
| DiffScript.TextWords | internal/domain/diff.go:173-186 | the words of a token list can be read back off its text |
| DiffScript.TextTellsTokens | internal/domain/diff.go:173-186 | two token lists with the same words spell the same text only if they are the same list, separators included |
| Lcs.LenIsLongest | internal/domain/diff.go:316-334 | the table's recurrence is the greatest length of any common subsequence, and some common subsequence attains it |
| Lcs.LenMonotone | internal/domain/diff.go:222-226 | dropping a word of the newer side never lengthens the match, which is what the tie-break rests on |
| Lcs.LenHead | internal/domain/diff.go:233-238 | trimming a shared head loses exactly its length |
| Lcs.LenTail | internal/domain/diff.go:239-243 | trimming a shared tail loses exactly its length |
| Lcs.LenZero | internal/domain/diff.go:267-269 | nothing is matched exactly when no word is shared |
| Lcs.ScriptKeepsCommon | internal/domain/diff.go:306-368 | what any edit script keeps is a common subsequence, and its cost follows from how much it keeps |
| Lcs.ScriptKeeping | internal/domain/diff.go:306-368 | every common subsequence is what some edit script keeps |
| Lcs.CheapestScript | internal/domain/diff.go:306-368 | a script has the fewest edits of all scripts exactly when it keeps as much as the table says |
| WordDiff.CellValue | internal/domain/diff.go:323-332 | one cell holds the longest match of its two suffixes, within 32 bits, all indices in range |
| WordDiff.FillRow | internal/domain/diff.go:322-333 | filling a row makes every cell of it right and disturbs no other row |
| WordDiff.FillTable | internal/domain/diff.go:319-334 | every cell of the flat table holds the longest match of its two suffixes |
| WordDiff.Walk | internal/domain/diff.go:336-367 | the walk over a right table uses up both sides in order, puts deletions before insertions, and keeps as many words as the longest match |
| WordDiff.LcsDiff | internal/domain/diff.go:306-368 | the same of the whole function, its empty cases included, and which script it is |
| WordDiff.WalkIsFaithful | internal/domain/diff.go:336-367 | for all tokens, that script uses up both sides in order and keeps as many words as the longest match |
| DiffOps.RenderCanonical | internal/domain/diff.go:280-292 | merged ops alternate in kind, none is empty, and no insertion stands right before a deletion |
| DiffOps.RenderText | internal/domain/diff.go:245-262 | the text of one side of the ops is the leading space and that side's tokens |
| DiffOps.RenderWords | internal/domain/diff.go:245-262 | merging never joins two words of a side into one, run by run |
| WordDiff.Emit | internal/domain/diff.go:246-256 | emitting a run extends the rendered script by exactly that run |
| WordDiff.EmitRuns | internal/domain/diff.go:271-273 | emitting the runs extends it by all of them |
| WordDiff.AddRun | internal/domain/diff.go:337-343 | adding a token merges it into a run of its kind and adds one piece to the script |
| WordDiff.CountHead | internal/domain/diff.go:233-238 | no shared head is longer: the words before it agree, and the next ones, if there are any, do not |
| WordDiff.CountTail | internal/domain/diff.go:239-243 | no shared tail of what the head leaves is longer |
| WordDiff.HeadIsLongest | internal/domain/diff.go:233-238 | the count is the one number of leading words that are shared and followed by a difference or an end |
| WordDiff.TailIsLongest | internal/domain/diff.go:239-243 | the same of the tail after a head |
| WordDiff.MiddlesAre | internal/domain/diff.go:261-269 | what is compared, and whether it fits the table, follows from any head and tail that are longest |
| WordDiff.FramedFaithful | internal/domain/diff.go:261-276 | putting the trimmed head and tail back around a faithful middle is faithful |
| WordDiff.ReplacedMiddle | internal/domain/diff.go:267-269 | the fallback for a large middle is a faithful script that keeps nothing |
| WordDiff.DiffWords | internal/domain/diff.go:227-278 | kept and inserted text is the newer text byte for byte; kept and deleted words are the older words; ops are in canonical order; equal word lists give only kept ops; the edits are as few as any script's exactly when the middles fit the table or share no word; the words kept first are exactly the longest shared head, and the words kept last the longest shared tail after it; and the ops are the ones the specification `IsDiff` leaves no choice of |
| OldReading.DiffIsUnique | internal/domain/diff.go:227-278 | two texts have one diff: ops that meet the specification are equal |
| OldReading.ScriptIsFaithful | internal/domain/diff.go:227-278 | the script behind a diff is faithful to both texts, for every two token lists |
| Lcs.NeededWithMore | internal/domain/diff.go:322-333 | a last newer word that the longest match needs without the first older word it needs with it |
| Lcs.NeededWithLess | internal/domain/diff.go:322-333 | a last newer word that the longest match needs it needs without the first newer word too |
| OldReading.WalkReadsBack | internal/domain/diff.go:336-367 | over sides that end differently, the walk leaves a word without space before another older word exactly when the newer side's last word has none after it and the longest match needs it |
| OldReading.OldWordsExactly | internal/domain/diff.go:52-63 | for every two texts, the words of the kept and deleted text, concatenated, are the older words exactly unless the texts meet a condition on their words, their shared head and tail and the table's recurrence |
| OldReading.OldTextExactly | internal/domain/diff.go:52-63 | kept and deleted text is the older text exactly when both texts begin with the same space and every older word is followed in the script by what follows it in the older text |
| OldReading.OldRunsCanJoin | internal/domain/diff.go:52-63 | the diff of "a b" and "a" keeps "a" and deletes "b", which read end to end are the one word "ab" |
| Authz.LeftOutExactly | internal/authz/resolve.go:46-88 | a scope leaves a subject out exactly for a constraint the subject does not meet |
| Authz.CoversExact | internal/authz/resolve.go:98-133 | on valid scopes, containment holds exactly when every subject of the inner scope is a subject of the outer |
| Authz.IntersectsExact | internal/authz/resolve.go:140-166 | on valid scopes, intersection holds exactly when some subject matches both |
| Authz.ResolveIsMax | internal/authz/resolve.go:21-32 | the effective privilege is the greatest of the matching grants, and none without one |
| Authz.AllowsMeans | internal/domain/privilege.go:79-84 | a level is allowed exactly when some matching grant gives it and none denies |
| Authz.Resolve | internal/authz/resolve.go:21-32 | the loop computes that maximum |
| Authz.BestCoveringIsMax | internal/authz/escalation.go:37-46 | the best covering privilege is never a veto, bounds every covering grant, and is one of them |
| Authz.Delegable | internal/authz/escalation.go:30-47 | the loop computes it, with any intersecting veto taking everything away |
| Authz.CanGrantExact | internal/authz/escalation.go:64-80 | refused as off the scale exactly for a level that is none of the six; a veto may be written over a scope exactly when the granter may publish on every subject of it, any other level exactly when the granter is allowed that level on every one |
| GrantRuns.Service.CreateGrant | internal/service/grants.go:44-97 | written exactly when everything named exists, the scope is valid, the actor may grant that much and storage works, also when its event is then not recorded; what is written is the level asked for over the scope asked for, with the category of its path; any other refusal writes nothing, Forbidden exactly for an escalation, a fault only when storage failed |
| GrantRuns.Service.AssignRole | internal/service/grants.go:105-139 | assigned exactly when the role and the user exist, the actor could have granted every grant it carries and storage works, also when its event is then not recorded; any other refusal assigns nothing, a fault only when storage failed |
| GrantRuns.RunGrows | internal/service/grants.go:44-139 | over any run, grants and memberships are only ever added and stay valid |
| GrantRuns.ConferringNeedsHolding | internal/authz/escalation.go:64-80 | whoever confers a level on a subject is allowed it there |
| GrantRuns.NewlyHeldWasConferred | internal/service/grants.go:105-139 | a grant a user newly holds was conferred by somebody allowed its level at some earlier point, stale reads included |
| GrantRuns.StepAllowsNobodyNew | internal/service/grants.go:44-139 | if a step leaves somebody allowed a level, somebody was allowed it at some point before |
| GrantRuns.NoEscalation | internal/service/grants.go:44-139 | in every run of grant and role writes, with the actor's own grants read at any earlier point, a level nobody is allowed over a subject at the start is never allowed to anybody |
| GrantRuns.VetoingNeedsPublish | internal/authz/escalation.go:64-80 | whoever confers a veto over a subject may publish there |
| GrantRuns.NoNewVeto | internal/service/grants.go:44-139 | in every run, where nobody may publish on a subject at the start no veto over it is ever written |
| GrantRuns.NobodyNewlyVetoed | internal/service/grants.go:44-139 | and nobody comes to hold one by being given a role |
| GrantRuns.DeniedStaysDenied | internal/authz/resolve.go:21-38 | a user who resolves to Deny over a subject does so ever after |
| Cascade.Gather | internal/publish/gather.go:114-171 | the worklist loop terminates on every graph and computes the traversal the lemmas below are about |
| Cascade.GateExactly | internal/publish/gather.go:182-217 | a document goes exactly when some grant lets the asker publish it and none denies, no lock on it is live, its state is publishable and it has a version; otherwise the reason is the first of those that fails |
| Cascade.GatherSolves | internal/publish/gather.go:114-171 | the answer satisfies equations between the set, the references out of it and the refusals: each passing id once, where it was first met, each refused id refused once |
| Cascade.CascadeIsLeastFixedPoint | internal/publish/gather.go:90-113 | the set is the root first, then exactly what passing documents reach, each once, in nondecreasing distance; all but the root may go |
| Cascade.ReferencesAccounted | internal/publish/gather.go:131-167 | every reference out of the set names a gathered document or is refused, by uid and title, as missing or for the first of the four conditions its document fails |
| Cascade.RefusalsAreOutside | internal/publish/gather.go:182-217 | no refusal is about a gathered document and every refusal comes from a gathered one, so refused documents are never traversed |
| Loader.Scan | internal/publish/graph.go:100-116 | resolving one document's references queues each row not met before, once |
| Loader.ReadNode | internal/publish/graph.go:54-99 | reading through the workflow and element-type caches gives the node the database holds, or its error |
| Loader.NodeIsRead | internal/publish/graph.go:54-116 | a document has a node exactly when its row, its workflow and the references of its pinned content can be read; the node then holds the row's columns, whether its workflow calls its state publishable, and one reference for each uid found, in order, with the id of the row that has it or none |
| Loader.NamesIsRefersTo | internal/publish/graph.go:100-116 | one document leads to another exactly when its pinned content names the other's uid |
| Loader.LoadGraph | internal/publish/graph.go:38-122 | loading terminates; it fails exactly when some document within reach cannot be read; otherwise it holds exactly the documents within reach, each with what the tables hold for it, closed under resolved references |
| Loader.LoadedGathersAsWhole | internal/publish/graph.go:14-37 | gathering over the loaded graph gives the documents, the order and the refusals of gathering over the whole database |
| Loader.LoadedNeverUnloadable | internal/publish/gather.go:153-162 | over a loaded graph only a reference that names nothing is refused as missing |
| Jobs.ClaimableVersusReady | internal/store/jobs.go:137-149 | the Go predicate and the claim statement agree except at the instant the lease runs out |
| Jobs.ReadyAfterFailure | internal/store/jobs.go:250-263 | a failed attempt is ready again exactly from its retry time, and never if it was the last |
| Jobs.RetryDelay | internal/domain/job.go:269-281 | the doubling loop is the power of two, capped |
| Jobs.RetryDelayDoubles | internal/domain/job.go:269-281 | the first retry waits ten seconds and every later one twice the one before, up to five minutes |
| Jobs.RetryDelayMonotone | internal/domain/job.go:269-281 | later attempts never wait less, and every wait is between the base and the cap |
| Jobs.Queue.Enqueue | internal/domain/job.go:199-229 | refused exactly for a blank kind, a priority or a number of attempts out of range or a payload that is no JSON object; otherwise stored with the priority, the attempts, the schedule and the payload defaulted, unless its uid cannot be minted |
| Jobs.Queue.Claim | internal/store/jobs.go:137-207 | nothing is taken exactly when nothing is ready; otherwise the ready row of lowest priority number, then earliest due, then lowest id, with one attempt more and a lease from now, and only that row changes |
| Jobs.Queue.Complete | internal/store/jobs.go:230-237 | accepted exactly from the row's owner, and the one row it changes |
| Jobs.Queue.Fail | internal/jobs/queue.go:146-181 | accepted exactly from the owner; row and event for a last attempt and for an earlier one |
| Jobs.Queue.Release | internal/store/jobs.go:276-283 | accepted exactly from the owner; the row is ready at once |
| Jobs.Queue.ExtendLease | internal/store/jobs.go:336-358 | accepted exactly from the owner; only the deadline moves |
| Jobs.Queue.Retry | internal/store/jobs.go:382-420 | accepted exactly of a failed job, which starts over |
| LeaseRuns.LeaseProtocol | internal/jobs/pool.go:165-255 | in every interleaving with crashes, lost reports, expiry, release and reclaim, each accepted report is by the worker of the latest claim; a completed job is in no later entry of the log; an abandoned job is next mentioned by a retry; the row's owner and deadline are the latest claim's, as extended |
| LeaseRuns.AcceptedLateExactly | internal/store/jobs.go:230-358 | in every reachable state a report is accepted exactly from the worker of the latest claim, and its lease is live exactly before that claim's deadline, so it is accepted late exactly from then on |
| LeaseRuns.ReadyAfterDeadline | internal/store/jobs.go:137-149 | while a claim stands its job is ready again exactly after the claim's deadline, once due |
| LeaseRuns.ReadyAfterSilence | internal/domain/job.go:131-151 | in every run, a job nobody reports on, claims or extends after a claim or an extension is ready again exactly once a lease has passed since |
| LeaseRuns.LateReportHappens | internal/store/jobs.go:292-328 | a run of four steps in which a report is accepted at the instant its lease has run out |
| LeaseRuns.FailuresAreBounded | internal/domain/job.go:167-174 | between retries at most max_attempts failures are recorded and at most one abandonment, exactly while the row says it failed |
| LeaseRuns.AbandonedEventMatchesRow | internal/jobs/queue.go:134-181 | the event decided from the claimed job says what became of the row, and the row is rescheduled by the delay of its own attempt |
| Alerts.Resolver.UserByID | internal/events/alerts.go:562-573 | a cached read, whichever read filled the cache, is the store's answer |
| Alerts.Resolver.UserByUID | internal/events/alerts.go:575-586 | the same by uid, across the two caches each read fills |
| Alerts.Resolver.UsersWithRole | internal/events/alerts.go:588-598 | the cached users of a role are the store's |
| Alerts.Resolver.Document | internal/events/alerts.go:600-610 | the cached document is the store's |
| Alerts.Resolver.Version | internal/events/alerts.go:612-622 | the cached version is the store's |
| Alerts.Resolver.FactsFor | internal/events/alerts.go:453-480 | the facts of an event are the store's, with nothing of a missing actor |
| Alerts.Resolver.Subject | internal/events/alerts.go:489-537 | the facts about an event's subject are the store's, a missing row giving fewer of them |
| Alerts.Resolver.Recipients | internal/events/alerts.go:402-440 | the recipients of a rule are the store's users, role holders or the address |
| Alerts.IndexRules | internal/events/alerts.go:345-348 | the index holds for each type the rules of that type in their order |
| Alerts.IndexLosesNothing | internal/events/alerts.go:355-359 | asking only the rules of the event's type gives what asking every rule gives |
| Alerts.AskAll | internal/events/alerts.go:367-390 | the inner loop over facts and recipients adds what the plain evaluation of that event adds |
| Alerts.Spread | internal/events/alerts.go:375-389 | one matching rule adds one note or one delivery a recipient, in order |
| Alerts.Evaluate | internal/events/alerts.go:344-393 | the indexed, cached evaluation gives the notes and deliveries of the plain loop over every event and rule, in the same order |
| Alerts.FieldIsCarried | internal/domain/alert.go:335-342 | the value of a field is what the acting user says of it, else what the payload says, else what the subject's row says, name by name |
| Alerts.MatchesMeans | internal/domain/alert.go:354-377 | a rule of the event's type fires exactly when every condition names a field the event carries and holds of its value |
| Alerts.RecipientsExactly | internal/events/alerts.go:402-440 | a target names a user by uid, every holder of a role in order, or a valid address and that only for e-mail; anything else nobody |
| Alerts.EventSays | internal/events/alerts.go:362-390 | an event's notes and deliveries are, rule by rule and recipient by recipient, those of the rules that apply to it |
| Alerts.NotedExactly | internal/events/alerts.go:367-390 | an event is noted for exactly the recipients of the in-app rules that apply to it |
| Alerts.MailedExactly | internal/events/alerts.go:367-390 | and delivered to exactly the recipients of the other rules that apply |
| Alerts.NotesAreGood | internal/events/alerts.go:367-389 | every in-app note names a real user, its event, and an in-app rule of that event's type |
| Alerts.EvaluationIsPerEvent | internal/events/alerts.go:344-393 | a batch's output is its events' outputs end to end |
| Dispatch.InsertAllMeans | internal/store/alerts.go:301-350 | the inbox holds each recorded note once and nothing else |
| Dispatch.Database.Pending | internal/store/alerts.go:246-275 | the batch is the cursor and the next events after it, oldest first, at most the limit, or a hundred where none is given |
| Dispatch.Database.Deliver | internal/store/alerts.go:301-350 | notes and cursor move together exactly when the cursor is where the batch was read; otherwise nothing changes |
| Dispatch.SendAll | internal/events/alerts.go:324-338 | every delivery is attempted once and in order; it arrives exactly when its channel is served and accepts it; the ones that did not are counted |
| Dispatch.Once | internal/events/alerts.go:275-340 | with another dispatcher's transaction perhaps between its read and its write: a pass fails exactly when something it needs fails; one that wins the swap records and sends exactly the evaluation of the batch it read and counts what it did; one that fails, loses or finds nothing writes and sends nothing |
| DispatchRuns.EveryEventOnce | internal/events/alerts.go:275-340 | in every interleaving of dispatchers that pass, fail, lose the swap or die: the events up to the cursor are exactly the ones evaluated, once each and in order, by the rules and over the stores of their passes; the inbox is what those evaluations said, without repetition; each pass sends what it said; and the attempts to send have different places in the list of all that was said |
| DispatchRuns.OnePassPerEvent | internal/events/alerts.go:310-338 | all attempts to send about one event are one pass's, so no event is alerted on by two |
| DispatchRuns.SentIsAbout | internal/events/alerts.go:324-338 | what a pass sends is about an event of its own batch, by a rule it read |
| DispatchRuns.PassesFollow | internal/domain/alert.go:576-595 | a later pass takes up no earlier than where an earlier one stopped |
| DispatchRuns.WinSendsOnce | internal/events/alerts.go:324-338 | after a pass wins, nothing it has yet to send has been attempted, and no two dispatchers send for one pass |
| DispatchRuns.StepsOnlyAdvance | internal/events/alerts.go:314-320 | the cursor never moves back, moves exactly when events are recorded, and a losing pass writes and sends nothing |
| DispatchRuns.SwapTakesUp | internal/domain/alert.go:576-595 | the swap succeeds only for a batch read where the evaluated events stop, and leaves the cursor at its last event |
| DispatchRuns.StableStoreEvaluation | internal/events/alerts.go:344-393 | over a store that does not change while a pass runs, what the pass says is what the evaluation computes |
| Paths.SplitJoin | internal/publish/tree.go:303-311 | splitting joined segments gives them back |
| Paths.ProperIsClean | internal/publish/tree.go:300-302 | a path of proper segments is relative and already clean |
| OutputTree.TempNamesAreDistinct | internal/publish/tree.go:284-291 | different destinations have different temporary files |
| OutputTree.TempIsNoPage | internal/publish/tree.go:299-317 | no page can be put where a temporary file is written |
| OutputTree.WhichPathsAreTaken | internal/publish/tree.go:299-317 | a path is taken exactly when no segment of it is empty, ".", ".." or a temporary file's name; that it is clean and relative follows |
| OutputTree.Tree.Write | internal/publish/tree.go:259-282 | a write puts the whole body at its path or changes nothing but, at worst, its own temporary file; it fails exactly for a temporary file in its way or an operation that failed |
| OutputTree.Tree.Remove | internal/publish/tree.go:139-145 | removing what is not there is no error and no change; it fails exactly when the operation does |
| OutputTree.Batch.Remember | internal/publish/tree.go:201-209 | what is noted of a path before it is written is what was there at Begin |
| OutputTree.Batch.Put | internal/publish/tree.go:190-221 | refused exactly for an invalid path, one begun before, or a temporary file in its way, and a fault only when an operation failed; a failed put leaves every file as it was but its own temporary one |
| OutputTree.Batch.Rollback | internal/publish/tree.go:228-244 | after any puts, whatever fails on the way, every file but the ones it names is as at Begin, and it names no more than operations failed: with no failure, none, and every file is restored |
| Publishing.Database.DeleteAllStale | internal/store/publish.go:119-131 | the per-channel deletes remove exactly the document's addresses in those channels that are not produced |
| Publishing.Database.UpsertAll | internal/store/publish.go:241-281 | refused exactly when some address belongs to another document; otherwise the last page of each address is recorded and no other row changes |
| Publishing.Database.Upsert | internal/store/publish.go:241-281 | an address is claimed exactly unless another document has it |
| Publishing.Transact | internal/store/publish.go:117-184 | the statements in their order, any of which may fail, and the files last; each refusal has its reason |
| Publishing.WritePages | internal/publish/publish.go:262-269 | all pages at their own distinct paths, every other file untouched, exactly when the tree takes them all and no operation fails |
| Publishing.Publish | internal/publish/publish.go:253-293 | success changes rows, live version, expiry jobs, event and every file as asked, one job for each address no longer produced; a failure has its named reason or an operation that failed, changes no row, and leaves no file changed but the ones the rollback names, of which there are none where nothing failed |
| Publishing.OthersKeepTheirRows | internal/store/publish.go:204-281 | a publish leaves every row of every other document as it is |
| Publishing.StaleMeans | internal/store/publish.go:204-232 | the rows removed are exactly the document's, in its channels, at addresses no page is for |
| CategoryPaths.JoinPath | internal/domain/category.go:137-145 | a valid parent and directory give a valid path below the parent; anything else is refused |
| CategoryPaths.DepthCountsSlashes | internal/domain/category.go:60-69 | a valid path has one slash more than it is deep |
| CategoryPaths.ParentOfValid | internal/domain/category.go:284-290 | the path before the last segment is valid and every proper ancestor is at or above it |
| CategoryPaths.AncestorPaths | internal/domain/category.go:279-292 | the loop lists, deepest first, exactly the valid prefixes, one more than the depth, from the path to the root; an invalid path has none |
| CategoryPaths.DeepScopeMatchesDescendants | internal/authz/resolve.go:80-88 | a deep category scope matches exactly the descendants, a shallow one those of the same depth |
| Categories.PathsAreValid | internal/domain/category.go:11-20 | in a tree every path is valid and every site with a row has a root |
| Categories.PrefixIsTaken | internal/domain/category.go:147-154 | every prefix of a path that ends in a slash is the path of a row |
| Categories.RewrittenIsFree | internal/store/categories.go:264-300 | no row's old path is one that a descendant moves to, unless the new path itself is taken |
| Categories.MoveKeepsTree | internal/domain/category.go:200-242 | an accepted move leaves a tree exactly when nobody had the new path |
| Categories.SubtreeMovesWhole | internal/domain/category.go:230-242 | rows outside the subtree are untouched, the rows below the new path afterwards are the rows that were below the old one, and depths shift by one amount |
| Categories.NoCollision | internal/store/categories.go:264-300 | while rows are rewritten in any order no row ever has the path another is given |
| Categories.Table.MoveSubtree | internal/store/categories.go:286-300 | the row-by-row rewrite succeeds exactly when nobody had the new path, and then gives every row its rewritten path |
| Categories.Table.MoveUnder | internal/store/categories.go:228-262 | the transaction succeeds exactly for an accepted move onto a free path, and otherwise restores every row |
| Categories.ResolveMeans | internal/domain/category.go:208-228 | a move is resolved to a new path exactly when it is asked for, of no root, within its site, not into its own subtree and to a valid directory |
| Categories.Table.MoveCategory | internal/store/categories.go:211-262 | which moves are made and which refused; the row then has the directory and the parent asked for and the path they give it; the table stays a tree; a refusal changes nothing |
| Categories.Table.Create | internal/store/categories.go:49-81 | the exact conditions of each refusal, and that the table stays a tree |
| Categories.Table.DeleteCategory | internal/store/categories.go:308-350 | refused exactly for a root, a parent or a category in use; the table stays a tree |
| Categories.Table.CreateSite | internal/store/authz.go:285-308 | a new site is a tree of one root |
| Numerals.NumeralConcat | internal/ids/ids.go:76-87 | the number of two runs of digits put together |
| Numerals.NumeralOrder | internal/ids/ids.go:76-87 | digit strings of one length are ordered by their first difference, and told apart, as their numbers are |
| Bits.OrIsSum | internal/ids/ids.go:83-84 | words with no bit in common: or is the sum of the numbers |
| Bits.LowFive | internal/ids/ids.go:82-85 | a shift and a mask by five bits are the quotient and the remainder by 32 |
| Bits.LowByte | internal/ids/ids.go:51-56 | a shift and a mask by eight bits are the quotient and the remainder by 256 |
| Bits.ShiftPair | internal/ids/ids.go:83-84 | the two shifted words denote the quotients with the high word's low bits moved in |
| Bits.WordHolds | internal/ids/ids.go:47-56 | a number below 2 to the 64 is the number of the word that holds it |
| Ids.PairDivided | internal/ids/ids.go:82-85 | the loop's shifts of the two words divide the 128-bit number in them by 32 |
| Ids.DropDigit | internal/ids/ids.go:82-85 | one step drops the low five bits of the 128-bit number in two words |
| Ids.Word | internal/ids/ids.go:77-78 | eight bytes shifted into a 64-bit word are the big-endian number |
| Ids.Spell | internal/ids/ids.go:80-86 | the loop of shifts and masks writes the 26 base-32 digits of the number in the two words, lowest last |
| Ids.StampDenotes | internal/ids/ids.go:51-56 | the six shifted bytes are the milliseconds, big-endian |
| Ids.Encode | internal/ids/ids.go:76-87 | for all sixteen bytes the string is well formed and its base-32 value is the big-endian number |
| Ids.EncodingKeepsOrder | internal/ids/ids.go:76-87 | encoded strings are ordered as the sixteen bytes are, and equal only for equal bytes |
| Ids.ValidIs128Bits | internal/ids/ids.go:94-110 | the bound on the first character is exactly what keeps the number within 128 bits |
| Ids.IsValid | internal/ids/ids.go:94-110 | the scan decides well-formedness |
| Ids.ValueOf | internal/ids/ids.go:117-124 | the scan finds a character's place in the alphabet, or none |
| Ids.CrockfordDigits | internal/ids/ids.go:17-23 | the digits are the decimal ones and the small letters but i, l, o and u |
| Ids.OrderIsNumeric | internal/ids/ids.go:17-23 | byte order of strings of digits is the order of their numbers |
| Ids.New | internal/ids/ids.go:45-61 | refused exactly outside 48 bits of milliseconds or without entropy; otherwise the timestamp is the instant's milliseconds, rounded down, and the entropy is the rest |
| Ids.Time | internal/ids/ids.go:129-140 | a well-formed uid gives back its timestamp, so minting and reading truncates to the millisecond |
| Ids.EarlierSortsFirst | internal/ids/ids.go:34-45 | a uid of an earlier millisecond sorts first |
| Uris.NormalizeURI | internal/domain/uri.go:310-326 | the loop computes the canonical form the lemmas below are about |
| Uris.FoldExactly | internal/domain/uri.go:319-325 | lower case is the small letter at a capital's place in the alphabet, upper case the capital at a small one's; all else stays |
| Uris.CanonicalKeepsSegments | internal/domain/uri.go:301-326 | for every input the result is absolute, has no empty segment and no trailing slash but at the root, and has the input's non-empty segments in order, in the channel's case |
| Uris.CanonicalIsIdempotent | internal/domain/uri.go:310-326 | normalising twice is normalising once |
| Uris.FixpointsAreCanonical | internal/domain/uri.go:301-326 | the addresses normalising leaves alone are exactly the canonical ones |
| Uris.OutputPath | internal/domain/publish.go:245-262 | an accepted path is the address without its slash, with no empty, "." or ".." segment and no NUL |
| Uris.FilesAreDistinct | internal/domain/uri.go:247-260 | within a channel two canonical addresses never share a file |
| Uris.PageIsAt | internal/domain/uri.go:247-260 | a page is below its address under the channel's file name and extension, index and html where it names none |
| Uris.WhenOutputPathAccepts | internal/domain/publish.go:245-262 | a canonical address has a file exactly when none of its segments, and none of the channel's file name, is "." or "..", the file name has no empty one, and there is no NUL |
| Uris.AcceptedPathsAreWritable | internal/publish/tree.go:299-317 | the tree takes every accepted path but one that names a temporary file |
| Comments.SortSorts | internal/domain/comment.go:131-134 | the sort is an ascending permutation |
| Comments.SortIsStable | internal/domain/comment.go:131-134 | elements with one key keep their order |
| Comments.StartThreads | internal/domain/comment.go:107-114 | one thread a root in order, and where the last root with each id is |
| Comments.AttachReplies | internal/domain/comment.go:115-127 | each thread has exactly the replies to its root, in order, and the orphans are set aside in order, none lost |
| Comments.AttachedIsGrouped | internal/domain/comment.go:107-127 | the threads that the index by id fills are each root with its answers |
| Comments.SortReplies | internal/domain/comment.go:132-134 | each thread keeps its place and root, its replies sorted |
| Comments.Threads | internal/domain/comment.go:106-136 | for every input the threads hold each comment exactly once, each reply under its own root, orphans as threads of their own, threads and replies ascending by id, a reply on its own only where no root has the id it replies to; and they are the stable sort of every root with its answers and every orphan alone |
| Comments.OpenThreads | internal/domain/comment.go:140-148 | the loop counts the threads whose root nobody has resolved |
| Comments.OpenThreadsAreOpenHeads | internal/domain/comment.go:138-148 | the open threads are the unresolved roots and orphans of the input |

## Left out

- OldReading.OldTextExactly: its condition is on the spacing of the words the script goes through, so it depends on which words the walk keeps.
- Publishing.Publish: rendering, building the address and checksums are parameters; two rows may name one path, as in the schema, and only the pages of one publish are shown to have distinct paths.
- Publishing.Database.DeleteAllStale: the order in which stale rows are returned is not modelled, and enqueueing their jobs is one statement.
- OutputTree.Batch.Rollback: directories are not modelled; one that was created stays, as in the code. Nobody else writes to the tree during a batch.
- LeaseRuns.LeaseProtocol: worker names are distinct, as the pool makes them; the identity of a job row is its id.
- Agreement of published rows with files over time: an expiry job deletes its path without asking whether a later publish claimed it.
- `DiffVersions`, `RenderDiff`: a loop over four fields and a rendering of ops.
- `BuildURI`, `substituteToken`, `Strftime`: a slug can be read again as a date conversion, so there is no clean law; the canonical form after them is modelled for every input.
- Comparison of facts in alert conditions, regular expressions, e-mail validation and reading references out of content are parameters of the model.
- Deleting users or rules, which deletes their notifications, and changing rules between passes other than by the next pass reading them. The store may change from one event of a pass to the next, not while one event is evaluated.
- The category tree is held fixed in the grant model. A request whose scope brings a category's id and path of its own is written as the code writes it; runs are of requests in which the two agree, as the API builds them.
- Texts of errors and refusals, event payloads, uids and names that no decision reads.
- Unicode case folding (ASCII here), time layouts, real file system behaviour, the wrap-around of an instant outside 64 bits of milliseconds.
- HTTP, configuration, commands, invitations, sessions, search filters, the workflow engine: plumbing, or true but easy.
