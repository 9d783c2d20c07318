# Verified model of the document question-answering bridge

Dafny 4.11 models of the algorithms and state machines that this repository's
evaluation and service code depends on, with proofs of what they compute. The
programs that update state are methods and classes proved against specification
functions; what the documentation promises is proved about those functions.

- **Table score** (`Levenshtein`, `TreeEdit`, `Postorder`, `ForestSlices`,
  `KeyrootTables`, `KeyrootCorrect`, `KeyrootLaws`, `Mappings`, `TableScore`,
  `TableMethods`): the string distance under the cell cost, and the keyroot
  dynamic program under the table score, from the recursive visit to the in-place
  tables. The reference is the recursive forest distance, itself proved to be the
  cheapest order- and ancestry-preserving matching.
- **What the table score keeps** (`FinalTables`, `BelowRoot`, `TableWalks`,
  `TopTables`, `TableSeparation`, `TableEchoes`, `TableSymmetry`, `TableMirror`): the
  equations of the finished tables for the indices the code records, and from them
  exactly when the score separates tables, when it is symmetric, and that it has no
  lower bound.
- **Exact binomial bound** (`Binomial`): the sixty-step bisection.
- **Speech engine** (`SpeechProtocol`, `SpeechService`): one model, one worker,
  one slot, as interleaved steps over every run; the class performs the same steps.
- **Rotating key cache** (`Jwks`): the cache as a function of the fetch history.
- **Screening gate** (`GateReport`, `ContentFree`): producer and validator of the
  locked report, and the sliding windows behind the content check.
- **Greedy algorithms** (`Judge`, `Stopping`, `LeakScan`, `Hotwords`): each loop
  against a declarative statement of what it looks for.
- **Codecs and assertions** (`Base64Url`, `Assertion`): unpadded base64url
  (section 5 of RFC 4648) and the signed identity token.
- **Ledgers** (`GuardLedger`, `PagePolicy`): policy replays and what their counters
  conserve. `Options`, `Sequences`, `Tally` and `Text` hold shared definitions.

`dafny verify dfyconfig.toml` checks the whole project.

## Reading notes

- **The recorded index is not the leftmost leaf.** `_postorder`
  (eval/table/table_eval.py:92-112) documents a leftmost-leaf index, but `visit`
  returns the child's own number, so the index recorded is that of the first child.
  The model follows the code. `FirstsRightIff` says when the two agree: every first
  child is a leaf. A table meets that exactly when its first row is blank
  (`TableFirstsAreLeavesIff`); then the program computes the tree edit distance
  (`CodeDistanceIsExact`). Against tables with a blank first row that condition is
  also necessary (`ExactAgainstBlankIff`): a table with a non-blank first row gets
  too small a distance to the empty table, or an index error. The index error itself
  has an exact condition (`TableCrashesIff`). With the documented indices the keyroot
  program is correct for all trees (`TrueWalkSound` with `DistanceIsExact`).
- **Which laws of a distance the score keeps.** Wherever it is defined it lies in
  (-1, 1] and is 1 for a table and itself (`Teds`). The other laws hold of the
  reference distance (`TableDistanceLaws`) and fail of the program's own:
  - *Separation.* A score of 1 does not mean equal tables: a prediction that lost its
    header row can score 1 (`LostHeaderExample`, `LostHeaderIsFree`).
    `SeparationFailsIff` says for which predictions this can happen, in the header, the
    first row and the node count; `SecondSeparationFailsIff` says for which truths, in
    their rows.
  - *Symmetry.* `SymmetricIff`: the order of the arguments never matters for a table of
    at most one row that is not a single cell, and for every other table some partner
    shows it.
  - *Lower bound.* For every table some partner is scored below the difference of the
    node counts (`LowerBoundAlwaysFails`), and the program can also charge too much
    (`OverestimateExample`).
- **Taking first matches is not complete.** The one-figure branch of the judge finds
  every assignable key exactly for word relations in blocks (`CompleteIffBlocks`); the
  source's own relation is not one of them (`SourceRelationMisses`).
- **A trailing newline passes the code patterns.** The validator's patterns end in
  `$`, which also matches before a final newline; `FlagCode` in `GateReport` keeps
  that, and the two acceptance theorems are stated with it.
- **Agreement of producer and validator** needs every flag code and exclusion reason
  to have the allowed shape, because the validator checks shapes the producer does
  not; `ReplayedReportAcceptedIff` gives the condition both ways.
- Floats are reals and statements are about values before `round`.
- Parameters stand for code outside the model: Unicode normal forms, folding and
  lower-casing, the figure relation, the word relation (whose own definition is
  `SourceWordMatch`), the answer checks, the tokenizer,
  JSON, HMAC and RSA, and the clock. `Sound` in `Assertion` is the one assumption
  made of such parameters: JSON text reads back as the value written, and a digest
  has 32 bytes.

## Model

| member | source | states |
|---|---|---|
| Levenshtein.EditDistance | eval/table/table_eval.py:37-50 | the two-row loop, early exits included, returns the recursive edit distance |
| Levenshtein.LevIsShortestChain | eval/table/table_eval.py:37-50 | that distance is the length of a shortest chain of one-character insertions, deletions and replacements from one text to the other |
| Levenshtein.ZeroIffEqual | eval/table/table_eval.py:37-50 | distance 0 exactly on equal texts |
| Levenshtein.Symmetric | eval/table/table_eval.py:37-50 | the distance is symmetric |
| Levenshtein.Triangle | eval/table/table_eval.py:37-50 | the distance satisfies the triangle inequality |
| Levenshtein.LengthBounds | eval/table/table_eval.py:37-50 | the distance lies between the difference of the lengths and the longer length |
| Levenshtein.NormLev | eval/table/table_eval.py:53-56 | the rename cost lies in [0, 1], is 0 exactly on equal texts, and 1 exactly when no shorter edit than rewriting everything exists |
| Levenshtein.NormLevSymmetric | eval/table/table_eval.py:53-56 | the rename cost is symmetric |
| TreeEdit.DistSymmetric | eval/table/table_eval.py:115-145 | the reference distance, the recursive rightmost-root forest distance, is symmetric; of the program's own distance see TableMirror.SymmetricIff |
| TreeEdit.DistBounds | eval/table/table_eval.py:115-145 | the reference distance is at least the difference of the node counts and at most their sum; of the program's own distance see TableSeparation.LowerBoundAlwaysFails |
| TreeEdit.RootsFree | eval/table/table_eval.py:115-153 | with roots of one kind the reference distance is at most the node counts less the two roots |
| TreeEdit.ZeroIffAlike | eval/table/table_eval.py:84-89 | the reference distance is 0 exactly when the forests have one shape and every pair of nodes renames for free; of the program's own distance see TableSeparation.SeparationFailsIff and TableEchoes.SecondSeparationFailsIff |
| TreeEdit.Subadditive | eval/table/table_eval.py:115-145 | under the reference distance editing two halves apart never costs less than editing the whole: the inequality behind reading subtree distances from a table |
| TreeEdit.DistByWholeTrees | eval/table/table_eval.py:131-139 | the recurrence in the form the inner loop uses, with the finished subtree distance in place of the rename |
| Postorder.Walker.Visit | eval/table/table_eval.py:96-105 | the recursive visit appends exactly the postorder nodes and the indices it records, and returns its own number |
| Postorder.FirstNodeIsLeftmostLeaf | eval/table/table_eval.py:92-93 | the documented index really is the number of the leftmost leaf |
| Postorder.FirstsRightIff | eval/table/table_eval.py:92-104 | the recorded indices are the documented leftmost leaves exactly when every first child is a leaf |
| Postorder.KeyrootsOf | eval/table/table_eval.py:108-111 | the overwritten table, sorted, lists exactly the last node of each recorded index in ascending order |
| Postorder.WalkTree | eval/table/table_eval.py:92-112 | nodes, recorded indices and keyroots of a whole tree |
| ForestSlices.TrueWalkSound | eval/table/table_eval.py:115-145 | from the documented index list every range of numbers reads back as the forest of those nodes |
| KeyrootCorrect.ReadsAreFinal | eval/table/table_eval.py:139-144 | with the documented leftmost-leaf indices: when a pair of keyroots is started, every tree cell its table will read already holds its final value |
| KeyrootCorrect.DistanceIsExact | eval/table/table_eval.py:115-145 | with the documented leftmost-leaf indices, not those the visit records, the keyroot tables end with the reference distance of the two whole trees |
| KeyrootLaws.DistanceInRange | eval/table/table_eval.py:115-145 | for any recorded indices the answer is between 0 and deleting and inserting everything in the last table but its roots |
| KeyrootLaws.DistanceOfSelf | eval/table/table_eval.py:115-145 | for any recorded indices a walk is at distance 0 from itself whenever the tables can be filled |
| KeyrootLaws.DistanceDefined | eval/table/table_eval.py:121-144 | an index leaves its list exactly when a keyroot range of either walk overruns, negative indices counted from the end |
| Mappings.DistIsCheapestMapping | eval/table/table_eval.py:115-145 | the recursive distance is the least cost over all matchings of nodes that keep order and ancestry, and some matching reaches it |
| TableMethods.FillForest | eval/table/table_eval.py:121-140 | the nested loops fill the forest table in place and write the tree cells on its edges, or stop with the index error |
| TableMethods.TreeEditDistance | eval/table/table_eval.py:115-145 | the in-place program returns what the tables specify, with both node counts |
| TableMethods.Teds | eval/table/table_eval.py:148-153 | the score is one minus the distance over the larger count; it lies in (-1, 1], is 1 for equal tables, and is 1 exactly when the program's distance is 0, which is then not always equality (TableSeparation.SeparationFailsIff, TableEchoes.SecondSeparationFailsIff) |
| TableScore.CodeDistanceIsExact | eval/table/table_eval.py:92-145 | the program computes the tree edit distance when every first child is a leaf in both trees; against all tables at once no table is exact (TableSeparation.LowerBoundAlwaysFails) |
| TableScore.TableFirstsAreLeavesIff | eval/table/table_eval.py:72-81 | for tables that is the case exactly when the first row (the header row, else the first data row) is blank |
| TableScore.ExactAgainstBlankIff | eval/table/table_eval.py:72-145 | among partners whose first row is blank: the program agrees with the tree edit distance against all of them exactly when the own first row is blank; the empty table already separates the two |
| TableScore.CodeDistanceFallsShort | eval/table/table_eval.py:92-145 | against a childless root the program returns strictly less than the tree edit distance as soon as a first child has children |
| TableScore.TableCrashesIff | eval/table/table_eval.py:121-139 | a table makes the program leave its lists exactly when a first row of k cells meets fewer than 2k - 1 nodes |
| TableScore.CodeDistanceDefined | eval/table/table_eval.py:115-145 | two tables have a distance exactly when neither is such a table |
| TableScore.CodeDistanceRange | eval/table/table_eval.py:115-153 | whenever defined, the distance of two tables is within the counts less the roots, and 0 for a table and itself |
| TableScore.TableDistanceLaws | eval/table/table_eval.py:72-153 | the reference distance of two tables is 0 exactly on equal trees, symmetric, and between the difference of the counts and their sum less two; the next rows say which of these the program's own distance keeps |
| FinalTables.RunFinishes | eval/table/table_eval.py:115-145 | when keyroot ranges nest, as those of tables do, a finished run leaves one forest table per pair of keyroots that solves its equations against the final tree table, wrapped and not yet filled references included |
| BelowRoot.BelowExact | eval/table/table_eval.py:115-145 | for recorded indices that are right below the roots, every finished tree cell below both roots is the reference distance of its two subtrees; only the roots' own row and column can be wrong |
| TableSeparation.SeparationFailsIff | eval/table/table_eval.py:72-153 | for a table given first: some table with a different tree is at distance 0, a score of 1, exactly when the first has no header, its first row is not blank and its tree has at least twice as many nodes as that row has cells |
| TableEchoes.SecondSeparationFailsIff | eval/table/table_eval.py:72-153 | for a table given second, the truth: some different table is at distance 0, a score of 1, exactly when the table can be scored and its rows echo: it may be cut down to a later row that is not blank and has, with what follows, twice as many nodes as cells; or to one of two equal first rows that has half as many cells as the cut table has nodes; or, without a header, have its rows above some place written twice, where the first row has two cells more than there are nodes below |
| TableEchoes.WrittenTwiceExample | eval/table/table_eval.py:72-153 | the smallest repetition: a prediction that writes the one row of two cells twice is at distance 0 from the truth that has it once |
| TableSeparation.LostHeaderIsFree | eval/table/table_eval.py:72-153 | a prediction that lost its header row, with a non-blank first row and more than twice as many nodes as that row has cells, is at distance 0 from the table that has it, though the reference distance is at least the whole header; the other way round it is not |
| TableSeparation.LostHeaderExample | eval/table/table_eval.py:72-153 | the smallest case, one cell with and without a one-cell header: distance 0 one way, more the other, against node counts 3 and 5 |
| TableSeparation.LowerBoundAlwaysFails | eval/table/table_eval.py:72-153 | for every table the program scores, some table lies below the difference of the node counts in both orders, so no table's distances are all edit distances |
| TableSeparation.OverestimateExample | eval/table/table_eval.py:72-153 | three cells against their first two: the program charges at least 2 where the reference distance is at most 1 |
| TableSymmetry.OrderMatters | eval/table/table_eval.py:72-153 | a table of two rows or more is farther from a one-cell table, unless that cell is its first row, than the one-cell table is from it |
| TableMirror.SymmetricIff | eval/table/table_eval.py:72-153 | the order never matters for a scored table exactly when it has at most one row and that row is not a single cell |
| Binomial.SumTerms | eval/answer/locked_runner.py:115-121 | the inner sum over `comb` is the distribution function |
| Binomial.CdfPascal | eval/answer/locked_runner.py:118-119 | the distribution function satisfies the Pascal recursion in the number of trials |
| Binomial.CdfMonotone | eval/answer/locked_runner.py:107-125 | the distribution function rises with the count and falls with trials and probability, all at once |
| Binomial.BoundStraddles | eval/answer/locked_runner.py:113-125 | after the last halving the low end still exceeds alpha and the high end does not |
| Binomial.BoundIsTight | eval/answer/locked_runner.py:107-125 | the bound is above every rate whose distribution function exceeds alpha and within 2^-60 of every rate where it does not |
| Binomial.BoundMonotone | eval/answer/locked_runner.py:107-125 | the bound never falls with more misses and never rises with more trials, across the all-missed branch too: a relation between two bisections |
| Binomial.OneSidedUpperBound | eval/answer/locked_runner.py:98-125 | the loop refuses impossible counts and otherwise returns the specified bound |
| Binomial.AnchorBound | eval/answer/locked_runner.py:98-125 | no misses in thirty clusters at 95 percent give a bound in [0.09503, 0.09505) |
| SpeechProtocol.StepKeeps | services/speech_service.py:422-478 | every step of a request, the loop or the worker keeps the ownership invariant |
| SpeechProtocol.RunIsSafe | services/speech_service.py:358-478 | after any interleaving from start-up: permits plus holders is 1, a running job holds the slot alone, the waiting count is the number in line and within its limit, the file of a pending job is still there, no file is removed twice, by the request only if it never submitted and by the worker only if it did |
| SpeechProtocol.RunsEnd | services/speech_service.py:422-478 | without new arrivals every run is finite, bounded by what is still owed |
| SpeechProtocol.QuietMeansClean | services/speech_service.py:422-478 | when nothing but an arrival can happen the slot is free, nobody waits and every file was removed exactly once, by the worker iff it was submitted |
| SpeechProtocol.AbandonTouchesNothing | services/speech_service.py:359-367 | a timeout or cancellation after submission leaves every later worker step possible and changes neither slot nor files |
| SpeechService.Engine.Enter | services/speech_service.py:422-430 | refuses an unloaded model or a full line and removes the file, else joins the line; new state given whole |
| SpeechService.Engine.AcquireAndSubmit | services/speech_service.py:431-442 | the granted request leaves the line and its job is the only one queued |
| SpeechService.Engine.GiveUpWaiting | services/speech_service.py:434-445 | a queue timeout or cancellation takes no permit and removes the file |
| SpeechService.Engine.StartJob | services/speech_service.py:372-379 | the one worker takes the next job |
| SpeechService.Engine.CleanUp | services/speech_service.py:473-474 | the job removes its file whether the model returned or raised |
| SpeechService.Engine.ScheduleRelease | services/speech_service.py:475-476 | the job ends and one release is owed |
| SpeechService.Engine.RunRelease | services/speech_service.py:475-478 | the release gives back the one permit |
| SpeechService.Engine.Finish | services/speech_service.py:446-451 | result, timeout or cancellation leaves slot, queue, worker and files unchanged |
| SpeechService.Stage | services/speech_service.py:633-654 | the upload is kept whole exactly when its length is positive and within the limit |
| Jwks.ParseJwks | pipeline/api/oidc.py:181-207 | accepts exactly well-formed key sets within the limit without a repeated key id |
| Jwks.CombineLoop | pipeline/api/oidc.py:142-152 | the two loops build the combined cache |
| Jwks.RefreshAgrees | pipeline/api/oidc.py:129-156 | one refresh keeps the agreement between the cache and the fetch history |
| Jwks.CacheMatchesHistory | pipeline/api/oidc.py:129-156 | after any run of attempts the cache is a function of the successful fetches: a key is held iff live, with its last published value and the time of the refresh that first missed it; never more than twice the key limit |
| Jwks.LiveWithForwardClock | pipeline/api/oidc.py:142-151 | with a clock that never steps back, live means in the latest fetch or first missed at most the overlap before it |
| Jwks.JWKSVerifier.Refresh | pipeline/api/oidc.py:129-156 | a refused refresh leaves the cache as it was |
| Jwks.JWKSVerifier.Verify | pipeline/api/oidc.py:158-178 | at most one refresh; accepts exactly with a usable key, a good signature and good claims, from a cache younger than its limit |
| Jwks.AcceptedKeyIsRecent | pipeline/api/oidc.py:158-178 | a key usable after any refresh attempts is the last one published under its id, and if withdrawn, first missed at most the overlap ago |
| Jwks.CallsAreAttempts | pipeline/api/oidc.py:129-178 | a run of refresh and verify calls leaves the cache that the refresh attempts it makes leave |
| Jwks.AcceptedIff | pipeline/api/oidc.py:158-178 | after any run of refresh and verify calls a verification accepts exactly when its claims pass and its signer is a key the provider published, last under that id, with the latest fetch younger than the cache limit and the key not withdrawn for longer than the overlap |
| Jwks.ClaimsWindow | pipeline/api/oidc.py:232-267 | claims that pass at some moment pass exactly inside their own window widened by the skew |
| GateReport.BuildGateSummary | eval/answer/locked_runner.py:128-181 | the loops build the summary specified, or refuse it |
| GateReport.SummaryExistsIff | eval/answer/locked_runner.py:107-180 | there is a summary exactly when every cell of a confirmed class at the cluster floor counts its catches within its clusters |
| GateReport.ReplayCell | eval/answer/adversarial_mutate.py:634-661 | the counters of one policy cell are the counts over its screened mutants |
| GateReport.ReplayedCellAccepted | eval/answer/locked_runner.py:337-442 | the counters the replay builds pass the count and flag checks exactly when every raised code has the allowed shape |
| GateReport.ReplayedReportAcceptedIff | eval/answer/adversarial_mutate.py:617-673 | the runner's own counters always have a summary, and the report passes its own validator exactly when every flag code and exclusion reason has the allowed shape |
| GateReport.AcceptedSummaryIsDerived | eval/answer/locked_runner.py:269-442 | whoever wrote it, an accepted report's gate summary is the one derived from its classes |
| GateReport.AcceptedBoundsAreOwed | eval/answer/locked_runner.py:221-266 | in an accepted report a bound stands exactly for confirmed classes at the cluster floor, and it is the exact binomial bound of the misses |
| ContentFree.LongPieces | eval/answer/locked_runner.py:493-506 | the generator yields the specified pieces of the collapsed text |
| Text.CollapseTwice | eval/answer/locked_runner.py:499 | collapsing white space a second time changes nothing, so pieces are cut from the folded text itself |
| ContentFree.LongQuoteHoldsPiece | eval/answer/locked_runner.py:493-506 | every stretch of 23 characters or more of a text of at least 16 holds an aligned piece |
| ContentFree.AlwaysCaughtIff | eval/answer/locked_runner.py:493-506 | a length is always caught exactly when it is at least 23 |
| ContentFree.AssertContentFree | eval/answer/locked_runner.py:454-490 | the write is refused exactly when a piece of a fragment or a whole-token name shows in the folded report |
| ContentFree.PassingReportQuotesNothing | eval/answer/locked_runner.py:454-506 | a report that passes shares no 23 characters in a row with the folded text of any fragment of any case |
| Judge.OrderedMatch | eval/answer/judge.py:223-240 | the greedy scan succeeds exactly when a strictly increasing embedding exists, for any match relation |
| Judge.UnorderedMatch | eval/answer/judge.py:204-221 | the popping loop succeeds exactly when taking first matches does; success yields a one-to-one assignment, failure names a unit all of whose matches were taken |
| Judge.UnorderedDecides | eval/answer/judge.py:204-221 | the loop decides assignability when the matches at hand fall into blocks; for which relations that is always so, see Judge.CompleteIffBlocks |
| Judge.BlockIsFull | eval/answer/judge.py:204-221 | with block-shaped matches a unit that finds all its matches taken excludes every assignment |
| Judge.GreedyCanMiss | eval/answer/judge.py:204-221 | wherever four words break the block shape, a one-figure key and a sentence made of them have an assignment the loop does not find |
| Judge.CompleteIffBlocks | eval/answer/judge.py:204-221 | taking first matches finds every one-figure key that can be assigned exactly when any two key words that share a match share all their matches |
| Judge.SourceRelationMisses | eval/answer/judge.py:75-111 | the word relation itself breaks that: with a short bare root, the root with a key ending and the root with an answer ending, a key that can be assigned is missed |
| Judge.NotationMatch | eval/answer/judge.py:176-241 | a key of several figures or none is stated iff some eligible sentence embeds it; a key of one figure iff taking first matches succeeds on one, which then holds it one to one |
| Stopping.FirstStop | eval/answer/adversarial_review.py:83-111 | the counting loop finds the first stop, or refuses a plan without a positive target or limit |
| Stopping.FirstStopUnique | eval/answer/adversarial_review.py:92-111 | there is one first stop, so the two outcomes exclude each other |
| Stopping.FullReviewStops | eval/answer/adversarial_feasibility.py:660-677 | under the registered limit a fully resolved review always stops |
| Stopping.LongerReviewKeepsStop | eval/answer/adversarial_review.py:92-111 | reviewing further never moves a stop already reached |
| Stopping.StopDecides | eval/answer/adversarial_feasibility.py:660-695 | after a stop no completion of the review can reach the other side |
| Stopping.ReviewOneClass | eval/answer/adversarial_review.py:114-229 | one class is merged under the plan recorded for it, or refused exactly when the decisions or the plan are unfit; every reported count is the size of the set it names, those after the stop included |
| Stopping.PoweredIffConfirmed | eval/answer/adversarial_review.py:114-229 | for gate classes, under the plan the feasibility report records, powered is reported iff the confirmation stop was reached |
| Stopping.DeficitExactIff | eval/answer/adversarial_review.py:114-229 | the deficit is called exact iff every completion of the review has it |
| Stopping.ExpectedAdditionalIsLeast | eval/answer/adversarial_feasibility.py:142-145 | the forecast is the least number of questions whose locked share covers the deficit |
| LeakScan.ShareRunIff | eval/tools/leak_scan.py:501-502 | two texts share a run of the window length iff their window sets meet |
| LeakScan.BuildIndex | eval/tools/leak_scan.py:497-502 | the inverted index maps each window to the files that hold it, and nothing else |
| LeakScan.Sweep | eval/tools/leak_scan.py:572-578 | one walk over a corpus finds exactly its windows that the index knows |
| LeakScan.Locate | eval/tools/leak_scan.py:595-611 | each file is charged with the number of distinct found windows it holds |
| LeakScan.Scan | eval/tools/leak_scan.py:461-617 | per file: specific document windows, other document windows and windows of the full corpus only, counted against naive search; no readable file is an error |
| LeakScan.FoundIffSharesRun | eval/tools/leak_scan.py:580-617 | in a scan of any files, a name is reported against the documents iff a file of that name shares a run of the window length with them, and reported at all iff one shares a run with the full corpus |
| LeakScan.BucketsPartition | eval/tools/leak_scan.py:592-611 | the three findings partition the windows shared with the full corpus |
| LeakScan.PrefixWindows | eval/tools/leak_scan.py:336-341 | the documents open the full corpus, so its windows include theirs |
| Hotwords.LoadTerms | services/speech_terminology.py:183-236 | the registry loads exactly when every entry passes alone, the default context is served, and no two phrases share a normal form |
| Hotwords.Register | services/speech_terminology.py:158-180 | the shared `seen` set refuses exactly the phrases already registered |
| Hotwords.Select | services/speech_terminology.py:76-115 | the nested loops compute the specified selection, errors included |
| Hotwords.PackWithinBudget | services/speech_terminology.py:97-115 | both budgets hold and the token count is the tokenizer's count of the joined text |
| Hotwords.TakenIffFits | services/speech_terminology.py:100-112 | a phrase is taken exactly when room remains and it fits after what was taken before |
| Hotwords.OrderedUnique | services/speech_terminology.py:93-96 | with an injective key the sorted list is determined by its elements |
| Hotwords.SelectionIgnoresFileOrder | services/speech_terminology.py:76-115 | the selection does not depend on the order of terms in the registry |
| Hotwords.SplitJoin | services/speech_terminology.py:104-115 | the joined text splits back to the same phrases because none holds a comma |
| Base64Url.EncodeIsUnpadded | openwebui/functions/ragtest_evidence_action.py:33-35 | encoding with padding and stripping it leaves exactly the letters, and only alphabet letters |
| Base64Url.DecodeEncode | pipeline/api/identity.py:113-122 | decoding inverts encoding for every byte string |
| Base64Url.LetterCount | pipeline/api/app.py:1749-1750 | the number of letters is the byte count times four thirds, rounded up |
| Base64Url.EvidenceDigestIff | pipeline/api/app.py:1769-1780 | the strict reader accepts exactly the encodings of 32-byte values and inverts them |
| Assertion.TokenComesApart | pipeline/api/identity.py:64-73 | three encoded parts joined by dots split into the same parts, and the byte length is the letter count |
| Assertion.SignedIsAcceptedIff | pipeline/api/identity.py:64-104 | a token from the signer is accepted at `now` iff it is at most 4096 bytes, the subject is closed text, the verifier allows a minute, and issued - skew <= now < issued + 60 + skew; the identity is the signed one |
| Assertion.AcceptedForOneWindow | pipeline/api/identity.py:88-104 | any token accepted at two moments is accepted alike at every moment between, and they are less than its longest life plus twice the skew apart |
| GuardLedger.ExtendedCodes | eval/answer/guard_ledger.py:61-83 | a policy that adds binding or explicit-page flags keeps every code of the one it extends |
| GuardLedger.Counters.Record | eval/answer/guard_ledger.py:105-136 | one call brings both counters from counting the answers so far to counting one more |
| GuardLedger.MeasureSet | eval/answer/guard_ledger.py:191-204 | one file adds the same entries to its own ledger and to the total |
| GuardLedger.MeasureRun | eval/answer/guard_ledger.py:167-222 | the report counts exactly the kept rows, in total and set by set |
| GuardLedger.AnswersAreConserved | eval/answer/guard_ledger.py:105-129 | n is the sum of the verdicts, and of reviewed, published and unflagged abstentions; reviewed is withheld plus caught |
| GuardLedger.FlagColumnsAdd | eval/answer/guard_ledger.py:131-136 | raised is the sum over verdicts, exclusive likewise, and neither exceeds the reviewed answers |
| GuardLedger.TotalsAreSums | eval/answer/guard_ledger.py:167-222 | every total is the sum of the per-set readings |
| GuardLedger.PolicyOrder | eval/answer/guard_ledger.py:61-136 | over any run an extended policy never lowers what is reviewed, withheld or caught, never raises what is published, and leaves the rest |
| GuardLedger.ExplicitPagePrice | eval/answer/guard_ledger.py:73-83 | the explicit-page policy moves exactly the published answers that cite no page, and leaves none of them published |
| PagePolicy.CollectEvidence | eval/answer/page_policy_eval.py:62-77 | handles are read in order without repetition; the first failing check names the problem |
| PagePolicy.DistinctKeepsMembers | eval/answer/page_policy_eval.py:69 | dropping repeated handles keeps exactly the same members |
| PagePolicy.CandidatePage | eval/answer/page_policy_eval.py:87-119 | the page and reason the rule gives, whatever order the set of pages is walked in |
| PagePolicy.FigurePageIsTheOnlyOne | eval/answer/page_policy_eval.py:103-117 | a page is derived from figures iff its own passages support them all and no other cited page does |
| PagePolicy.DerivedPagePersists | eval/answer/page_policy_eval.py:87-119 | a page derived under one policy is derived, the same page, under every wider one |
| PagePolicy.MeasureRows | eval/answer/page_policy_eval.py:122-197 | shapes, policy counters, reasons and the ambiguous count, as counts over the rows that miss a page |
| PagePolicy.PolicyPartitions | eval/answer/page_policy_eval.py:148-169 | under each policy the rows are derived or unresolved, and held, rescued or newly publishable |
| PagePolicy.ReasonsPartition | eval/answer/page_policy_eval.py:151-153 | every row has exactly one reason |
| PagePolicy.PoliciesAreCumulative | eval/answer/page_policy_eval.py:148-169 | derived, rescued and newly publishable never fall from a policy to a wider one, unresolved and held never rise |
| PagePolicy.DerivedByShape | eval/answer/page_policy_eval.py:130-197 | each policy adds exactly one kind of row, and the ambiguous rows are the multi-page rows without a unique figure page |
| PagePolicy.ReportAddsUp | eval/answer/page_policy_eval.py:122-197 | the same sums hold of the report |
| PagePolicy.ReportIsCumulative | eval/answer/page_policy_eval.py:122-197 | the same order holds between the policies of one report |

## Left out

- CodeDistanceIsExact: one direction for a single pair of trees, because two equal tables agree even with a header row; as a statement about one table against all others exactness is settled both ways (`ExactAgainstBlankIff`, `LowerBoundAlwaysFails`).
- ExactAgainstBlankIff: quantifies over partners of blank first row, because no table is exact against all partners (`LowerBoundAlwaysFails`).
- UnorderedDecides: one direction for a single key and sentence; the condition on the word relation is exact (`CompleteIffBlocks`).
- ClaimsWindow: the nonce, audience and issuer rules are part of `ValidateClaims` but only the time rule has a lemma, because the others are single comparisons.
- PoweredIffConfirmed: speaks of the plan the feasibility report records for the same candidates; `ReviewOneClass` takes any recorded plan.
- MeasureRun: file discovery, JSON reading and the summed seconds are not modelled; result files of one directory are taken to have different names.
- Teds: rounding to four digits is not modelled.
- A triangle inequality for table trees and a non-negative score are not claimed; neither is promised by the code.
- `number_fidelity`, `cell_accuracy` and `consensus_metrics` (eval/table/table_eval.py): counting over multisets and cells.
- `SpeechEngine.close`, a failing `run_in_executor` and the loop being closed at release: shutdown lies outside the protocol. Acquire with a timeout is one atomic step.
- `Gate._bounded` (services/speech_service.py): the same running total as `Stage`, on the request stream.
- Header fields of the locked report, its hash and commit patterns, and the checks that tell integers from truth values.
- `locked_cases`, the clean-tree check and the run driver of the locked runner: filters, git and files.
- Secret patterns, invisible characters, entropy, name stems and line numbers of the leak scan, and the partition of files in `_collect`: independent text rules.
- Review packages, their fingerprints and the case predicates of the feasibility report; only the plans and the forecast are modelled.
- The mutators, the contract chain and the development replay matrix of the mutation suite.
- Key parsing and RSA inside the OIDC verifier: a token carries a predicate for the keys that verify it.
- Routes, portals, HTTP clients, databases, subprocesses and the other model services.
