# Verified model of the benchmark and evaluation scripts

These Dafny modules model the in-memory algorithms of the platform's benchmark and evaluation scripts and
prove what those scripts rely on. `dafny verify dfyconfig.toml` checks everything.

| module | models |
|---|---|
| `PyText`, `PyTextLaws`, `Dicts`, `Ordering`, `Numbers`, `Wrappers` | Python's `splitlines`, `strip` and decimal printing, insertion-ordered dictionaries, the stable sort, powers and means |
| `Hunks`, `HunkGrammar`, `SpanPrinter` | the hunk-count validator for unified diffs, the headers and hunks that it admits, and the span printer |
| `DiffFilter`, `NoisePaths`, `DiffFilterLaws`, `DiffFilterWitness` | the filter that drops platform and environment sections from a diff |
| `EditReplay`, `EditMeaning`, `PatchNames`, `EditReplayLaws`, `EditReplayWitness` | the patch rebuilt from edit events, the files that a patch names, and what the diff filter does to a rebuilt patch |
| `EditDistance`, `QueryWords` | the two-row edit distance and the query drift |
| `RankFusion`, `RankFusionLaws` | reciprocal rank fusion and the scores handed to the metrics |
| `IrMetrics`, `IrScores`, `IrMeaning` | nDCG, recall and average precision at k |
| `Bm25`, `Bm25Ranking` | the BM25 index and its ranking |
| `SignTest`, `PairedStats`, `PairedMeaning`, `PairedStatsLaws` | the paired comparison of two benchmark results |
| `AnswerScorer`, `AnswerMeaning` | bag-of-tokens F1 and exact match |
| `StreamLines`, `DockerPull`, `DockerLines` | cutting chunked output into lines, and the pull-progress tracker |
| `ImportClosure`, `ModuleNames` | the import worklist of the writing-core build |
| `ParallelMap` | the concurrent map with throttled progress |
| `EventResume`, `EventOnce` | reading a turn's events across reconnects |

Code that loops over changing state is a method with loop invariants, proved equal to a specification function;
the lemmas are about those functions. The tracker, the index and the evaluation case are classes.

Some expected properties turned out to need a condition. The model proves the exact one, always together with an input
where the property fails:

- The diff filter can make a complete patch incomplete. `filter_unified_diff_noise` adds a `\n` when the kept text
  does not end with one; when the kept text ends with a form feed or another rare line break inside a hunk, that `\n`
  reads as one more context line. `DiffFilterLaws.FilterComplete` gives the exact condition for every complete diff;
  `DiffFilterWitness.FilterCanBreak` and `NewlineCanBreak` are such diffs, the second with nothing dropped at all.
- The printer and the validator agree up to the path: a path with line breaks can open a hunk of its own, and then a
  printable edit is rejected (`SpanPrinter.SpanAccepted`, `PathOpensHunk`, `PathCanBreakPatch`).
- The filter leaves a rebuilt patch as it is exactly when no recorded path with a section is noise in its printed form
  (`EditReplayLaws.ReplayFixedIff`). A path can become noise by being printed: the printer strips leading dots, which
  the noise test keeps (`EditReplayWitness.PrintingCanMakeNoise`), and the filter reads a header from its first ` b/`
  on (`MarkCanMakeNoise`). For plain paths only the latter happens (`EditReplayLaws.ReplayUnfiltered`).
- What the filter leaves of a rebuilt patch are whole sections exactly when the header lines of each printed path agree
  (`EditReplayLaws.FilterReplay`). A path with line breaks can print header lines that do not, and then the filter
  leaves part of a section (`EditReplayWitness.FilterCanCut`).
- For plain paths a rebuilt patch has one section for each file exactly when no two recorded paths differ only in leading
  dots and slashes (`EditReplayLaws.OneSectionPerFile`). Otherwise a later edit does not supersede an earlier one of the
  same file (`EditReplayWitness.FileCanHaveTwoSections`).
- Filtering distributes over concatenation at a section header exactly when no `\n` has to be added in between
  (`DiffFilterLaws.FilterAppend`, `DiffFilterWitness.FilterCanSplit`).
- Scores survive the metrics' re-sorting exactly when they never rise along the list; mixing raw fused scores with
  rank scores breaks this (`RankFusionLaws.RoundTrip`, `MixedScoresReorder`).
- The concurrent map does not depend on the completion order exactly when items with the same id have the same
  result (`ParallelMap.OrderIrrelevantIff`, `OrderCanMatter`).
- Swapping the two results of a paired comparison mirrors every number except the bootstrap interval. The interval is
  mirrored exactly when 40 does not divide the number of rounds (`PairedStatsLaws.SwapMirrorsIff`), which it does for
  the default of 2000 (`SwapCanShift`, `DefaultRoundsShift`). The same rounds decide whether the verdict flips for every
  comparison with a mean other than 0 (`SwapVerdictIff`, `VerdictCanShift`); with mean 0 a comparison can be called
  negative both ways round (`MirroredVerdict`, `ZeroMeanStaysNegative`).
- BM25 search returns exactly the documents that share a token with the query, for all queries, exactly when every match
  raises the score. It always does for `k1 >= 0` and `b` in [0, 1] (`Bm25.SearchExactIff`, `SoundFavourable`); the model
  also gives parameters for which it does not (`NegativeCanHide`).
- An exact match has F1 1 exactly when no gold answer matches or some gold answer has the token bag of the prediction
  (`AnswerScorer.ExactMatchHasFullF1Iff`). This holds for every input of the default scorer; the substring clause of
  the old scorer can match exactly with F1 0 (`OldExactMatchWithoutF1`).
- Another gold answer lowers no score unless it changes the language branch, which it does exactly when it is the first
  one with CJK text and no language was given (`AnswerScorer.BranchChangesIff`, `CjkGoldCanLower`).

## Model

| member | source | states |
|---|---|---|
| `Hunks.PatchHunksIncomplete` | scripts/official_bench/agent_path_extract.py:1270-1308 | true exactly when some hunk body does not have the old and new line counts of its header |
| `Hunks.CountBody` | scripts/official_bench/agent_path_extract.py:1287-1304 | the counts of one body, up to the first line that ends it |
| `Hunks.ReadHeaderPrinted` | scripts/official_bench/agent_path_extract.py:1265-1267 | the header parser reads back the counts that the printer wrote, for all counts |
| `Hunks.BlankIsComplete` | scripts/official_bench/agent_path_extract.py:1273-1274 | white space alone is never incomplete |
| `Hunks.IncompleteAppend` | scripts/official_bench/agent_path_extract.py:1270-1308 | incompleteness of a concatenation is the disjunction of its parts when the second starts with a section or hunk header |
| `HunkGrammar.HeaderRead` | scripts/official_bench/agent_path_extract.py:1265-1285 | every header that the pattern admits, whatever its white space, starts and tail, reads as its two counts, where one that is left out is 1 |
| `HunkGrammar.HeadersExact` | scripts/official_bench/agent_path_extract.py:1265-1267 | no other line is read as a hunk header |
| `HunkGrammar.LeadingZero` | scripts/official_bench/agent_path_extract.py:1284-1285 | leading zeros do not change a count |
| `HunkGrammar.LineRead` | scripts/official_bench/agent_path_extract.py:1290-1304 | what a body line of each kind contributes to the old and the new text |
| `HunkGrammar.HunkRead` | scripts/official_bench/agent_path_extract.py:1270-1308 | any hunk up to a line that ends it reads back as both texts, and is complete exactly when they have the counts of the header |
| `HunkGrammar.OneHunkAccepted` | scripts/official_bench/agent_path_extract.py:1270-1308 | one hunk alone is accepted exactly when its counts are right |
| `HunkGrammar.ShortHunkAccepted` | scripts/official_bench/agent_path_extract.py:1284-1285 | a header without counts stands for one removed and one added line |
| `PyTextLaws.SpacesExact` | scripts/official_bench/agent_path_extract.py:1275 | the line breaks of `splitlines` and the white space of `strip` and `\s`, character by character |
| `PyTextLaws.StripExact` | scripts/official_bench/agent_path_extract.py:282 | stripping cuts off white space only, and leaves none at the ends |
| `PyTextLaws.SplitOnExact` | scripts/official_bench/agent_path_extract.py:1367 | the parts of a split text hold no separator and join to the text |
| `SpanPrinter.NormalizeUnifiedDiff` | scripts/official_bench/agent_path_extract.py:207-225 | drops leading newlines and ends the text with one, leaving the body intact |
| `SpanPrinter.NormalizedExact` | scripts/official_bench/agent_path_extract.py:207-225 | only newlines at the start are dropped, and at most one is added at the end |
| `SpanPrinter.SpanEmits` | scripts/official_bench/agent_path_extract.py:228-237 | a patch is emitted exactly when there is new text that differs from the old |
| `SpanPrinter.SpanText` | scripts/official_bench/agent_path_extract.py:238-259 | the emitted text is the four header lines, the removed and the added lines |
| `SpanPrinter.SectionAccepted` | scripts/official_bench/agent_path_extract.py:228-259 | on lines: a printed section is accepted exactly when no removed line starts with `--` and no added one with `++`, and then reads back as both texts |
| `SpanPrinter.SpanAccepted` | scripts/official_bench/agent_path_extract.py:228-259 | on the text, for every path: the patch is accepted exactly when the lines that name the path are complete on their own and the texts are printable, and the two line lists of printable texts are recovered |
| `SpanPrinter.PlainHead` | scripts/official_bench/agent_path_extract.py:238-256 | a path without line breaks gives three lines that open no hunk |
| `SpanPrinter.AtFreeHead` | scripts/official_bench/agent_path_extract.py:238-256 | nor does a path without `@`, whatever its line breaks |
| `SpanPrinter.PathOpensHunk` | scripts/official_bench/agent_path_extract.py:238-256 | a path whose last line is a hunk header opens a hunk that the section cannot close |
| `SpanPrinter.PathCanBreakPatch` | scripts/official_bench/agent_path_extract.py:228-259 | a printable edit whose patch is rejected because of its path |
| `DiffFilter.PathIsDiffNoise` | scripts/official_bench/agent_path_extract.py:1355-1378 | a path is noise by its normalized name or one of its directories |
| `NoisePaths.NoiseOnText` | scripts/official_bench/agent_path_extract.py:1355-1378 | on the text of any path: backslashes count as slashes, every leading `./` and `/` is dropped, and the rest is noise by the listed names and directories |
| `NoisePaths.PartOnText` | scripts/official_bench/agent_path_extract.py:1367-1378 | a directory is a part of a path exactly when it stands between two slashes of it |
| `NoisePaths.NewNameRead` | scripts/official_bench/agent_path_extract.py:1391-1396 | the path of a header line is what follows the first ` b/`, stripped |
| `NoisePaths.OldNameRead` | scripts/official_bench/agent_path_extract.py:1397-1398 | without ` b/` it is the `a/` path up to the first blank |
| `NoisePaths.NoNameRead` | scripts/official_bench/agent_path_extract.py:1394-1398 | without a blank or an `a/` there is no path |
| `DiffFilter.FilterUnifiedDiffNoise` | scripts/official_bench/agent_path_extract.py:1381-1411 | the filtered text is the normalized concatenation of the kept lines |
| `DiffFilter.FilterLines` | scripts/official_bench/agent_path_extract.py:1389-1410 | the nested loops keep exactly the lines that the one-pass specification keeps |
| `DiffFilter.KeepAppend` | scripts/official_bench/agent_path_extract.py:1389-1410 | on lines, filtering distributes over concatenation at a section header |
| `DiffFilterLaws.KeepExact` | scripts/official_bench/agent_path_extract.py:1389-1410 | the kept lines are the preamble and, in order and unchanged, exactly the sections that are not noise |
| `DiffFilterLaws.WantedExact` | scripts/official_bench/agent_path_extract.py:1400-1406 | a section is among the kept ones exactly when it was there and its path is not noise |
| `DiffFilterLaws.IncompleteSections` | scripts/official_bench/agent_path_extract.py:1270-1308 | a patch is incomplete exactly when its preamble or one of its sections is |
| `DiffFilterLaws.KeepComplete` | scripts/official_bench/agent_path_extract.py:1381-1411 | on lines, filtering never makes a complete patch incomplete |
| `DiffFilterLaws.FilterIdempotent` | scripts/official_bench/agent_path_extract.py:1381-1411 | filtering twice gives what filtering once gives, on every text |
| `DiffFilterLaws.FilterMeans` | scripts/official_bench/agent_path_extract.py:1381-1411 | the newline added before filtering makes no difference: the filtered text is that of the sections of the diff as it stands |
| `DiffFilterLaws.FilterFixedIff` | scripts/official_bench/agent_path_extract.py:1381-1411 | the filter leaves a diff as it is exactly when it is normalized and has no noise header |
| `DiffFilterLaws.FilterAppend` | scripts/official_bench/agent_path_extract.py:1381-1411 | for a first text that ends with a newline, filtering distributes over concatenation at a section header exactly when no newline must be added in between |
| `DiffFilterLaws.FilterTextLines` | scripts/official_bench/agent_path_extract.py:1381-1411 | the lines of the filtered text are those of the kept lines, and the one that an added newline can create |
| `DiffFilterLaws.FilterComplete` | scripts/official_bench/agent_path_extract.py:1381-1411 | for every diff that is complete as it stands: exactly when filtering makes it incomplete |
| `DiffFilterLaws.PrintedHeaderPath` | scripts/official_bench/agent_path_extract.py:1391-1399 | what the filter reads back from a printed header, and that it is the path exactly when the path does not contain ` b/` |
| `DiffFilterWitness.FilterCanBreak` | scripts/official_bench/agent_path_extract.py:1381-1411 | a concrete complete diff that filtering makes incomplete |
| `DiffFilterWitness.NewlineCanBreak` | scripts/official_bench/agent_path_extract.py:1381-1411 | a complete diff of which every line is kept and that is still made incomplete |
| `DiffFilterWitness.FilterCanSplit` | scripts/official_bench/agent_path_extract.py:1381-1411 | two diffs over which filtering does not distribute |
| `EditReplay.EditedPaths` | scripts/official_bench/agent_path_extract.py:269-304 | the edited paths, each once, are those with an effective edit |
| `EditReplay.LatestIsLast` | scripts/official_bench/agent_path_extract.py:297-303 | the recorded edit of a path is its last effective one |
| `EditReplay.RecordEdits` | scripts/official_bench/agent_path_extract.py:269-303 | the first loop keeps the last effective edit of every path in first-edit order |
| `EditReplay.PatchFromEditEvents` | scripts/official_bench/agent_path_extract.py:262-313 | the patch is one printed section per edited path, those that fail validation left out |
| `EditReplay.ReplayAccepted` | scripts/official_bench/agent_path_extract.py:304-313 | for every event stream the rebuilt patch passes the hunk validator |
| `EditReplay.SectionPrinted` | scripts/official_bench/agent_path_extract.py:304-310 | a path has a section exactly when its last effective edit is printable and the lines that name the path are complete |
| `EditMeaning.TargetExact` | scripts/official_bench/agent_path_extract.py:282-292 | the path under which an edit is recorded, on the raw argument |
| `EditMeaning.EffectExact` | scripts/official_bench/agent_path_extract.py:282-301 | the old and the new text of an event and its path, on the raw arguments in either spelling |
| `EditMeaning.EditedExact` | scripts/official_bench/agent_path_extract.py:269-303 | a path is edited exactly when some event makes an edit of it |
| `EditMeaning.RelativeExact` | scripts/official_bench/agent_path_extract.py:239 | a printed path loses the dots and slashes at its start and nothing else |
| `EditMeaning.LastEditHeld` | scripts/official_bench/agent_path_extract.py:262-313 | the last edit of a path, if printable, has a section in the rebuilt patch whose removed lines are the old text and whose added lines are the new one |
| `EditReplay.FilesFromPatch` | scripts/official_bench/agent_path_extract.py:853-861 | the names matched by the `+++` pattern in multi-line mode, white space and newline crossing included |
| `PatchNames.GroupExact` | scripts/official_bench/agent_path_extract.py:840 | the group of the pattern starts at the last place where it can, for any text |
| `PatchNames.PlainNameRead` | scripts/official_bench/agent_path_extract.py:853-861 | a `+++` line without `b/` names the text behind its white space, and `/dev/null` is no file |
| `EditReplay.ReplayFiles` | scripts/official_bench/agent_path_extract.py:262-313 | when no printed path has a newline, the files named by the rebuilt patch are exactly the names read from the paths with a section |
| `EditReplay.ReplayPlainFiles` | scripts/official_bench/agent_path_extract.py:262-313 | for paths that are plain behind leading dots and slashes, those names are the paths without them, and the sections are those of the printable last edits |
| `EditReplay.FilesCount` | scripts/official_bench/agent_path_extract.py:262-313 | for plain paths there are as many files as paths with a section exactly when no two of these share a name |
| `EditReplayLaws.FilterReplay` | scripts/official_bench/agent_path_extract.py:1381-1411 | filtering a rebuilt patch leaves, unchanged and in order, exactly the sections of the edited paths whose printed form is not noise, exactly when the header lines of each printed path agree |
| `EditReplayLaws.OneHeaderOneVoice` | scripts/official_bench/agent_path_extract.py:1391-1408 | they agree when no later line of the printed path starts with `diff --git ` |
| `EditReplayLaws.ReplayFixedIff` | scripts/official_bench/agent_path_extract.py:262-313 | for every event stream, the rebuilt patch passes the filter unchanged exactly when no path with a section is noise in its printed form |
| `EditReplayLaws.PlainPrintedNoise` | scripts/official_bench/agent_path_extract.py:1391-1399 | a path without line breaks is noise as printed exactly when the path read back from its header is |
| `EditReplayLaws.ReplayUnfiltered` | scripts/official_bench/agent_path_extract.py:282-292 | for plain paths the rebuilt patch passes the filter unchanged exactly when no path with a section has a ` b/` behind which its header reads as noise |
| `EditReplayLaws.OneSectionPerFile` | scripts/official_bench/agent_path_extract.py:304-313 | for plain paths the rebuilt patch has as many sections as files exactly when no two paths with a section differ only in leading dots and slashes |
| `EditReplayWitness.PrintingCanMakeNoise` | scripts/official_bench/agent_path_extract.py:239 | a recorded path with a leading dot whose edit is in the rebuilt patch and is dropped by the filter |
| `EditReplayWitness.MarkCanMakeNoise` | scripts/official_bench/agent_path_extract.py:1393-1397 | a plain recorded path with ` b/` whose edit is in the rebuilt patch and is dropped by the filter |
| `EditReplayWitness.FilterCanCut` | scripts/official_bench/agent_path_extract.py:1389-1410 | a recorded path whose printed header lines do not agree, so that the filter leaves part of its section |
| `EditReplayWitness.FileCanHaveTwoSections` | scripts/official_bench/agent_path_extract.py:239 | a file that is recorded under two names and gets two sections |
| `EditDistance.Levenshtein` | scripts/official_bench/l2_probes.py:153-169 | the two-row program computes the recursive edit distance |
| `EditDistance.NextRow` | scripts/official_bench/l2_probes.py:161-168 | one pass of the inner loop computes the next row |
| `EditDistance.DistanceIsLeastCost` | scripts/official_bench/l2_probes.py:153-169 | the distance is the least cost of any edit script |
| `EditDistance.ZeroIffEqual` | scripts/official_bench/l2_probes.py:153-155 | the distance is zero exactly for equal strings |
| `EditDistance.Symmetric` | scripts/official_bench/l2_probes.py:153-169 | the distance is symmetric |
| `EditDistance.Triangle` | scripts/official_bench/l2_probes.py:153-169 | the triangle inequality |
| `EditDistance.DistanceBounds` | scripts/official_bench/l2_probes.py:153-169 | the distance is at least the difference and at most the maximum of the lengths |
| `EditDistance.QueryDrift` | scripts/official_bench/l2_probes.py:176-185 | the drift is the distance over the longer length, with the two empty cases |
| `EditDistance.DriftLaws` | scripts/official_bench/l2_probes.py:176-185 | the drift lies in [0, 1], is symmetric, and is 0 exactly for equal normalized queries |
| `QueryWords.NormalizedExact` | scripts/official_bench/l2_probes.py:172-173 | a normalized query is its words in lower case with one blank between them |
| `QueryWords.CollapseWords` | scripts/official_bench/l2_probes.py:173 | collapsing white space keeps the words |
| `QueryWords.CollapseBlanks` | scripts/official_bench/l2_probes.py:173 | and leaves no white space but single blanks |
| `QueryWords.NoDriftIff` | scripts/official_bench/l2_probes.py:176-185 | two queries do not drift exactly when they have the same words |
| `Ordering.SortSorts` | scripts/official_bench/agent_path_extract.py:96-99 | sorting orders the list and keeps its elements, each as often |
| `Ordering.SortStable` | scripts/official_bench/metrics_ir.py:28-32 | equal keys keep their order |
| `Ordering.StableUnique` | scripts/official_bench/metrics_ir.py:28-32 | sorted order and stability determine the result |
| `RankFusion.RankedDocIds` | scripts/official_bench/agent_path_extract.py:28-62 | the ids of the first hit list that yields one, without repetitions |
| `RankFusionLaws.RankedIdsExact` | scripts/official_bench/agent_path_extract.py:28-62 | the list that counts is the first one that yields an id |
| `RankFusionLaws.IdsInOrder` | scripts/official_bench/agent_path_extract.py:33-38 | the ids of a search come in the order of their first hits |
| `RankFusion.RrfFusionScores` | scripts/official_bench/agent_path_extract.py:68-93 | each score is the sum of 1 / (60 + rank) over the searches, keys and numbers in first-seen order |
| `RankFusionLaws.RankWeight` | scripts/official_bench/agent_path_extract.py:65-89 | a search adds 1/61 to the score of its first document, 1/62 to that of its second, and so on |
| `RankFusion.MergeRetrievalRankings` | scripts/official_bench/agent_path_extract.py:96-99 | the merged list sorts by fused score, then first-seen number |
| `RankFusionLaws.MergedExact` | scripts/official_bench/agent_path_extract.py:96-99 | every retrieved document once, in descending score with first-seen tie-break |
| `RankFusionLaws.DominancePrecedes` | scripts/official_bench/agent_path_extract.py:68-99 | a document ahead of another wherever the other appears precedes it in the merged list |
| `RankFusionLaws.RepeatedSearch` | scripts/official_bench/agent_path_extract.py:71-77 | one search, or the same search repeated, keeps its order |
| `RankFusionLaws.RankingScores` | scripts/official_bench/agent_path_extract.py:102-120 | the assigned scores of the first `limit` ids |
| `RankFusionLaws.ScoresAssigned` | scripts/official_bench/agent_path_extract.py:102-120 | each of the first `limit` ids gets its raw score, or else `limit` less its place |
| `RankFusionLaws.RoundTrip` | scripts/official_bench/agent_path_extract.py:102-120 | the metrics recover the ranked ids exactly when the assigned scores never rise |
| `RankFusionLaws.MergedReachesMetrics` | scripts/official_bench/agent_path_extract.py:96-120 | with raw fused scores, and with rank scores, the metrics see the first `limit` merged ids unchanged |
| `RankFusionLaws.MixedScoresReorder` | scripts/official_bench/agent_path_extract.py:115-119 | raw scores for only some ids can change the order |
| `IrMetrics.Dcg` | scripts/official_bench/metrics_ir.py:10-16 | the discounted gain of the first k grades |
| `IrMetrics.GradeRaised` | scripts/official_bench/metrics_ir.py:10-16 | raising a grade g >= 0 by one at a rank that counts raises the total by 2^g times the discount of the rank |
| `IrMetrics.IdealIsBest` | scripts/official_bench/metrics_ir.py:10-39 | the rearrangement inequality: no selection gains more than the descending list, and equality means equal grades at every rank that counts |
| `IrMetrics.TopDocsDistinct` | scripts/official_bench/metrics_ir.py:28-33 | the first k results name at most k documents, each once |
| `IrScores.NdcgAtK` | scripts/official_bench/metrics_ir.py:19-39 | the mean over the queries with a positive ideal gain |
| `IrScores.IdealCovers` | scripts/official_bench/metrics_ir.py:33-34 | retrieved positive grades occur among the judged ones |
| `IrScores.NdcgBounds` | scripts/official_bench/metrics_ir.py:19-39 | per query nDCG lies in [0, 1] and is 1 exactly for the ideal grades at every rank below k |
| `IrScores.NdcgMeanBounds` | scripts/official_bench/metrics_ir.py:19-39 | the mean nDCG lies in [0, 1] for all inputs |
| `IrMeaning.NdcgDefined` | scripts/official_bench/metrics_ir.py:26-38 | a query has an nDCG exactly when some document is relevant and a rank counts |
| `IrMeaning.IdealRun` | scripts/official_bench/metrics_ir.py:19-39 | a run that ranks every query with a relevant document in ideal order has a mean nDCG of 1 |
| `IrScores.RecallAtK` | scripts/official_bench/metrics_ir.py:42-59 | the mean share of relevant documents among the first k |
| `IrScores.SumPrecisions` | scripts/official_bench/metrics_ir.py:77-82 | the sum of precisions at the relevant ranks |
| `IrScores.MapAtK` | scripts/official_bench/metrics_ir.py:62-84 | the mean average precision |
| `IrScores.HitsAreIntersection` | scripts/official_bench/metrics_ir.py:57-82 | counting hits along the ranking is the size of the intersection |
| `IrScores.QueryBounds` | scripts/official_bench/metrics_ir.py:42-84 | per query 0 <= AP@k <= Recall@k <= 1, and neither falls when k grows |
| `IrScores.MapBelowRecall` | scripts/official_bench/metrics_ir.py:42-84 | the same bounds for the means |
| `IrScores.MeansGrow` | scripts/official_bench/metrics_ir.py:42-84 | neither mean falls when k grows |
| `IrMeaning.RecallExact` | scripts/official_bench/metrics_ir.py:49-58 | recall counts the relevant documents among the first k; it is 1 exactly when all of them are there |
| `IrMeaning.PrecisionStep` | scripts/official_bench/metrics_ir.py:77-82 | a relevant document adds the share of relevant documents up to its rank, any other adds nothing |
| `IrMeaning.PrecisionOneIff` | scripts/official_bench/metrics_ir.py:62-84 | average precision is 1 exactly when the relevant documents take the first ranks |
| `IrMeaning.CompleteRun` | scripts/official_bench/metrics_ir.py:42-84 | a run that starts every query with all its relevant documents has a mean recall and a mean average precision of 1 |
| `IrMeaning.MissingScoresZero` | scripts/official_bench/metrics_ir.py:28-84 | a query without results scores 0 in every metric that scores it |
| `Bm25.BM25Index.constructor` | scripts/official_bench/bm25.py:38-55 | the index holds the documents and its table counts exactly the documents of each term |
| `Bm25.CountDocs` | scripts/official_bench/bm25.py:53-55 | the document-frequency table is brute-force counting |
| `Bm25.BM25Index.Score` | scripts/official_bench/bm25.py:71-85 | the score loop computes the sum over the query terms |
| `Bm25.BM25Index.Search` | scripts/official_bench/bm25.py:57-69 | the hits are the positive scores, sorted and cut at the limit |
| `Bm25.ScoreAppend` | scripts/official_bench/bm25.py:71-85 | the score is additive over the query |
| `Bm25.ScoreBounds` | scripts/official_bench/bm25.py:71-85 | wherever a match raises the score: it is positive exactly when a term matches, and then below, at or above the sum of idf * (k1 + 1) as the saturation is positive, zero or negative |
| `Bm25.TermSign` | scripts/official_bench/bm25.py:75-84 | a matching term adds a positive amount exactly when (k1 + 1) times the denominator is positive |
| `Bm25.SearchExact` | scripts/official_bench/bm25.py:57-69 | where every match raises the score, unlimited search returns exactly the documents that share a token with the query |
| `Bm25.SearchExactIff` | scripts/official_bench/bm25.py:57-69 | for all queries that is so exactly when every match raises the score |
| `Bm25.SoundFavourable` | scripts/official_bench/bm25.py:71-85 | it does for k1 >= 0 and b in [0, 1] |
| `Bm25.NegativeCanHide` | scripts/official_bench/bm25.py:57-85 | parameters for which a search does not return the only matching document |
| `Bm25.HitsOrdered` | scripts/official_bench/bm25.py:68-69 | hits come in descending score and smaller limits give prefixes |
| `Bm25Ranking.RareWeighsMore` | scripts/official_bench/bm25.py:81 | a match of a rarer term scores more than one of a commoner term, other things equal |
| `Bm25Ranking.RareFirst` | scripts/official_bench/bm25.py:57-85 | a document with the rarer of two query terms stands before one with the commoner, other things equal |
| `Bm25Ranking.RareOfThree` | scripts/official_bench/bm25.py:57-85 | three documents of which the one with the rare term is returned |
| `Bm25Ranking.HigherFirst` | scripts/official_bench/bm25.py:68-69 | a returned document stands behind every other one with a higher score |
| `Bm25Ranking.ShorterScoresMore` | scripts/official_bench/bm25.py:83 | a match scores more in the shorter of two documents |
| `Bm25Ranking.MoreScoresMore` | scripts/official_bench/bm25.py:82-84 | more occurrences score more, and as much when nothing saturates |
| `Bm25Ranking.AverageSaturation` | scripts/official_bench/bm25.py:83 | a document of average length has saturation k1; an average below 1 counts as 1 |
| `Bm25Ranking.AverageBetween` | scripts/official_bench/bm25.py:50-52 | the average length lies between any bounds of the lengths |
| `SignTest.RowComplement` | scripts/official_bench/baseline.py:1080-1081 | partial binomial row sums complement each other to 2^n |
| `SignTest.TailAgainstHalf` | scripts/official_bench/baseline.py:1080-1083 | twice the lower tail against 2^n, for every pair of counts |
| `SignTest.ClippedIffEven` | scripts/official_bench/baseline.py:1083 | the clip at 1 takes effect exactly for equal wins and losses |
| `SignTest.SignPBounds` | scripts/official_bench/baseline.py:1074-1082 | the p-value lies in (0, 1], is symmetric, and is 1 exactly when the counts differ by at most one |
| `SignTest.SignPMonotone` | scripts/official_bench/baseline.py:1074-1082 | the p-value does not rise as the imbalance grows |
| `PairedStats.Pair` | scripts/official_bench/baseline.py:1023-1047 | the loop collects the paired cases and their differences and counts wins, losses and ties |
| `PairedStats.Resample` | scripts/official_bench/baseline.py:1063-1066 | the bootstrap means of the drawn samples |
| `PairedStats.PairedCaseDeltaReport` | scripts/official_bench/baseline.py:996-1124 | the report is the specified function of the paired cases and draws, the highlights included |
| `PairedMeaning.ValExact` | scripts/official_bench/baseline.py:1013-1018 | a case is read under the first metric name that holds a number |
| `PairedMeaning.CasesExact` | scripts/official_bench/baseline.py:1020-1040 | exactly the ids of both runs that are no roll-up are counted; those with numbers in both are compared, in order, each with the difference latest less base |
| `PairedMeaning.OutcomesExact` | scripts/official_bench/baseline.py:1043-1048 | a win gained at least 1e-12 over the base run, a loss lost as much |
| `PairedMeaning.MeanOfTotals` | scripts/official_bench/baseline.py:1051 | the mean difference is the total of the latest values less the total of the base values, over the number of cases |
| `PairedMeaning.MedianExact` | scripts/official_bench/baseline.py:1052-1056 | the median is the middle, or the mean of the two middles, of the ordered differences |
| `PairedMeaning.MedianOfReport` | scripts/official_bench/baseline.py:1052-1056 | the median of a report is that middle of its differences, put in order |
| `PairedMeaning.HighlightsExact` | scripts/official_bench/baseline.py:1089-1098 | the improvements are the largest gains and the regressions the largest losses, as many as asked for or all |
| `PairedMeaning.VerdictExact` | scripts/official_bench/baseline.py:1074-1120 | when a verdict, an interval and a p-value are given, and which verdict |
| `PairedMeaning.GainsArePositive` | scripts/official_bench/baseline.py:1033-1120 | gains in every shared case are as many wins, a positive mean and, from five cases on, a positive verdict, whatever is drawn |
| `PairedMeaning.LossesAreNegative` | scripts/official_bench/baseline.py:1033-1120 | losses in every shared case the other way round |
| `PairedStatsLaws.OutcomesAddUp` | scripts/official_bench/baseline.py:1043-1048 | wins, losses and ties add up to the pairs |
| `PairedStatsLaws.SwapReport` | scripts/official_bench/baseline.py:1020-1120 | swapping the results swaps wins and losses, improvements and regressions and the values of every case, keeps n, the shared ids, ties and p, and negates mean and median |
| `PairedStatsLaws.SwapPairs` | scripts/official_bench/baseline.py:1023-1040 | the paired cases of the swapped comparison are the swapped cases |
| `PairedStatsLaws.SwapHighlights` | scripts/official_bench/baseline.py:1089-1098 | improvements and regressions change places |
| `PairedStatsLaws.ImprovementsBest` | scripts/official_bench/baseline.py:1089-1094 | the improvements are gains in descending order, and none left out is larger |
| `PairedStatsLaws.NegMedian` | scripts/official_bench/baseline.py:1052-1056 | the median of the negated differences is the negated median |
| `PairedStatsLaws.SwapInterval` | scripts/official_bench/baseline.py:1058-1072 | where the interval of the swapped comparison is read |
| `PairedStatsLaws.SwapMirrorsIff` | scripts/official_bench/baseline.py:1058-1072 | swapping mirrors the interval for every comparison and every draw exactly when 40 does not divide the number of rounds |
| `PairedStatsLaws.SwapCanShift` | scripts/official_bench/baseline.py:1058-1072 | for every number of rounds that 40 divides, a comparison whose interval is not mirrored |
| `PairedStatsLaws.DefaultRoundsShift` | scripts/official_bench/baseline.py:1002 | the default number of rounds is one of these, for the interval and for the verdict |
| `PairedStatsLaws.MirroredVerdict` | scripts/official_bench/baseline.py:1112-1120 | where the interval is mirrored the verdict flips exactly when the mean is not 0 or the verdict is neutral |
| `PairedStatsLaws.SwapVerdictIff` | scripts/official_bench/baseline.py:1112-1120 | the verdict flips for every comparison with a mean other than 0 and every draw exactly when 40 does not divide the rounds |
| `PairedStatsLaws.VerdictCanShift` | scripts/official_bench/baseline.py:1112-1120 | for every number of rounds that 40 divides, a comparison that is positive one way round and undecided the other |
| `PairedStatsLaws.ZeroMeanStaysNegative` | scripts/official_bench/baseline.py:1112-1120 | a comparison that is called negative both ways round |
| `PairedStatsLaws.IntervalBounds` | scripts/official_bench/baseline.py:1058-1072 | for every draw the interval is ordered and within the bounds of the differences |
| `PairedStatsLaws.OneSidedVerdict` | scripts/official_bench/baseline.py:1112-1120 | with five or more pairs, one-sided differences decide the verdict whatever is drawn |
| `AnswerScorer.F1FromTokens` | scripts/official_bench/context_run.py:110-128 | F1 of two token bags |
| `AnswerScorer.CountCommon` | scripts/official_bench/context_run.py:116-123 | the consuming loop computes the size of the multiset intersection |
| `AnswerScorer.F1Laws` | scripts/official_bench/context_run.py:110-128 | F1 is 2c / (m + n), lies in [0, 1], and is 1 exactly for equal bags |
| `AnswerScorer.F1Symmetric` | scripts/official_bench/context_run.py:110-128 | F1 is symmetric and does not see token order |
| `AnswerScorer.BestF1Exact` | scripts/official_bench/context_run.py:178-191 | the best F1 is attained by a gold answer and exceeded by none |
| `AnswerScorer.ExactMatchHasFullF1` | scripts/official_bench/context_run.py:148-191 | both scores lie in [0, 1]; under the default scorer an exact match has F1 1 |
| `AnswerScorer.FullF1Iff` | scripts/official_bench/context_run.py:168-191 | in every branch the best F1 is 1 exactly when some gold answer has the token bag of the prediction |
| `AnswerScorer.ExactMatchHasFullF1Iff` | scripts/official_bench/context_run.py:148-191 | for both scorers: an exact match has F1 1 exactly when no gold answer matches or some has the token bag of the prediction |
| `AnswerScorer.MoreGolds` | scripts/official_bench/context_run.py:148-191 | within a language branch another gold answer lowers neither score |
| `AnswerScorer.BranchChangesIff` | scripts/official_bench/context_run.py:183-187 | another gold answer changes the branch exactly when it is the first with CJK text, without a given language |
| `AnswerScorer.CjkGoldCanLower` | scripts/official_bench/context_run.py:183-191 | a gold answer that switches the branch can lower exact match |
| `AnswerScorer.OldExactMatchWithoutF1` | scripts/official_bench/context_run.py:171-179 | the old scorer can match exactly with F1 0 |
| `AnswerMeaning.BranchExact` | scripts/official_bench/context_run.py:181-182 | answers are scored as Chinese when that is the language, or none is given and a gold answer has CJK text |
| `AnswerMeaning.ExactMatchExact` | scripts/official_bench/context_run.py:168-191 | when an answer matches exactly, for each scorer and language |
| `AnswerMeaning.ChineseF1` | scripts/official_bench/context_run.py:135-141 | the F1 of Chinese answers is twice the shared characters over all characters |
| `StreamLines.StreamHarness` | scripts/official_bench/swe_run.py:871-901 | for every chunking the callback gets the non-blank stripped pieces of the whole stream |
| `StreamLines.CutLines` | scripts/official_bench/swe_run.py:881-898 | the inner loop keeps what is delivered and leaves a buffer without cuts |
| `StreamLines.PiecesExact` | scripts/official_bench/swe_run.py:881-898 | the pieces are free of cuts and rejoin to the stream |
| `StreamLines.FeedLines` | scripts/official_bench/swe_images.py:611-619 | cutting after replacing returns gives the same lines |
| `DockerPull.DockerPullProgress.FeedLayer` | scripts/official_bench/swe_images.py:625-653 | one layer line updates status and byte counts and reports a change |
| `DockerLines.LayerLineExact` | scripts/official_bench/swe_images.py:537-540 | a layer line is 8 to 64 hexadecimal digits, a colon, and text that is not blank |
| `DockerLines.StatusExact` | scripts/official_bench/swe_images.py:629-631 | the status is the text before the progress bar, stripped of white space and colons, in lower case |
| `DockerLines.ProgressRead` | scripts/official_bench/swe_images.py:632-644 | a progress bar gives the bytes done and the bytes in all, of the download or of the extraction |
| `DockerLines.CompletionRead` | scripts/official_bench/swe_images.py:645-654 | a completion message fills up the bytes done, and only a completed pull those extracted |
| `DockerLines.NoChangeKeeps` | scripts/official_bench/swe_images.py:653-654 | a line that counts as no change changes nothing but the last line, in every reachable state |
| `DockerPull.DockerPullProgress.Feed` | scripts/official_bench/swe_images.py:611-623 | feeding a text folds its lines into the state |
| `DockerPull.Pull` | scripts/official_bench/swe_images.py:799-826 | for every chunking the tracker ends in the state that the lines of the whole stream give |
| `DockerPull.SameStreamSameState` | scripts/official_bench/swe_images.py:799-826 | two chunkings of the same stream end in equal tracker states |
| `DockerPull.RunKeeps` | scripts/official_bench/swe_images.py:625-653 | byte counts stay paired and finished layers have all their bytes, in every reachable state |
| `DockerPull.SnapshotCounts` | scripts/official_bench/swe_images.py:689-713 | done <= downloaded <= all layers; when all are done, all known bytes are downloaded |
| `DockerLines.SnapshotExact` | scripts/official_bench/swe_images.py:694-706 | which layers a snapshot counts as done and as downloaded |
| `ImportClosure.ImportedAppFiles` | scripts/build_writing_core.py:95-119 | terminates on every tree; sees exactly the reachable modules and collects exactly what they bring in |
| `ImportClosure.AddInits` | scripts/build_writing_core.py:107-114 | adds exactly the existing safe package files on the way up to `app` |
| `ImportClosure.ChainInside` | scripts/build_writing_core.py:95-119 | every closed set contains every module reached by a chain of imports |
| `ImportClosure.SkipTestOnText` | scripts/build_writing_core.py:48-49 | the test on dotted text is the test on components |
| `ModuleNames.SkippedOnText` | scripts/build_writing_core.py:23-49 | a module is skipped when its dotted name is one of the fifteen or starts with one and a dot |
| `ModuleNames.AppOnText` | scripts/build_writing_core.py:101-117 | only names that start with `app.` are followed |
| `ModuleNames.StartsOnText` | scripts/build_writing_core.py:40-45 | the four modules to start with |
| `ModuleNames.ResolveOnText` | scripts/build_writing_core.py:52-57 | the file of a module is its name with slashes and `.py`, else the `__init__.py` of its directory |
| `ModuleNames.PackageFilesExact` | scripts/build_writing_core.py:71-114 | a module brings in its own file and the existing `__init__.py` files on the way up that import nothing skipped |
| `ImportClosure.SkippedInherited` | scripts/build_writing_core.py:48-49 | skipping is inherited by everything inside a package |
| `ImportClosure.NothingSkipped` | scripts/build_writing_core.py:95-119 | no collected file belongs to a skipped package, and added package files are safe |
| `ParallelMap.MapQueries` | scripts/official_bench/parallel.py:40-84 | the collected map and the reports, for any completion order |
| `ParallelMap.MapQueriesProcess` | scripts/official_bench/parallel.py:87-134 | the same for the process pool |
| `ParallelMap.OrderIrrelevantIff` | scripts/official_bench/parallel.py:72-84 | every order gives the sequential map exactly when equal ids have equal results |
| `ParallelMap.OrderCanMatter` | scripts/official_bench/parallel.py:72-84 | two items with one id, where the completion order decides the map |
| `ParallelMap.DistinctIdsAgree` | scripts/official_bench/parallel.py:72-84 | pairwise distinct ids are such a case |
| `ParallelMap.EveryItemMapped` | scripts/official_bench/parallel.py:72-84 | for distinct ids and any completion order, every id gets the result of its own item |
| `ParallelMap.CollectedIsResults` | scripts/official_bench/parallel.py:72-84 | the map then holds exactly the results |
| `ParallelMap.ProgressLaws` | scripts/official_bench/parallel.py:116-133 | counts rise, percentages lie ten apart before the last report (n, n, 100), at most eleven reports |
| `ParallelMap.ReportedExact` | scripts/official_bench/parallel.py:116-133 | a completion is reported exactly when it is the last, or at nine percent or more and ten points above every report before |
| `EventResume.StreamUntilEvent` | scripts/eval_run.py:554-593 | records up to and including the first event of a stopping kind |
| `EventResume.CollectOnce` | scripts/eval_run.py:460-488 | the same for a resumed connection |
| `EventResume.TakeUntilExact` | scripts/eval_run.py:554-593 | nothing is recorded behind a stopping event, and everything before it is |
| `EventOnce.LiveOrDurable` | scripts/eval_run.py:928-937 | every event is live or carries one number, on the raw field |
| `EventOnce.CursorExact` | scripts/eval_run.py:940-942 | the cursor is the largest number that a record carries, and 0 when none does |
| `EventOnce.LiveChangesNothing` | scripts/eval_run.py:928-942 | live events change neither the recorded numbers nor the cursor |
| `EventResume.CaseRun.Merge` | scripts/eval_run.py:923-925 | both lists are extended in step |
| `EventResume.CaseRun.Resume` | scripts/eval_run.py:1057-1063 | a resume reads behind the largest recorded sequence and merges |
| `EventResume.CaseRun.Run` | scripts/eval_run.py:1049-1179 | any succession of resumes and failed connections |
| `EventResume.RunExact` | scripts/eval_run.py:554-625 | the recorded durable sequences are exactly a prefix of the server's log |
| `EventResume.RunIncreasing` | scripts/eval_run.py:619-624 | they are strictly increasing, so none is recorded twice |
| `EventOnce.RunOnce` | scripts/eval_run.py:554-625 | on the raw fields: the recorded numbers are a prefix of the log, and no two records carry the same number |
| `EventOnce.BehindExact` | scripts/eval_run.py:469 | what is behind a sequence number are the larger numbers of the log |
| `EventOnce.ServesMeans` | scripts/eval_run.py:554-625 | the server's contract on the raw fields is the contract of the runs |
| `EventResume.RunCompletes` | scripts/eval_run.py:1049-1063 | a full last connection completes the log |
| `EventResume.CollectWithReconnect` | scripts/eval_run.py:586-625 | for any server: times out exactly when the first stream ends without the event to reconnect after, and otherwise gives what the two checks say of the merged records |
| `EventOnce.ChecksExact` | scripts/eval_run.py:619-625 | on the raw fields: the checks fail exactly for two records with the same number, or else for a larger number before a smaller one |
| `EventResume.ChecksNeverFail` | scripts/eval_run.py:619-625 | under the server's contract they never fail |

## Left out

- Transport, subprocesses, databases, file reads and writes, publishing, HTML and Markdown reports, command lines: input and output only.
- Floating-point rounding: all arithmetic is exact; percentages are integer floors.
- Byte decoding: streams are characters, so a character split between two chunks of bytes does not arise.
- Unicode decimal digits in hunk headers: `\d` is ASCII here; lower-casing is a parameter.
- Negative `k` and `limit`, which Python would count from the end of a list.
- JSON values that are not strings among the arguments of an edit event, and hits that are not dictionaries.
- The download speed and clock of the pull tracker, and the board text of a snapshot.
- Tokenizers, answer normalizations, the document id of a path, the logarithm and the discount of nDCG are parameters with the properties used.
- Resolving relative imports: the names that a file imports are a parameter.
- Thread and process pools, time-outs and back-off: completions come in any order, failed connections are steps.
- Several turns in one case: sequence numbers of one turn only, because their meaning across turns is the server's.
- EditReplay.ReplayFiles: paths with a newline are excluded, because the reader's pattern then matches across the lines of the printed path.
- Bm25.BM25Index.Search: asks that no score divides by zero, where the original raises an error.
- PairedStats.PairedCaseDeltaReport: the ids come in any fixed order instead of sorted, and two or more pairs ask for a bootstrap round, because the original fails without one.
