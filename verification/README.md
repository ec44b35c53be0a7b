# HuntWarden evidence completeness: a verified model

This project models the parts of HuntWarden that decide what was seen on a host, whether all of it
was seen, and which conclusion stands. Its end-to-end result (`Assurance`) says what must have been
seen before an investigation is closed: every action that a run of the executor carried out for a
required obligation then awaited ended SUCCEEDED, by reusing an earlier clean run of the same
operation on the same arguments, or with every page complete in itself; and an enumerate action among
them carries exactly what was recorded for the matching rows of each page's own stretch of its source.
It also says exactly when something PARTIAL or UNKNOWN can still stand beside a clean close.

| part | modules |
|---|---|
| Conclusion ledger | `Ledger` (data and specification), `Graph`, `ProjectionAlgorithm` (the algorithm), `LedgerTheorems`, `LedgerExtension`, `LedgerMeaning` |
| Byte-exact matching | `Utf8`, `Matching` |
| Cursors | `Base64`, `Cursor` |
| Paged collection | `OffsetScan`, `ArrayScan`, `FileTree`, `WalkOrder`, `FileScan`, `LogScan`, `LogWindow`, `ProcessScan`, `PageMeaning`, `Enumerate`, `Protocol`, `Drain`, `Collection` (single replies), `CleanActions`, `SourceDrift`, `QuietActions`, `ProcessCollection` |
| Fact queries | `FactQuery`, `FactSnapshot`, `FactMeaning` |
| Actions and obligations | `Investigation`, `RunOrder`, `Executor`, `ExecutorTheorems`, `Merging` |
| Freezing | `Completion`, `CompletionTheorems`, `CompletionMeaning` |
| From a close back to the pages | `Assurance` |
| Quarantine | `Quarantine` |
| Model text budget | `Budget` |
| Shared | `Wrappers`, `Bytes`, `Ordering`, `Selection`, `TextOrder` |

Code that updates state in loops is modelled as methods with loops or as classes with fields, each
proved against a specification function; the theorems are lemmas about those functions. The modules
named `...Meaning` say what the specifications come to in terms of the records alone.
`dafny verify dfyconfig.toml` checks everything.

## Assumptions

- Ids of assessments, relations, actions, obligations and facts identify their records; the store's
  primary keys give this. New ids are new.
- `localeCompare` and the default sort are one total order on strings (`TextOrder`).
- SHA-256 and JSON are parameters: the writer never writes nothing, the reader understands what the
  writer wrote, and different requests have different digests.
- The copies of one log event fall on the same side of every cutoff of a walk, and the records stay
  the same during it; `LogWindow.StraddlingCopiesAreDifferent` shows what happens otherwise.
- Relations join recorded assessments, and an action depends only on actions recorded before it; the
  store checks both when a record is put.
- Replies stay under the helper's output cap.
- Clocks, deadlines, directory listings, process readings, predicate evaluation and tool results are
  inputs.

## Where the code falls short of its promise

- A change of an offset-paged source need not show in its generation: for files only the scope root is
  looked at, and for most other namespaces only the boot id (huntwarden_helper.py:2714-2754). A clean
  action can then lose a node that is in every listing (`SourceDrift.AShrinkingListingLosesANode`).
  What a clean action has in any case is `CleanActions.SucceededMeansJoined`, and exactly when that is
  the first listing is `CleanActions.ExactIffPagesAgree`.
- Each page of a log scan computes its own cutoff from its own clock, while its offset counts the
  events of the previous page's window. When a passed event expires in between, a clean walk can lose
  another event that is inside every window (`LogWindow.ExpiryLosesAnEvent`); exactly when that
  happens between two pages is `LogWindow.NothingLostBetweenIff`, and what it means for the walk
  `LogWindow.VisitedIffNeverLost`.
- A coverage run of UNKNOWN applicability, or a PARTIAL action on a required obligation that had been
  satisfied before, can stand beside a clean close (`Assurance.UnknownCoverageCanCloseClean`,
  `Assurance.PartialCanStandBesideACleanClose`); exactly when is `Assurance.UnknownRunClosesCleanIff`
  and `Assurance.ClosedIsWholeIff`.
- A search pattern that contains U+FFFD matches undecodable bytes (`Utf8.ReplacementMatchesTooMuch`);
  all other patterns are exact (`Utf8.SearchesAgreeIffNoReplacement`).
- The executor decides obligations by the list it claimed. An obligation that the store merges onto
  the action while it runs is left QUEUED with only finished contributors
  (`Merging.MergedAndForgotten`, exactly when:
  `Merging.MergedWhileRunningIsForgottenIff`), which the comment at
  src/storage/runtime-store.ts:988-990 sets out to avoid.
- An obligation that the store merges onto an action that is over takes that action's end for its own
  at once, without a look at its other contributors (src/storage/runtime-store.ts:998-1016). One that
  is still at work on it, or that fell short, then never counts (`Merging.MergedTooEarly`; exactly
  when: `Merging.MergedDecisionIsDeservedIff`). This is one way to the PARTIAL action beside a clean
  close above.
- The store does not refuse an action that names one obligation twice; deciding its obligations throws
  at the second update (`Merging.NamedTwiceFails`, exactly when:
  `Executor.InvestigationStore.ResolveObligations`). No caller in the repository issues such a list:
  each passes a single id, and merging removes repeats.
- One run of the executor need not block everything that waits for a failure
  (`ExecutorTheorems.AChainNeedsTwoPasses`, exactly when: `ExecutorTheorems.OnePassSettlesIff`); the
  cascade needs further runs (`ExecutorTheorems.EnoughPasses`).
- The helper can cost a foreign object its only link in three ways: a retry renames over what an
  earlier attempt moved into quarantine by mistake (`Quarantine.ASecondAttemptLosesAnObject`); a
  rollback renames over what came to the source path after it was seen free
  (`Quarantine.ARollbackLosesAnObject`); or a rollback renames over a symbolic link that does not
  resolve, for which the existence check, which follows links, answers that nothing is there
  (huntwarden_helper.py:2549, `Quarantine.ARollbackLosesALink`). That these are all is
  `Quarantine.HelperLosesIff`. The same check makes a receipt call the source missing while such a
  link stands there (huntwarden_helper.py:2561, `Quarantine.ALinkIsReportedMissing`; exactly when:
  `Quarantine.ReportedMissingIff`).
- The reduced envelope of `serializeToolResultForLlm` states its omission in its text, but the
  surrounding record reports `omitted: 0` and, if the envelope fits, `truncated: false`
  (`Budget.TheEnvelopeForgetsItsItem`; for exactly which results: `Budget.OmittedIsRightIff` and
  `Budget.TruncatedIsRightIff`).

## Model

| member | source | states |
|---|---|---|
| `Ledger.KeyIsInjective` | src/assessments/projection.ts:30-32 | The textual projection key determines category, scope and subject text, so a group never mixes two of them. |
| `Graph.ReachesByWorklist` | src/assessments/projection.ts:73-84 | The worklist test ends and answers true exactly when a path of replacement edges leads from start to target. |
| `Graph.GuardedEdgeKeepsAcyclic` | src/assessments/projection.ts:98-104 | Adding an edge whose target does not reach its source keeps any acyclic graph acyclic. |
| `Graph.SourceAbove` | src/assessments/projection.ts:116-119 | In a finite acyclic graph every node is reached from a node nothing points at. |
| `ProjectionAlgorithm.IgnoreRelation` | src/assessments/projection.ts:63-71 | An ignored relation is added once under the key of each known end and changes no other key. |
| `ProjectionAlgorithm.BuildReplacements` | src/assessments/projection.ts:86-106 | The loop over sorted relations yields exactly the targets of the accepted graph and, per key, the refused relations. |
| `ProjectionAlgorithm.GroupByKey` | src/assessments/projection.ts:108-114 | Groups hold exactly the assessments of their key, in arrival order; keys come in order of first appearance. |
| `ProjectionAlgorithm.ProjectEffectiveAssessments` | src/assessments/projection.ts:58-134 | The whole algorithm computes the specification `EffectiveProjections`, about which the ledger theorems speak. |
| `LedgerTheorems.ReplacementGraphIsAcyclic` | src/assessments/projection.ts:73-106 | No sequence of relations ever makes the replacement graph cyclic. |
| `LedgerTheorems.NobodyReplacesItself` | src/assessments/projection.ts:86-106 | No chain of accepted replacements, however long, comes back to where it began. |
| `LedgerTheorems.RefusedIffItWouldCloseACycle` | src/assessments/projection.ts:86-106 | A replacing relation is refused iff it fails a check of its own or its edge would close a cycle in the final graph: greedy acceptance is maximal. |
| `LedgerTheorems.IgnoredRelationsExplained` | src/assessments/projection.ts:93-101 | A group lists a relation as ignored iff it is replacing, touches the group, and fails a check or would close a cycle in the final graph. |
| `LedgerTheorems.SomeStandingAssessmentAnswers` | src/assessments/projection.ts:86-120 | Every assessment is reached by replacement edges from one that stands, in the same group, with at least its authority and no earlier time. |
| `LedgerTheorems.FallbackIsNeverTaken` | src/assessments/projection.ts:117-119 | Every non-empty group keeps a standing assessment, so the last-element fallback is dead code. |
| `LedgerTheorems.EffectiveAreThoseThatStand` | src/assessments/projection.ts:118-129 | The effective and superseded ids of a group are exactly its members that stand and that do not. |
| `LedgerTheorems.HumanConclusionsStand` | src/assessments/projection.ts:86-120 | A group that contains a HUMAN assessment has a HUMAN assessment in effect. |
| `LedgerTheorems.ConflictMeaning` | src/assessments/projection.ts:38-43 | A conflict is reported iff a risk and a clearance are both in effect. |
| `LedgerTheorems.ConflictNamesTheOpposed` | src/assessments/projection.ts:41-43 | A conflict names exactly the effective assessments that are not inconclusive. |
| `LedgerTheorems.ConclusionMeaning` | src/assessments/projection.ts:44-50 | Without a conflict the conclusion is CONFIRMED_MALICIOUS iff somebody in effect says so, HIGHLY_SUSPICIOUS iff somebody does and nobody says CONFIRMED_MALICIOUS, SUSPICIOUS iff somebody does and nobody says worse; the conclusion is somebody's verdict, INCONCLUSIVE means that all are, and BENIGN wins iff there is no risk and somebody says so, over any NO_OBSERVED_FINDING. |
| `LedgerTheorems.ArrivalOrderDoesNotMatter` | src/assessments/projection.ts:58-134 | Permuting assessments and relations gives the identical list of projections, field by field. |
| `LedgerMeaning.ConclusionTable` | src/assessments/projection.ts:38-51 | For each of the seven conclusions, exactly which verdicts in effect give it. |
| `LedgerMeaning.GroupConcludes` | src/assessments/projection.ts:115-134 | A group concludes exactly what its recorded assessments say that no relation replaces. |
| `LedgerMeaning.GraphIsItsRelations` | src/assessments/projection.ts:86-106 | A replacement is in effect iff a recorded ADJUDICATES or SUPERSEDES relation of the same task and epoch joins two different recorded assessments about the same subject, category and scope, later over earlier and made no earlier than the later one, with at least the other author's authority in the order RULE, MODEL, SYSTEM, HUMAN, and it closes no cycle. |
| `LedgerMeaning.SupersededMeansReplaced` | src/assessments/projection.ts:102-106 | An assessment is out of effect iff such a relation replaces it. |
| `LedgerMeaning.EarlierRelationsGoFirst` | src/assessments/projection.ts:86-106 | Of relations that would close a cycle together the later ones give way: a proper relation is accepted iff it closes no cycle with the accepted ones before it in time stamp and id. |
| `LedgerMeaning.IgnoredAreTheRefused` | src/assessments/projection.ts:63-71 | A group reports as ignored exactly the replacing relations, with a recorded end in the group, that do not take effect. |
| `LedgerMeaning.GroupIsListedInOrder` | src/assessments/projection.ts:115-130 | Standing and replaced members are each listed once, from the earliest to the latest, by time stamp and then id. |
| `LedgerMeaning.ProjectionsAreListedByKey` | src/assessments/projection.ts:115-134 | The projections come in strictly ascending order of their keys. |
| `LedgerMeaning.EachGroupHasItsProjection` | src/assessments/projection.ts:108-115 | There is a projection for exactly the keys of the recorded assessments. |
| `LedgerMeaning.ReportsAreSorted` | src/assessments/projection.ts:38-43 | Ignored relations and opposed assessments are listed in ascending order, the ignored ones once each, and only a conflict lists any opposed ones. |
| `LedgerMeaning.ProjectionNamesItsSubject` | src/assessments/projection.ts:121-126 | A projection names the subject of its members, unless they have none. |
| `LedgerMeaning.KeyReads` | src/assessments/projection.ts:30-32 | How a projection key reads, part by part. |
| `TextOrder.DictionaryOrder` | src/assessments/projection.ts:38-43 | The order on texts: a text comes no later than those it begins, and otherwise the first difference decides. |
| `Utf8.EncodingIsWellFormed` | host-helper/huntwarden_helper.py:4424-4455 | Encoding any scalar value gives a sequence allowed by the syntax in section 4 of RFC 3629, and decoding it gives the scalar back. |
| `Utf8.WellFormedIsAnEncoding` | host-helper/huntwarden_helper.py:4424-4455 | Every sequence the syntax allows is the encoding of exactly one scalar value: no overlong forms, no surrogates. |
| `Utf8.EncodesAsInTheStandard` | host-helper/huntwarden_helper.py:4424-4455 | The example encodings of section 7 of RFC 3629. |
| `Utf8.InvalidBytesAreReplaced` | host-helper/huntwarden_helper.py:4424-4455 | A stray tail, an overlong form and a surrogate read as U+FFFD, byte by byte. |
| `Utf8.DecodeUtf8WithOffsets` | host-helper/huntwarden_helper.py:4424-4455 | The scanner computes the specified text and offsets for every input, valid or not. |
| `Utf8.OffsetsTileTheInput` | host-helper/huntwarden_helper.py:4424-4455 | Offsets start at 0, strictly increase and end at the raw length; each tile is its character's exact encoding or one ill-formed byte shown as U+FFFD. |
| `Utf8.DecodeInvertsEncode` | host-helper/huntwarden_helper.py:4424-4455 | Decoding the encoding of any text gives the text. |
| `Utf8.EncodeInvertsDecodeIffValid` | host-helper/huntwarden_helper.py:4424-4455 | Re-encoding the decoded text gives the raw bytes iff they are valid UTF-8. |
| `Utf8.ByteOccurrencesAreAligned` | host-helper/huntwarden_helper.py:4398-4460 | Every byte occurrence of an encoded pattern falls on a decoder boundary (self-synchronisation). |
| `Utf8.CharacterSearchIsByteSearch` | host-helper/huntwarden_helper.py:4398-4460 | At every character, the pattern occurs in the text iff its encoding occurs in the bytes at that character's offset. |
| `Utf8.SearchesAgreeIffNoReplacement` | host-helper/huntwarden_helper.py:4398-4460 | Character search equals byte search on all inputs exactly for the patterns without U+FFFD. |
| `Utf8.ReplacementMatchesTooMuch` | host-helper/huntwarden_helper.py:4398-4460 | For each pattern with U+FFFD, an input on which the two searches differ. |
| `Matching.LiteralOffsets` | host-helper/huntwarden_helper.py:4398-4408 | The loop returns the first four hits, each search resuming after the previous hit. |
| `Matching.HitsAreOccurrences` | host-helper/huntwarden_helper.py:4398-4408 | Hits are occurrences in ascending order, no more than the limit; each search goes on behind the pattern, or one further if it is empty. |
| `Matching.HitsMissNone` | host-helper/huntwarden_helper.py:4398-4408 | Up to the last hit, and everywhere if there are fewer hits than the limit, each occurrence is a hit or begins inside one. |
| `Matching.FindCommutes` | host-helper/huntwarden_helper.py:4398-4460 | Finding the pattern in the text finds its encoding in the bytes, at the same place. |
| `Matching.ReportedOffsetsAreByteHits` | host-helper/huntwarden_helper.py:4398-4460 | Mapped back to bytes, the hits are exactly the hits of the pattern's UTF-8 bytes in the raw object. |
| `Matching.MatchedIffBytesPresent` | host-helper/huntwarden_helper.py:4424-4460 | The decoded text contains the pattern iff the raw bytes contain its encoding. |
| `Base64.PaddingRoundTrip` | host-helper/huntwarden_helper.py:2756-2762 | Stripping the padding of a token and restoring it by the length modulo 4 gives the padded token, for every body length. |
| `Base64.DecodeInvertsEncode` | host-helper/huntwarden_helper.py:2762-2776 | Decoding inverts encoding for every byte sequence (section 5 of RFC 4648). |
| `Base64.TokenRoundTrip` | host-helper/huntwarden_helper.py:2756-2776 | An unpadded token decodes, after re-padding, to the bytes it was made from. |
| `Base64.EncodesAsInTheStandard` | host-helper/huntwarden_helper.py:2762 | The example encodings of section 10 of RFC 4648, and the two digits of its URL-safe alphabet. |
| `Cursor.IssuedTokenDecodes` | host-helper/huntwarden_helper.py:2756-2776 | A cursor token opens to the very body and digest it was sealed with. |
| `Base64.TokenIsNotEmpty` | host-helper/huntwarden_helper.py:2756-2762 | The token of a non-empty body is not empty, so that no page hands out a cursor that counts as none. |
| `Cursor.IssuedCursorAcceptedIff` | host-helper/huntwarden_helper.py:2765-2787 | An issued cursor is accepted iff namespace, epoch and every parameter but the cursor agree, it has at most 4096 characters, the offset is at most 10,000,000 and the source is unchanged or drift is tolerated; then it restores offset and upper bound; SOURCE_CHANGED is answered exactly when only the source has changed and drift is not tolerated. |
| `Cursor.AcceptedCursorWasSealed` | host-helper/huntwarden_helper.py:2765-2787 | Whatever is accepted, read with the decoder's leniency towards foreign characters and padding, carries a matching digest, version, binding and namespace and an admissible offset, and starts at exactly that offset and upper bound. |
| `OffsetScan.WhereAPageStops` | host-helper/huntwarden_helper.py:3791-3813 | A page stops because the source ended, it is full or its visits are spent, and never on a non-matching node when full. |
| `OffsetScan.ScanEndIsUnique` | host-helper/huntwarden_helper.py:3791-3813 | Those reasons determine the stop: there is only one such page. |
| `PageMeaning.OffsetPageIsReadOff` | host-helper/huntwarden_helper.py:3791-3813 | A page starts at its offset, or at the end of a source that has become shorter, returns exactly the wanted rows of the nodes it visits, in order, and stops only at the end of the source, when it is full or after 5000 nodes. |
| `ArrayScan.EveryRowWanted` | host-helper/huntwarden_helper.py:3794-3799 | Without a predicate the plain slice is the page of the general scan. |
| `ArrayScan.Search` | host-helper/huntwarden_helper.py:3800-3813 | The predicate loop returns the matching rows of the nodes it visited and stops where the specification says. |
| `ArrayScan.PageOfRows` | host-helper/huntwarden_helper.py:3791-3813 | Both branches give an offset page, also for an offset beyond the end, and say whether rows remain. |
| `FileTree.KeepFolders` | host-helper/huntwarden_helper.py:3070-3081 | Going through the names of a directory keeps exactly the directories to go down into, in sorted order, and reports a skip iff one is left out. |
| `FileTree.ListingOrderDoesNotMatter` | host-helper/huntwarden_helper.py:3065-3082 | In whatever order the system lists the entries of a directory, the walk is the same, directory by directory and file by file, so that an offset counts the same files on every page. |
| `FileTree.WalkHoldsWhatItReaches` | host-helper/huntwarden_helper.py:3065-3082 | The walk holds exactly the files that lie at a path through directories it goes into, at most 12 deep and past no link or file system boundary; and it owns up to a skip iff at some such path a directory cannot be listed or one in it is left out. |
| `FileTree.WalkHoldsWhatPathsLeadTo` | host-helper/huntwarden_helper.py:3065-3082 | The walk from a root holds exactly the files at the end of a path of at most 12 listable directories, none of them a link or on another file system. |
| `FileTree.WalkOwnsUpToWhatIsLeftOut` | host-helper/huntwarden_helper.py:3070-3081 | The walk owns up to a skip iff at the end of such a path a directory cannot be listed, or holds one that is a link, elsewhere, unknown or too deep. |
| `WalkOrder.WalkGoesInOrder` | host-helper/huntwarden_helper.py:3065-3084 | The walk visits exactly the directories at the end of a path of at most 12, each once, before those in it and by name; at each it records a skip iff something there is left out, and lists the files by name. |
| `FileScan.VisitDirectory` | host-helper/huntwarden_helper.py:3082-3104 | One directory of the walk keeps the page a prefix scan of the whole walk, skipping up to the start offset. |
| `FileScan.WalkDirectories` | host-helper/huntwarden_helper.py:3065-3104 | The walk ends full, out of visits with a file waiting, at the deadline, or exhausted, and reports which. |
| `FileScan.FileInventory` | host-helper/huntwarden_helper.py:3050-3105 | Rows, counts, next offset and completeness are those of an offset page of the walk up to the deadline; the page is partial whenever a visited file was unreadable or a finished walk had skipped or expired, and only for such a reason. |
| `PageMeaning.CompleteFilePageSawEverything` | host-helper/huntwarden_helper.py:3065-3105 | A file page calls itself complete only at the end of the walk and not full; if it is not partial either, nothing was skipped, cut off or unreadable. |
| `PageMeaning.FlawlessFilePageIsClean` | host-helper/huntwarden_helper.py:3065-3105 | A page of a walk without any flaw is never partial. |
| `LogScan.LogPageBuilder.Absorb` | host-helper/huntwarden_helper.py:2340-2376 | Absorbing one record keeps the page equal to the scan of the de-duplicated, windowed events absorbed so far. |
| `LogScan.AbsorbFiles` | host-helper/huntwarden_helper.py:2386-2407 | Log files are absorbed in order; a flaw is reported only if some file has one, and always if the page did not stop early. |
| `LogScan.LogEventInventory` | host-helper/huntwarden_helper.py:2321-2414 | A page is a slice of the logical event source; without flaws an exact offset page; partial only if a source is flawed, and always if a finished page met a flaw. |
| `PageMeaning.LogicalEventsAreFirstCopies` | host-helper/huntwarden_helper.py:2340-2350 | The logical event source is exactly the first copy of each event inside the window, in the order of the records. |
| `PageMeaning.AllRecordsMean` | host-helper/huntwarden_helper.py:2379-2405 | The records are those of the journal, which come first, and of every readable file. |
| `PageMeaning.FlawedMeans` | host-helper/huntwarden_helper.py:2379-2414 | The sources count as unflawed iff there is one, the journal left nothing out, and every file was reached in time, readable, read whole and parsed line by line. |
| `LogWindow.WindowUnchangedIffNothingExpired` | host-helper/huntwarden_helper.py:2328 | A later cutoff leaves the whole logical source unchanged iff no event of the earlier window has expired. |
| `LogWindow.PassedEventsStayIffUnexpired` | host-helper/huntwarden_helper.py:2340-2350 | The first events of the earlier window are the first of the later one iff none of them has expired, whatever became of the others. |
| `LogWindow.NothingLostBetweenIff` | host-helper/huntwarden_helper.py:2340-2350 | No event of the later window is left behind unseen at an offset iff none of the events passed before has expired, or all that is left had been passed. |
| `LogWindow.NothingLostAfterIff` | host-helper/huntwarden_helper.py:2321-2414 | The same between any two pages of a walk. |
| `LogWindow.VisitedIffNeverLost` | host-helper/huntwarden_helper.py:2321-2414 | An event that stays in every window of a clean, finished walk is visited by some page iff it is lost between none. |
| `LogWindow.SafeWalksVisitEverything` | host-helper/huntwarden_helper.py:2321-2414 | A clean walk in which, between all pages, no passed event has expired or nothing is left visits every event that stays in every window. |
| `LogWindow.VisitedMeansReturned` | host-helper/huntwarden_helper.py:2354-2376 | A visited event that matches is among the rows of the page that visits it. |
| `LogWindow.ExpiryLosesAnEvent` | host-helper/huntwarden_helper.py:2321-2414 | A concrete walk of three clean pages, each exact for its own window, that never returns an event which was inside every window. |
| `LogWindow.ExpiryFurtherOnIsHarmless` | host-helper/huntwarden_helper.py:2328 | Two windows that differ although nothing is lost between them. |
| `LogWindow.StraddlingCopiesAreDifferent` | host-helper/huntwarden_helper.py:2095-2103 | An input on which copies of one event fall on both sides of a cutoff, and the condition above does not apply. |
| `ProcessScan.EntriesMeaning` | host-helper/huntwarden_helper.py:1625-1629 | A page's entries are exactly the listed PIDs above the start and up to the bound, strictly ascending. |
| `ProcessScan.ProcessInventory` | host-helper/huntwarden_helper.py:1608-1662 | The loop computes the specified keyset page: bound, rows, last visited PID, completeness, and partial iff a visited process failed to read or the deadline cut the page. |
| `ProcessScan.PageSweepsItsRange` | host-helper/huntwarden_helper.py:1608-1662 | A page returns exactly the readable matching processes between its start and its last visited PID, ascending. |
| `ProcessScan.ProcessPageOwnsUp` | host-helper/huntwarden_helper.py:1630-1662 | A page is complete iff nobody in its range is left, and partial iff reading a visited process failed or time ran out. |
| `ProcessScan.ReturnedPidsAscend` | host-helper/huntwarden_helper.py:1608-1662 | Over a whole walk, with any processes starting and ending between pages, returned PIDs strictly increase and stay within the first page's bound. |
| `ProcessScan.NoProcessIsLost` | host-helper/huntwarden_helper.py:1608-1662 | A PID present in all listings of a finished walk is passed by one page, and returned there iff readable and matching then. |
| `ProcessScan.SteadyProcessesAreReturnedOnce` | host-helper/huntwarden_helper.py:1608-1662 | A process listed, readable and matching throughout is returned exactly once. |
| `ProcessScan.VisitingPagesMakeProgress` | host-helper/huntwarden_helper.py:1630-1656 | Every visiting page lowers the distance to the bound, and an unfinished page visits somebody unless the deadline had already passed. |
| `Enumerate.SortRows` | host-helper/huntwarden_helper.py:3776-3790 | Sorting by identity and then stably by each key from last to first is one sort by the lexicographic order of all keys, ascending or descending, rows without a value last (first when descending), with identity as the last tie-break; absent and null fields read as the empty text and as None. Of any two rows the first deciding key, field by field, allows their order. |
| `Ordering.StablePassesCompose` | host-helper/huntwarden_helper.py:3776-3790 | A stable sort by a major order after a sort by a minor one is one sort by both, lexicographically. |
| `Enumerate.RepliesParse` | src/protocol-v2/wire.ts:25-34 | Every assembled offset or keyset page meets the scan, cursor and gap agreement checks of the wire parser. |
| `Protocol.WhatIsAccepted` | src/protocol-v2/wire.ts:11-36 | A reply is refused iff it is an error or contradicts itself: PARTIAL without a gap, a returned count that is not that of its objects, a completeness that does not fit its cursor, or counts and bounds out of range; otherwise its page goes on unchanged. |
| `Enumerate.ReplyMeans` | host-helper/huntwarden_helper.py:3814-3838 | A reply holds the rows of its page, names CollectorError, NodeLimit and SourceChanged iff they apply, has a cursor iff the page is not complete, one that opens to where the page stopped, and reports how far it came; a changed source without a row is an error. |
| `Enumerate.CleanPageIff` | src/protocol-v2/completeness.ts:8-17 | The executor sees a page as complete in itself iff nothing was skipped and the source did not move; NODE_LIMIT alone never counts against it. |
| `Drain.DrainPages` | src/investigation/action-executor.ts:46-90 | The page loop comes to the specified end, and to the cursor it leaves unread, whose checkpoint is marked as limited: first-page failures fail the action, later ones and the 100-page limit make it partial, an empty cursor ends it. |
| `Drain.FinishesIff` | src/investigation/action-executor.ts:60-90 | An action finishes iff it has read pages, each handing over to the next, up to one without a further page, the hundredth, or one followed by a page that throws; then it has all their rows, those of incomplete pages included, and is PARTIAL iff one of them fell short or there was more to read. |
| `Drain.LeftUnreadMeans` | src/investigation/action-executor.ts:68-82 | The cursor left unread is the one the last page read hands over to. |
| `Drain.PartialIff` | src/investigation/action-executor.ts:60-83 | An action that finishes is PARTIAL iff some page it read was incomplete in itself or a cursor was left unread. |
| `Drain.CleanIff` | src/investigation/action-executor.ts:60-83 | An action drains clean iff there is a trace of at most 100 pages along the cursors, each complete in itself and the last without a cursor; its rows are those of the trace. |
| `Drain.PartialSticks` | src/investigation/action-executor.ts:64-72 | Once a page was incomplete the action cannot end SUCCEEDED. |
| `Collection.EnumerateListing` | host-helper/huntwarden_helper.py:3661-3838 | The reply of a materialised namespace is a page of its sorted rows, and passes the wire checks. |
| `Collection.EnumerateFiles` | host-helper/huntwarden_helper.py:3729-3734 | The reply of the file namespace is a page of the walk, and passes the wire checks; a clean page is a page of the whole walk. |
| `Collection.EnumerateLogEvents` | host-helper/huntwarden_helper.py:3761-3763 | The reply of the log namespace is a page of the logical events, and passes the wire checks. |
| `Collection.IssuedCursorRestores` | host-helper/huntwarden_helper.py:2765-2787 | The cursor of a page, sent back with the same request, is accepted unless it is too long, too far or the source moved where that is not tolerated, and resumes where the page stopped. |
| `CleanActions.SucceededMeansJoined` | src/investigation/action-executor.ts:46-90 | With nothing assumed about the host, an enumerate action that ends SUCCEEDED collected the matching rows of each page's stretch of its own listing, along the issued offsets, all in one source generation. |
| `CleanActions.SucceededMeansRecorded` | src/investigation/action-executor.ts:46-90 | The same for whatever is recorded of each page: the references of such an action are, page after page, those recorded for the matching rows of the page's own stretch. |
| `CleanActions.ExactIffPagesAgree` | src/investigation/action-executor.ts:46-90 | Such an action is exact for its first listing under every predicate iff, page after page, its stretch yields the rows of that listing which come next and the last page reaches the last of them; where every node yields a row, iff each stretch is also the first listing's and the walk ends where that ends. |
| `CleanActions.OnePageIsExact` | src/investigation/action-executor.ts:46-90 | An action of one page is exact for what that page saw, without any premise. |
| `CleanActions.SucceededMeansExact` | src/investigation/action-executor.ts:46-90 | Where every change of the source shows in its generation, an enumerate action that ends SUCCEEDED collected exactly the filtered source its first page saw, in order. |
| `SourceDrift.AShrinkingListingLosesANode` | host-helper/huntwarden_helper.py:2714-2754 | One generation, a listing that shrinks after the first page: the action ends SUCCEEDED without a node that every listing contains. |
| `QuietActions.PagesRefineOneScan` | host-helper/huntwarden_helper.py:3791-3813 | Pages along the cursors concatenate to the filter of the source, and their scanned counts add up to its number of nodes. |
| `QuietActions.FilePagesMove` | host-helper/huntwarden_helper.py:3050-3105 | A clean, unfinished page of the file walk has visited a node. |
| `QuietActions.LogPagesMove` | host-helper/huntwarden_helper.py:2321-2414 | A clean, unfinished page of the log scan has visited an event. |
| `QuietActions.QuietActionEnds` | src/investigation/action-executor.ts:46-90 | Over a quiet source the action ends SUCCEEDED with the whole filtered source, or PARTIAL iff it needs more than 100 pages or an issued cursor is longer than 4096 characters or stands beyond 10,000,000. |
| `QuietActions.ListingPagesAreSteady` | host-helper/huntwarden_helper.py:3791-3813 | The pages of a materialised listing are steady: exact, clean and, until complete, moving. |
| `QuietActions.WalkPagesAreSteady` | host-helper/huntwarden_helper.py:3050-3105 | So are the pages of a file walk in which nothing is skipped, unreadable or cut off. |
| `QuietActions.EventsPagesAreSteady` | host-helper/huntwarden_helper.py:2321-2414 | So are the pages of a log scan over unflawed sources. |
| `QuietActions.QuietListingEnds` | src/investigation/action-executor.ts:46-90 | Over an unchanged listing, the replies of `EnumerateListing` drain to the whole filtered listing, or PARTIAL iff 100 pages do not suffice or a cursor is not taken back. |
| `QuietActions.QuietWalkEnds` | src/investigation/action-executor.ts:46-90 | Over an unchanged flawless walk, the replies of `EnumerateFiles` drain to all its matching files, or PARTIAL iff 100 pages do not suffice or a cursor is not taken back. |
| `QuietActions.QuietEventsEnds` | src/investigation/action-executor.ts:46-90 | Over an unchanged window of unflawed sources, the replies of `EnumerateLogEvents` drain to all its matching events, or PARTIAL iff 100 pages do not suffice or a cursor is not taken back. |
| `QuietActions.QuietRepliesAreReplies` | host-helper/huntwarden_helper.py:3814-3838 | The replies of a quiet host are among those the exactness result speaks of. |
| `ProcessCollection.EnumerateProcesses` | host-helper/huntwarden_helper.py:3690-3699 | The reply of the process namespace is a keyset page under the bound the cursor carries; a bound out of range is refused. |
| `ProcessCollection.KeysetRepliesParse` | src/protocol-v2/wire.ts:25-34 | Keyset replies pass the wire checks on every page of a walk. |
| `ProcessCollection.SucceededProcessActionIsItsPages` | src/investigation/action-executor.ts:46-90 | A process action that ends SUCCEEDED returned, in strictly ascending PID order, exactly the rows that the page passing each process found listed, read and wanted. |
| `ProcessCollection.UnchangedTableIsCollected` | src/investigation/action-executor.ts:46-90 | Over an unchanged process table it returned exactly the readable matching processes of that table. |
| `ProcessCollection.UndisturbedProcessActionEnds` | src/investigation/action-executor.ts:46-90 | With time on every page and no read failing, while processes come and go, a process action ends SUCCEEDED with what its walk returned, or PARTIAL, and then only after 100 pages or at a cursor longer than 4096 characters. |
| `ProcessCollection.SucceededProcessActionLosesNobody` | src/investigation/action-executor.ts:46-90 | A process action that ends SUCCEEDED returned every process that was there, readable and matching throughout, exactly once and in PID order. |
| `FactQuery.FactOrderIsTotal` | src/facts/query.ts:169-176 | For every list of order keys the comparison, with the sequence number last, is a total order. |
| `FactQuery.RunFactQuery` | src/facts/query.ts:85-127 | The staged filters, the sort and both cursor modes compute the specified page or error. |
| `FactMeaning.AnswerContains` | src/facts/query.ts:98-104 | A fact is in the answer, as often as it was given, iff it has the task and epoch, lies at or below the snapshot, equals every filter that is given and not empty, and satisfies the predicate. |
| `FactMeaning.AnswerIsInOrder` | src/facts/query.ts:105-113 | Of two facts in an answer the first order key by which they differ puts the smaller first, or the larger if it descends; where none does, the sequence number decides. |
| `FactMeaning.RefusedIff` | src/facts/query.ts:66-97 | Exactly which queries are inadmissible, and which cursors are foreign. |
| `FactMeaning.RowsShowTheSelectedFields` | src/facts/query.ts:114-127 | Each row shows exactly the selected fields of its fact, and only the last page is not full. |
| `FactSnapshot.CandidatesAreTheRest` | src/facts/query.ts:98-113 | Wherever a cursor of either mode stands, what remains is exactly the rest of the first page's answer. |
| `FactSnapshot.QueryPagesAreSnapshotExact` | src/facts/query.ts:85-127 | For every order and any limit per page, with later facts added between pages, pages concatenate to a prefix of the one answer at the first snapshot, to all of it iff no cursor is left, in at most one page more than rows; and the rows shown are the selected fields of exactly those facts. |
| `FactSnapshot.BoundedFetchGivesTheSamePage` | src/storage/runtime-store.ts:1536-1559 | Fetching one fact more than a page holds gives the same page and cursor as fetching everything. |
| `Executor.InvestigationStore.ClaimNext` | src/storage/runtime-store.ts:1030-1055 | The first claimable action, in list order, is claimed; none only if none is claimable. |
| `Executor.InvestigationStore.ResolveObligations` | src/investigation/action-executor.ts:125-144 | Exactly the awaited obligations named by the ended action, with nobody else at work on them, are decided; it fails iff the action names one of them twice, and then what came before stays decided. |
| `Executor.InvestigationStore.RunClaimed` | src/investigation/action-executor.ts:38-94 | One claimed action is run to its specified ending and its obligations are decided; nothing is forgotten. |
| `Executor.InvestigationStore.BlockWaiting` | src/investigation/action-executor.ts:97-105 | The pass blocks exactly the READY actions that the snapshot shows beside a failed dependency, and forgets nobody. |
| `Executor.InvestigationStore.RunUntilIdle` | src/investigation/action-executor.ts:31-107 | Over every uninterrupted run: no awaited obligation is left with only finished contributors, the board only develops, each READY action ends the way its own operation ended, is blocked or is left alone; only authorised and eligible actions run, after everything they depend on has ended SUCCEEDED or PARTIAL; only actions with a FAILED, BLOCKED or CANCELLED dependency are blocked; the counters count exactly the actions that ended so; below the allowance nothing is left that could run; an abort is honoured before the next claim. |
| `Executor.EndForgetsNobodyIff` | src/investigation/action-executor.ts:125-144 | Ending an action forgets no obligation iff each awaited one it names is decided with it or served by another action. |
| `Executor.EndDevelops` | src/storage/runtime-store.ts:1057-1078 | Ending an action leaves every finished action and decided obligation as it is, and decides an obligation only by what became of all actions that name it. |
| `ExecutorTheorems.DecisionsAreDeserved` | src/investigation/action-executor.ts:130-141 | A decided obligation is SATISFIED iff every action naming it SUCCEEDED, and LIMITED iff one fell short. |
| `ExecutorTheorems.DecisionsCiteTheirContributors` | src/investigation/action-executor.ts:130-142 | A decided obligation cites every reference and error of its contributors once, and nothing else. |
| `ExecutorTheorems.SucceededIff` | src/investigation/action-executor.ts:38-94 | An action SUCCEEDED iff its operation is registered and an earlier clean run was reused or every page was complete in itself. |
| `ExecutorTheorems.EndingIsWhatWasRead` | src/investigation/action-executor.ts:46-94 | An action that is run afresh carries the references of all pages it read, those of incomplete pages included, each once in the order in which they first came; it is PARTIAL iff a page fell short or there was more to read, and FAILED iff it could not read its first page or its arguments did not fit. |
| `ExecutorTheorems.OtherwiseReused` | src/investigation/action-executor.ts:38-59 | An action of an unknown operation is FAILED; one that was run before ends as the earlier run did, with its references. |
| `ExecutorTheorems.IdleMeansDecided` | src/investigation/action-executor.ts:31-107 | When nothing can be claimed, runs or remains to be blocked, no action is waiting and every named obligation is decided. |
| `ExecutorTheorems.OnePassSettlesIff` | src/investigation/action-executor.ts:97-105 | One pass blocks everything that waits for a failure iff no READY action it leaves alone depends on one it blocks. |
| `ExecutorTheorems.AChainNeedsTwoPasses` | src/investigation/action-executor.ts:97-105 | A chain of three actions whose last one is still READY beside a blocked dependency after one pass, and blocked after two. |
| `ExecutorTheorems.EnoughPasses` | src/investigation/action-executor.ts:97-105 | As many passes as there are READY actions block the whole cascade. |
| `Merging.MergedWhileRunningIsForgottenIff` | src/storage/runtime-store.ts:988-1022 | An obligation merged onto an action while it runs is forgotten iff it is awaited and nobody else serves it. |
| `Merging.MergedAndForgotten` | src/storage/runtime-store.ts:988-1022 | A board on which a merged obligation stays QUEUED with nobody left to serve it. |
| `Merging.MergedDecisionIsDeservedIff` | src/storage/runtime-store.ts:998-1016 | Merging onto a finished action decides an awaited obligation; as it deserves iff nobody else is at work on it and, if the action SUCCEEDED, no other contributor fell short. |
| `Merging.MergedTakesTheEnd` | src/storage/runtime-store.ts:994-1016 | Each new obligation that was still open is decided by the end of the action, with its references and, unless it SUCCEEDED, its error; the action names the new obligations behind its own, and nothing else changes. |
| `Merging.MergingOntoFinishedForgetsNobody` | src/storage/runtime-store.ts:998-1016 | Merging onto a finished action leaves no awaited obligation with only finished contributors. |
| `Merging.MergedTooEarly` | src/storage/runtime-store.ts:998-1016 | A board on which a merged obligation is SATISFIED while another action is still to serve it, and stays so when that one ends PARTIAL. |
| `Merging.NamedTwiceFails` | src/investigation/action-executor.ts:125-144 | An action that names one awaited obligation twice, for which the condition of `ResolveObligations` to fail holds. |
| `Completion.LimitedObligations` | src/investigation/completion-validator.ts:39-52 | The loop adds each unbacked evidence obligation once to the limited ones. |
| `Completion.InvestigationRecord.EvaluateNow` | src/investigation/completion-validator.ts:24-77 | The evaluation of the present records is the specified one. |
| `Completion.InvestigationRecord.MaterialiseConclusions` | src/investigation/completion-validator.ts:106-138 | Exactly the conclusions called for by coverage are appended. |
| `Completion.InvestigationRecord.Freeze` | src/investigation/completion-validator.ts:79-99 | A closable case gets a snapshot with every list of its evaluation, and its session has stopped with that status and points at the snapshot; any other is refused with its reasons. |
| `Completion.InvestigationRecord.FreezeWithLimits` | src/investigation/completion-validator.ts:140-159 | An already frozen session returns its snapshot untouched; otherwise READY actions are blocked, awaited obligations limited, and the case frozen. |
| `LedgerExtension.SelectionUntouched` | src/assessments/projection.ts:108-134 | Assessments with new ids and new keys leave every selection of the other projections unchanged, contents and order. |
| `CompletionTheorems.ProjectionsAfter` | src/investigation/completion-validator.ts:106-138 | Materialising keeps every projection; each new one says NO_OBSERVED_FINDING for a whole category. |
| `CompletionTheorems.FreezingHidesNothing` | src/investigation/completion-validator.ts:79-138 | Findings, conflicts, risks, limited and open obligations, running actions and closability are read as before. |
| `CompletionTheorems.LimitedMeans` | src/investigation/completion-validator.ts:39-52 | An id is limited iff it names a required LIMITED or CANCELLED obligation or a required evidence obligation without valid evidence. |
| `CompletionTheorems.StatusMeans` | src/investigation/completion-validator.ts:62-69 | The same through the conditions of the code: OPEN iff it may not close, LIMITED when it fell short, and CLOSED_WITH_FINDINGS iff it may close, did not fall short and some group concludes on a risk. |
| `CompletionMeaning.StatusIsReadOff` | src/investigation/completion-validator.ts:62-76 | The status of every case, read off its records: OPEN until every action, required obligation and checkpoint is over and something was obliged; then LIMITED iff a required obligation was given up or lacks evidence, a checkpoint is LIMITED or FAILED, a conflict is in effect or an action on a required obligation failed; then CLOSED_WITH_FINDINGS iff some group concludes on a risk; then CLOSED_NO_OBSERVED_FINDING iff all coverage is complete and each category that applies has its conclusion; and otherwise LIMITED. |
| `CompletionMeaning.ClosedMeansAllSeen` | src/investigation/completion-validator.ts:62-69 | A closed case has every discovery checkpoint finished without limit or failure, every required obligation SATISFIED and backed by evidence where it asks for it, no failed action on one, and no conflict. |
| `CompletionMeaning.BacksMeans` | src/investigation/completion-validator.ts:40-50 | What counts as evidence: complete, of this epoch, and about the subject of the obligation or joined to it by an observed or derived edge. |
| `CompletionMeaning.ListsAreReadOff` | src/investigation/completion-validator.ts:36-55 | Exactly which ids are listed as running, open, limited and finding. |
| `CompletionMeaning.ReasonsAreReadOff` | src/investigation/completion-validator.ts:57-75 | Exactly when each reason is given. |
| `CompletionMeaning.ConclusionsAreReadOff` | src/investigation/completion-validator.ts:106-138 | Exactly which conclusions are written down, and every field of each. |
| `CompletionMeaning.ConclusionsFollowCoverage` | src/investigation/completion-validator.ts:113-137 | They follow the order of the coverage runs. |
| `CompletionMeaning.LimitsAreReadOff` | src/investigation/completion-validator.ts:146-157 | Freezing with limits blocks exactly the READY actions and limits exactly the open obligations, for the given reason. |
| `CompletionTheorems.FindingsAreTheRisks` | src/investigation/completion-validator.ts:55 | The findings are empty iff no group concludes on a risk. |
| `CompletionTheorems.ClosesCleanIff` | src/investigation/completion-validator.ts:62-75 | Freezing ends clean iff nothing is amiss, all coverage is complete and each category has, or may be given, its conclusion. |
| `CompletionTheorems.StatusMovesOnlyToClean` | src/investigation/completion-validator.ts:62-138 | The only change of status is from LIMITED to CLOSED_NO_OBSERVED_FINDING, with all coverage complete and no risk or conflict in effect. |
| `CompletionTheorems.ConcludingTwiceAddsNothing` | src/investigation/completion-validator.ts:111-120 | Materialising again, with whatever new ids, adds nothing. |
| `CompletionTheorems.FailedFreezeChangesNothing` | src/investigation/completion-validator.ts:79-110 | A freeze that is refused has written no conclusion. |
| `CompletionTheorems.LimitsSufficeIff` | src/investigation/completion-validator.ts:140-159 | Freezing with limits succeeds iff nothing is running, no discovery is unfinished and something was obliged. |
| `CompletionTheorems.LimitsNeverClose` | src/investigation/completion-validator.ts:140-159 | With a required obligation unfinished, or one served by a READY action, the result is never a closed status. |
| `Assurance.ClosedMeansServersSucceeded` | src/investigation/completion-validator.ts:24-77 | If a required obligation was awaited and the board has since developed into a closed case, every action that serves it SUCCEEDED. |
| `Assurance.ClosedMeansSeenInFull` | src/investigation/action-executor.ts:31-107 | If a run of the executor leads to a closed case, every action it ran for a required awaited obligation was seen in full: an earlier clean run, or pages each complete in itself. |
| `Assurance.ClosedMeansCollected` | src/investigation/action-executor.ts:31-107 | An enumerate action among them, over a helper that may meet another host on every page, carries exactly the references recorded for the matching rows of each page's own stretch, all in one generation, each once. |
| `Assurance.ClosedIsWholeIff` | src/investigation/completion-validator.ts:62-69 | In a closed case all actions on required obligations SUCCEEDED iff no PARTIAL action names one that had been decided before. |
| `Assurance.PartialCanStandBesideACleanClose` | src/investigation/completion-validator.ts:106-110 | A case that closes clean beside a PARTIAL action on a required obligation satisfied before. |
| `Assurance.UnknownRunClosesCleanIff` | src/investigation/completion-validator.ts:70-72 | All else being in order, a coverage run of UNKNOWN applicability does not stand in the way of a clean close iff its category has, or may be given, its conclusion. |
| `Assurance.UnknownCoverageCanCloseClean` | src/investigation/completion-validator.ts:70-72 | A case that closes clean with a single coverage run, of UNKNOWN applicability. |
| `Quarantine.Host.BeginReceipt` | host-helper/huntwarden_helper.py:681-697 | A first request is recorded as STARTED; a later one gets the existing receipt iff its arguments are the recorded ones. |
| `Quarantine.Host.QuarantineFile` | host-helper/huntwarden_helper.py:2513-2562 | Run alone, the program is the state machine of its steps. It answers STALE_REF iff the approved file is not there; refuses a receipt for other arguments; repeats a SUCCEEDED receipt; ends FAILED with the file untouched if the content is not the approved one or the file systems differ; and otherwise moves and seals the file and says so. |
| `Quarantine.RunsComeToTheirOutcome` | host-helper/huntwarden_helper.py:2513-2562 | What a run left alone comes to, from every state and for every outcome of its two checks. |
| `Quarantine.MismatchComesTo` | host-helper/huntwarden_helper.py:2547-2552 | When the moved object is another one, a run left alone ends FAILED, with the object back at its path if that is free. |
| `Quarantine.SucceededWasChecked` | host-helper/huntwarden_helper.py:2532-2562 | Over every run, a SUCCEEDED receipt was preceded by one uninterrupted attempt at its request in which the digest came out right, then the file systems agreed, then the path still named the approved file. |
| `Quarantine.SucceededMeansApprovedIsSealed` | host-helper/huntwarden_helper.py:2513-2562 | Under any crashes, retries and swaps of the source, a SUCCEEDED receipt means that the quarantine path names the approved inode with mode 000. |
| `Quarantine.ReceiptsOnlyDevelop` | host-helper/huntwarden_helper.py:681-703 | Operation and arguments of a receipt never change, and SUCCEEDED is final. |
| `Quarantine.CrashesNeverLoseTheFile` | host-helper/huntwarden_helper.py:2538-2562 | With crashes and retries at any step the approved inode is linked at exactly one of the two paths. |
| `Quarantine.UndisturbedFinishes` | host-helper/huntwarden_helper.py:2513-2562 | From any step, a run left alone whose checks come out well seals the file and records SUCCEEDED. |
| `Quarantine.RetrySucceeds` | host-helper/huntwarden_helper.py:2513-2562 | While the file is at its path, a retry left alone carries the quarantine through, whatever the earlier attempt left. |
| `Quarantine.HelperLosesIff` | host-helper/huntwarden_helper.py:2546-2550 | Over every run from a fresh start, the helper unlinks an object iff its next step renames over it: either a second or later attempt renames over what an earlier one left in quarantine, or a rollback renames over an object that came to the source after it was seen free, or that is a link which does not resolve and was overlooked there. |
| `Quarantine.AFirstAttemptLosesNothing` | host-helper/huntwarden_helper.py:2546-2550 | A first attempt with no late arrival and no overlooked link at its rollback never costs any object its link. |
| `Quarantine.ASecondAttemptLosesAnObject` | host-helper/huntwarden_helper.py:2546 | A run with a swap, a crash and a retry that loses a foreign object. |
| `Quarantine.ARollbackLosesAnObject` | host-helper/huntwarden_helper.py:2549-2550 | A run with a swap during the rollback that loses a foreign object. |
| `Quarantine.ARollbackLosesALink` | host-helper/huntwarden_helper.py:2549-2550 | A first attempt, with nothing arriving late, whose rollback loses a link that does not resolve. |
| `Quarantine.ReportedMissingIff` | host-helper/huntwarden_helper.py:2561 | A receipt calls the source missing iff nothing is there, or a link that the check finds not to resolve. |
| `Quarantine.ALinkIsReportedMissing` | host-helper/huntwarden_helper.py:2561 | A run whose receipt calls the source missing although a link stands there. |
| `Budget.EncodeWithinBudget` | src/agent/data-sanitizer.ts:114-159 | Without assuming that sizes grow: the kept prefix fits and one more item does not, and the result is over budget iff neither the whole nor any prefix fits that the search looks at while it has found none. If sizes grow, it keeps the longest prefix that fits. At most two encodings beyond the search rounds. |
| `Budget.SearchPrefix` | src/agent/data-sanitizer.ts:132-144 | The binary search finds a prefix that fits below one that does not, iff one of its probes fits, within its rounds. |
| `Budget.RoundsAreLogarithmic` | src/agent/data-sanitizer.ts:132-144 | The search rounds are one more than the binary logarithm of the number of items. |
| `Budget.SerializeToolResult` | src/agent/data-sanitizer.ts:204-238 | What the model sees owns up to everything left out: partial status, omitted count, warning, and the page position it really ends at; the small envelope is used iff the result does not fit and none of its cuts fits that the search looks at, and then the record says omitted 0, truncated iff the envelope does not fit itself, and gives the envelope's size as the original one. |
| `Budget.ProbesAreHalvings` | src/agent/data-sanitizer.ts:132-144 | The prefixes the search looks at while it has found none that fits are one shorter than the repeated halvings of the length plus one; so which ones decide can be said without the search. |
| `Budget.OmittedIsRightIff` | src/agent/data-sanitizer.ts:204-238 | The record's omitted count is the number of items left out, unless the result is a non-empty list that does not fit and of which no cut to such a halving fits: exactly then it is wrong. |
| `Budget.TruncatedIsRightIff` | src/agent/data-sanitizer.ts:204-238 | The record's truncated flag says whether anything was changed, unless neither the result nor any cut of it to such a halving fits while the envelope does: exactly then it is wrong. |
| `Budget.GivesWayWhereCutsGrow` | src/agent/data-sanitizer.ts:204-238 | Where longer cuts are no smaller, a list gives way to the envelope iff it does not fit even without its items. |
| `Budget.TheEnvelopeForgetsItsItem` | src/agent/data-sanitizer.ts:227-238 | A list of one item for which the record reports nothing omitted and nothing truncated. |
| `Budget.NothingIsSkipped` | src/agent/data-sanitizer.ts:177-195 | Following the next offset of however cut pages reads every row once and in order. |

## Left out

- CleanActions.SucceededMeansExact: it holds for sources whose every change shows in the generation; the general result is `CleanActions.SucceededMeansJoined`.
- Collection.EnumerateFiles: the directory tree stands still while one page is made; between pages it may change. What `lstat` says of a directory and of a file is an input.
- Drain.DrainPages: it returns the cursor left unread; the update of the checkpoint under that cursor, and the reasons, are not modelled.
- ProcessCollection.EnumerateProcesses: a cursor without upper bound at an offset above 0 is accepted by the code but never issued; the wire result covers issued cursors.
- FactQuery.RunFactQuery: the text of a field of a fact, the fields a query may name and the form of predicates are parameters; ids and time stamps of queries and snapshots are not modelled.
- Executor.InvestigationStore.RunUntilIdle: nothing else touches the store during a run; attempts, events, discovery checkpoints and the wording of reasons are not modelled.
- Completion.InvestigationRecord.Freeze: the event sequence number, the ids and time stamps in the snapshot are not modelled; which obligation kinds ask for evidence is a flag.
- Quarantine.CrashesNeverLoseTheFile: with swaps of the source the approved inode may lose its link to whoever swaps it; the statement is about crashes and retries.
- Quarantine.RetrySucceeds: when the file has already been moved by a crashed run, the source can no longer be opened and a retry is refused before anything is written; the file stays in quarantine with a STARTED receipt.
- Quarantine.SucceededMeansApprovedIsSealed: the quarantine directory is private to the helper and one helper at a time works on an action.
- Budget.SerializeToolResult: redaction happens before and is not modelled; `sanitizeForLlm` is left out.
- `freezeCancelled`: the same steps as freezing with limits under another status.
- `runStaticQuery`: the remaining-keys cursor of `runFactQuery` over another record type.
- `relate` paging, RE2 and YARA matching, and hit context windows.
- `budgeted_output`: it cuts objects without touching the counts, so the wire parser refuses such a reply.
- Progress after a deadline that has passed before the first visit of a page.
- Transport, user interface, model providers, host collectors, redaction tables and predicate operators.
