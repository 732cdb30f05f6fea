# lw-manager: attribution, roster ingest, capture, navigation and scheduling, proved

A model in Dafny of the algorithms of lw-manager that turn screenshots of a mobile
game into facts about an alliance, and of the device automation that takes those
screenshots.

* **Weekly ranking** (`Ranking`, `Assign`, `Points`, `PointsText`, `Repair`, `Vs`,
  `VsResults`, `VsAccounts`, `Facts`): names are scored against the member list, rows
  are attributed by a two-phase greedy matching, and each row's points become a fact, a
  review item or nothing, depending on an order argument over the rows that read well.
* **Name scores** (`EditDistance`, `Names`, `NameScore`): the weighted edit distance
  and the best-of-four score built on it.
* **Roster** (`Segment`, `HeaderCards`, `GroupHeader`, `Roster`, `RosterLog`,
  `RosterRows`, `RosterIngest`, `RosterOwners`, `RosterHeaders`, `RosterAccounts`,
  `RosterResults`, `RosterGap`): scanline profiles become row bands, bands belong to
  group headers, and every band of every frame passes through dedupe, matching, the
  creation budget and the review queue. A run keeps the log of what it was handed and what became of it; its state is
  what that log replays to, and the frames alone say what it is handed.
* **Capture** (`ScrollOffset`, `ScrollCapture`, `RowCursor`): how far a list scrolled,
  when a capture may stop, and which rows of overlapping frames are new.
* **Navigation** (`Graph`, `Topology`, `Navigate`): shortest paths over the screen
  graph, and what the trace of a run on the device may contain.
* **Scheduling** (`Scheduler`, `Planning`, `TickLoop`): backoff, hashed offline
  windows, the plan of one tick, and waiting over many ticks.

Code that updates state in place is modelled by classes and methods with loops, each
tied by its contract to a specification; what the specification means is proved in
lemmas beside it. OCR text and confidences, recognition results, template matches,
device answers and the calls into the store are arbitrary inputs. Confidences are
`real`; integers are unbounded except where the 64-bit range decides an outcome
(`Points`, `PointsText`, `Repair`, `GroupHeader`). `dafny verify dfyconfig.toml`
verifies the whole project.

Where the code and its own comments disagree, the model follows the code, and the
exact condition under which the comment holds is a lemma:

* `internal/roster/assign.go:88-92` says the edit distance obeys the triangle
  inequality. `EditDistance.ChainExists` gives three characters for which it does not;
  `EditDistance.TriangleIffChainFree` says over which alphabets it does.
* `internal/ingest/roster.go:618-623` says parsed minus yielded equals the name-class
  review rows. `RosterResults.ReviewGap` gives the inequality over every run, and
  equality exactly when no photograph identified a row that an earlier one had queried.
  `RosterGap.ReviewGapCanOpen` opens it over two frames for every plain name of four to
  twelve letters that the first of them reads without its last letter; "lothar" is one
  (`RosterGap.LotharLosesItsLastLetter`: 83, then 100).
* `internal/ingest/roster.go:858-863` says a group advances only when the frame
  immediately before carried it. A frame whose badge matches nothing is skipped
  without forgetting the ranks before it, so the group advances by the last offset
  alone: `RosterResults.SkippedFramesLoseTravel` says when that is right, and
  `RosterResults.SkippedFrameLosesTravel` is a capture that loses 252 pixels of 552.
* `internal/ingest/parse.go:323-324` says that refusing N > M closes the under-counting
  half of the truncated headers. `GroupHeader.DetachedDigitIsRefusedIff` gives the exact
  condition, and `GroupHeader.UnderCountGetsThrough` a 1/11 that is believed to be 1.
* `internal/ingest/points.go:185-191` says that trimming a points read recovers what its
  digits were already spelling. When the artifact stands for the last digit, a number of
  two or three digits is read as a tenth of itself; `VsResults.LastDigitIsNeverRepaired`
  says that it happens to no longer one, and that none of them is ever repaired.
* `internal/tasks/scrollcapture.go:28-29` states the reachability of the overshoot with
  its inequality reversed; `ScrollOffset.OvershootReachableIff` has it the right way.
* `internal/ingest/parse.go:345-348` calls a conversion failure unreachable.
  `GroupHeader.LegibleHeaderParses` says that a line reaches it exactly when either count
  exceeds the 64-bit range, and `GroupHeader.OneOfTooManyIsNotConverted` gives the
  texts: 1/ and any twenty digits that do not start with a zero.

Waiting is bounded for pairs that have run before (`TickLoop.BoundedWaiting`). A pair
that never ran is due by 0 on every tick, so the bound does not extend to it:
`TickLoop.NeverRunPairStarves` is a run that never serves one, and
`TickLoop.NeverRunIsServedIff` says on which ticks one is served.

## Model

| member | source | states |
|---|---|---|
| Assign.Assign | internal/roster/assign.go:130-207 | the three loops over shared arrays reach exactly the outcome of two greedy passes with a duplicate pass between them |
| Assign.OutcomeIsUnique | internal/roster/assign.go:148-207 | margins, floors and index order decide every outcome: two runs over one matrix agree |
| Assign.OutcomeIsMatching | internal/roster/assign.go:130-207 | no member is given to two rows, and every placement clears its phase's floor with the score it reports |
| Assign.OutcomeIsStable | internal/roster/assign.go:148-186 | for any pair scoring 92 or more in a row without a tie there, the row got a member scoring at least as much for it or the member went to a row scoring at least as much |
| Assign.TiedRowIsRefused | internal/roster/assign.go:148-186 | without the tie condition stability fails: a row torn between two members is given neither |
| Assign.OutcomeMarksDuplicates | internal/roster/assign.go:188-203 | a row is marked a duplicate exactly when phase one left it and it scores 92 or more against a member phase one placed |
| Assign.ResidualIsNoResighting | internal/roster/assign.go:188-206 | a row placed by the residual phase never scores 92 against a member phase one placed |
| Assign.OutcomeLeavesNothing | internal/roster/assign.go:148-207 | no unassigned row still satisfies the residual rule over the members left free |
| Points.MonotonicKnown | internal/ingest/points.go:128-175 | the table and walk back keep a longest non-increasing set of seeds, the one whose last differing element ends first |
| Points.LongestIsUnique | internal/ingest/points.go:128-175 | there is only one such set |
| Points.PointsBounds | internal/ingest/points.go:63-83 | each window runs from the nearest known value below to the nearest known value above |
| Points.KeptIffInsideOwnWindow | internal/ingest/points.go:63-175 | a seed was kept exactly when it lies inside the window the kept ones give it: maximality makes the window check sound |
| Points.UnknownRowsCannotMoveAWindow | internal/ingest/points.go:63-175 | values at unknown rows change neither what is kept nor any window |
| Points.BadSeedsCostOnlyThemselves | internal/ingest/points.go:112-127 | if dropping some seeds would leave an ordered list, no more seeds than those are lost |
| PointsText.MatchesIffGrouped | internal/ingest/parse.go:67-67 | the points pattern accepts exactly the comma-grouped numbers |
| PointsText.ParseInvertsPrint | internal/ingest/parse.go:250-269 | parsing the printed form of any natural gives it back, or nothing beyond the 64-bit range |
| PointsText.PrintInvertsSpelling | internal/ingest/parse.go:250-269 | a grouped number without a leading zero is the printed form of its value |
| Repair.TrimKeepsAParse | internal/ingest/points.go:183-216 | cutting a trailing artifact never changes a text that already parsed |
| Repair.RepairPoints | internal/ingest/points.go:240-285 | a repair is returned exactly when one position is damaged and one digit there both parses and lies inside the window |
| Repair.RepairIsUnique | internal/ingest/points.go:240-285 | there is at most one repair, it lies in the window and in the 64-bit range |
| Repair.BrokenCommaIsRefused | internal/ingest/points.go:240-285 | when the damaged character was a comma of a well-formed number nothing is recovered |
| Repair.LostDigitIsRecovered | internal/ingest/points.go:240-285 | a lost digit is recovered whenever the true value is in the window and the window is narrower than that digit's place value |
| Vs.VsRun.IngestVS | internal/ingest/vs.go:632-777 | a run's counters, review queue and table are those of its rows' outcomes under one assignment, one kept set and one list of windows, followed by the inferred zeroes |
| Vs.VsRun.AttributeRow | internal/ingest/vs.go:979-1286 | one row ends as a fact, as a review item with its band, text, candidates, reason and confidence, or as a dropped duplicate, and counts once |
| VsResults.LostDigitReachesTheRow | internal/ingest/vs.go:1014-1136 | a row whose points lost any digit but the last is read as what it said, at its own confidence and as a repair, whenever its window is narrower than that digit's place value |
| VsResults.LastDigitIsNeverRepaired | internal/ingest/vs.go:1014-1136 | a damaged last digit is trimmed before the solver sees it, so no window ever repairs it: two or three digits are read as a tenth, and a longer number is left to the second reading |
| VsResults.ConfidentReadIsDecidedByOrder | internal/ingest/vs.go:651-707 | a confident, first-attempt, assigned read is written as read exactly when it was kept and held as out of order exactly when it was not |
| VsResults.WrittenInOrder | internal/ingest/vs.go:1137-1142 | every written value is in order with every kept seed above and below it |
| VsResults.PromotedFactsAreBracketed | internal/ingest/vs.go:1143-1268 | every row fact carries the lesser of its name's and its own reading's confidence, or was raised exactly to the gate, never for a repair, and only between two kept seeds no further apart than its value |
| VsResults.AttributedRowEndsAs | internal/ingest/vs.go:979-1286 | an attributed row is written exactly when it has a reading inside its window and either both its confidences reach the gate or the reading is no repair and its nearest kept seeds are positive, below the open end and no further apart than its value; the confidence is then the lesser, or the gate; otherwise it is held for the first of three reasons |
| VsResults.UnattributedRowEndsAs | internal/ingest/vs.go:979-1013 | a row given nobody is dropped exactly when it is a second sighting, and is otherwise an item with its text and its ranked candidates, ambiguous exactly when one of them scores 75 |
| VsResults.ItemsShowTheirRow | internal/ingest/vs.go:979-1286 | a review item shows its own row's screenshot, band and text, both readings when neither could be used, and a confidence exactly when that is what held it |
| VsResults.ReadingMeans | internal/ingest/vs.go:1014-1136 | a row reads as what its text says, else as its one repair, else as a second reading that fits the window, each with its own confidence, and is unreadable exactly when there is none |
| VsResults.WrittenRowHasFact | internal/ingest/vs.go:1263-1286 | every written row has its fact: its member, value, screenshot and confidence |
| VsAccounts.CountersCountRows | internal/ingest/vs.go:709-741 | matched counts the rows given a member, duplicates the second sightings, unidentified all others |
| VsAccounts.QueueListsItems | internal/ingest/vs.go:709-741 | the queue is the held and nameless rows' own items in row order, none left out and none added |
| VsAccounts.ZeroesAreExactly | internal/ingest/vs.go:744-777 | a fact is an inferred zero exactly when the capture is complete, has rows, leaves none nameless, and the fact says 0 at 0.90 of a member no row was given |
| VsAccounts.DoubtCostsOnlyItself | internal/ingest/vs.go:651-707 | whatever is read of the points of late, unsure, unparseable or unattributed rows, the same seeds are kept, every window stays, and every other row ends the same |
| VsAccounts.SeedsAreTheSureRows | internal/ingest/vs.go:651-707 | the rows that may define windows are exactly those given somebody whose points parsed at the first attempt at 0.80 or more |
| VsResults.AccountsBalance | internal/ingest/vs.go:709-756 | matched, duplicates and unidentified add up to the rows; row facts and review items add up to matched and unidentified |
| VsResults.NoMemberGetsTwoFacts | internal/ingest/vs.go:709-777 | no two facts of a run, rows and zeroes together, share a key |
| VsResults.EveryFactClearsTheGate | internal/ingest/vs.go:709-777 | every fact of a run has at least the confidence of the gate |
| VsResults.ZeroesCompleteTheRoster | internal/ingest/vs.go:744-777 | zeroes appear only on a complete capture with rows and nobody unidentified, and then every member has a row or a zero |
| VsResults.RunsAgree | internal/ingest/vs.go:632-777 | two runs over the same rows make the same assignments, keep the same seeds and reach the same outcomes |
| VsResults.IngestingTwiceChangesNothing | internal/ingest/vs.go:632-777 | ingesting a capture a second time leaves the table as the first time left it |
| Ranking.RankedIsTheStableOrder | internal/roster/match.go:161-174 | the candidate list is best first, and among equal scores in the members' own order |
| Ranking.RankedIsTheOnlyOrder | internal/roster/match.go:161-174 | no other list is both |
| Ranking.HeadIsFirstBest | internal/roster/match.go:161-174 | its head is the first member nobody outscores |
| Facts.ReplayChangesNothing | internal/db/analytics.go:513-539 | applying a run's upserts a second time leaves the table as it was |
| Facts.OnlyMoreConfidentReplaces | internal/db/analytics.go:513-539 | a stored fact survives any upserts until a strictly more confident one of its key |
| Facts.StoredIsTheMostConfident | internal/db/analytics.go:513-539 | the fact at a key is, whole, the first of the greatest confidence among the stored one and those upserted under it |
| Facts.KeysAreThoseKnown | internal/db/analytics.go:513-539 | the keys are those stored before and those upserted |
| EditDistance.Levenshtein | internal/roster/match.go:185-204 | the two swapped rows compute the recursive minimum-cost distance |
| EditDistance.DistIsLeast | internal/roster/match.go:185-204 | no edit script turning one string into the other costs less |
| EditDistance.DistIsAttained | internal/roster/match.go:185-204 | some edit script costs exactly that |
| EditDistance.Symmetric | internal/roster/confusable.go:57-105 | the distance is the same in both directions |
| EditDistance.ZeroIffEqual | internal/roster/match.go:185-204 | it is zero exactly between equal strings |
| EditDistance.LengthBounds | internal/roster/match.go:185-204 | it is at least the length difference and at most the longer length, in edits |
| EditDistance.WithinFactor | internal/roster/confusable.go:44-105 | it lies between 2 and 10 times the plain edit distance |
| EditDistance.PlainTriangle | internal/roster/match.go:185-204 | the plain distance obeys the triangle inequality |
| EditDistance.RelaxedTriangle | internal/roster/confusable.go:44-105 | the weighted one obeys it up to a factor of five |
| EditDistance.TriangleIffChainFree | internal/roster/assign.go:88-92 | over an alphabet it obeys it exactly when no two confusable pairs chain to one that is not |
| EditDistance.ChainExists | internal/roster/assign.go:88-92 | 8 to s to 5 is such a chain: 2 and 2 against 10 |
| EditDistance.Ratio | internal/roster/match.go:143-157 | the ratio is in 0..100 without its clamp, and 100 exactly for equal strings |
| NameScore.RatioAtLeastIff | internal/roster/match.go:143-157 | a ratio reaches a score exactly when some edit script costs no more than what the score leaves of the longer string |
| Names.Normalize | internal/roster/normalize.go:28-45 | the loop keeps a name's letters and digits, in order |
| Names.NormalizeTokens | internal/roster/normalize.go:133-158 | the loop and the final trim give the words joined by single spaces |
| Names.WordsAreFields | internal/roster/normalize.go:133-158 | those words are the fields of the name with every separator read as a space |
| Names.FieldsInvertJoin | internal/roster/match.go:64-66 | splitting a joined name gives its words back |
| Names.WholeNameIsItsWords | internal/roster/normalize.go:28-158 | the whole-name form is the words with their boundaries taken out |
| NameScore.StripDecoration | internal/roster/normalize.go:204-222 | what is left runs from the first ASCII character to the last, or is everything when there is none |
| NameScore.StrippedIsUnique | internal/roster/normalize.go:204-222 | there is one such string, never empty for a name that is not |
| NameScore.TokenSetRatio | internal/roster/match.go:58-124 | the guarded comparisons give the best of all four scores |
| NameScore.ScoreIsSymmetric | internal/roster/match.go:58-124 | the score does not depend on which name is the reading |
| NameScore.ScoreInRange | internal/roster/match.go:58-124 | it is in 0..100 and never below the plain ratio of the whole names |
| NameScore.JoinedIffSameWords | internal/roster/match.go:64-73 | two names read alike word by word exactly when they are the same bag of words |
| NameScore.LostLetterScore | internal/roster/match.go:58-124 | a plain one-word name of n letters that lost its last one scores 100 (n - 1) / n against the whole, rounded down, by all the comparisons together |
| NameScore.FullScoreIffAlike | internal/roster/match.go:58-124 | 100 means the same letters, the same bag of words, the same ASCII core, or against an ornamented name the same long words; and nothing else does |
| NameScore.ScoreAtLeastIff | internal/roster/match.go:58-124 | at every threshold above 0: the score reaches it exactly when both names have letters and, of their letters, their sorted words, their ASCII spans or, where these are compared, their long words, some pair has an edit script that cheap |
| Segment.PhaseLock | internal/ingest/segment.go:322-347 | the phase is the first brightest on average, and the contrast is its lead over the dimmest |
| Segment.CollectBands | internal/ingest/segment.go:216-277 | the bands are those of a cut of the profile: the first longest run of trusted gaps at its own lock, then what the same search finds above and below that run, in each leftover at its own lock, as deep as it may; all are one pitch tall between trusted gaps and none overlap |
| Segment.CutIsUnique | internal/ingest/segment.go:216-277 | a profile has one cut: every phase, main run and leftover search is decided |
| Segment.LeftoversAreSearched | internal/ingest/segment.go:264-275 | while there is depth each leftover a pitch tall is cut by its own lock, and the bands reported above and below the main run are exactly the bands of those two cuts |
| Segment.CutHoldsLongest | internal/ingest/segment.go:222-262 | no chain of trusted gaps at the locked phase is longer than what the bands account for |
| Segment.BestFittingPitch | internal/ingest/segment.go:382-401 | the pitch named is the first candidate whose phases separate best for their sample count |
| Segment.BestFitIsUnique | internal/ingest/segment.go:382-401 | there is one such pitch and contrast |
| Segment.FitOrdersByRoot | internal/ingest/segment.go:382-401 | comparing squared contrasts times sample counts orders as contrasts times the roots of the counts do |
| Segment.SegmentRows | internal/ingest/segment.go:146-200 | the rows are the whole cut, three levels deep, moved to the region and sorted by top, and they do not overlap; when the expected pitch fails the floor a mismatch is reported exactly when the best-fitting pitch clears it; a region with no scanline, no column or less than half a pitch has no rows |
| Segment.VerdictIsUnique | internal/ingest/segment.go:146-200 | there is one such verdict on a profile |
| HeaderCards.CardWindows | internal/ingest/headercard.go:121-136 | the windows hold every scanline of the search that no row covers, and none that one does |
| HeaderCards.OwnerOf | internal/ingest/headercard.go:207-218 | the scan finds the owning header's rank |
| HeaderCards.OwnerIsLastAtOrAbove | internal/ingest/headercard.go:207-218 | over headers in order the owner is the last one at or above the row's top |
| HeaderCards.OwnersFollowTheFrame | internal/ingest/headercard.go:207-218 | going down the frame ownership only passes to later headers |
| RosterOwners.PhotosGoToTheirOwners | internal/ingest/roster.go:1167-1231 | the last inputs a ranked frame hands over are one photograph for each band, each of the group its top falls to: the card before the first that starts below it, or the sticky header's |
| RosterOwners.CapturePhotosGoToTheirOwners | internal/ingest/roster.go:924-1286 | the same of any frame of any capture |
| RosterOwners.OwnerDownTheFrame | internal/ingest/headercard.go:207-218 | with the cards in order, a row above them all is the badge's rank's and any other the last card's at or above its top |
| RosterOwners.HeadIsStickyThenCards | internal/ingest/roster.go:1167-1223 | a ranked frame notes the sticky header, then its cards in order, then moves all their groups at once |
| RosterOwners.RowUnderACard | internal/ingest/headercard.go:207-218 | under a sticky R3 and an R2 card at 928, a row at 1000 is R2's and one at 800 is R3's |
| RosterHeaders.QueuedHeadersAreExact | internal/ingest/roster.go:1039-1199 | the header items of a run's queue are exactly those its frames call for: one for each header without a count, with its band and text, and one for each badge that matched nothing |
| RosterHeaders.NameGoesWithTheCount | internal/ingest/roster.go:1374-1402 | a group is reported under the name of the very header whose count it kept |
| RosterHeaders.CreatedAreTheNewMembers | internal/ingest/roster.go:1547-1670 | the created members are the ones the member list grew by, each of them new |
| GroupHeader.CountsOfLine | internal/ingest/parse.go:72-72 | noise around one count yields that count and no other token |
| GroupHeader.LegibleHeaderParses | internal/ingest/parse.go:333-355 | whatever white space surrounds it, a line with one count is refused for its missing total, for its conversion or for its incoherence under an exact condition each, and otherwise gives its name and total |
| GroupHeader.OneOfTooManyIsNotConverted | internal/ingest/parse.go:342-349 | 1/ followed by twenty digits or more is refused by the conversion |
| GroupHeader.DetachedDigitIsRefusedIff | internal/ingest/parse.go:306-324 | a total whose last digit drifted off is refused exactly when more are shown than the shortened total |
| GroupHeader.UnderCountGetsThrough | internal/ingest/parse.go:323-324 | 1/11 read as 1/1 1 is believed to be a group of one |
| RosterRows.GroupTracker.SeenRow | internal/ingest/roster.go:799-806 | the first collected row within half a pitch, or none |
| Roster.OnlyStrangersAreMinted | internal/ingest/roster.go:1547-1655 | a member is minted exactly for a legible name nobody known comes near, in a group whose size is known and unspent; a match is the first member nobody outscores |
| Roster.AskedFor | internal/ingest/roster.go:1547-1655 | each of the five reasons to queue a row holds under its own exact condition, told by the scores 75 and 92, the name's acceptance and the group's size |
| Roster.EachFieldEndsOnce | internal/ingest/roster.go:1731-1755 | each field of a row ends as a fact or as a review item, never both and never neither |
| RosterRows.RosterRun.WriteFacts | internal/ingest/roster.go:1731-1755 | each field is a fact at the lesser of the name's and its own confidence when that reaches the gate, and else a review item with its label, raw text and confidence |
| RosterRows.RosterRun.ProcessRow | internal/ingest/roster.go:1440-1670 | one photograph of a row ends as a match, a creation or at most one review item with its candidates, moving the tracker, the tally, the members, the counters and the facts together |
| RosterRows.RosterRun.Sight | internal/ingest/roster.go:1226-1285 | one band adds one entry to the log, and all a run holds is still what its log replays to by the rules: a row that is somebody is not read, any other is collected if it is near none, read and latched |
| RosterRows.RosterRun.NoteHeader | internal/ingest/roster.go:1387-1402 | a header creates its group or gives it its first count, and changes nothing else the log says |
| RosterRows.RosterRun.MoveGroups | internal/ingest/roster.go:1205-1223 | each group on a frame moves once, and only if the last ranked frame carried it |
| RosterLog.LogOnlyLatches | internal/ingest/roster.go:1226-1285 | from any stage of a run to any later one sizes stay, members resolved to stay, rows stay where they were collected, and flags only latch |
| RosterIngest.ViewIsReplayed | internal/ingest/roster.go:1205-1223 | where a group's scroll stands and what size it states follow from what the run was handed, whatever its rows turned out to be |
| RosterIngest.FrameMoves | internal/ingest/roster.go:1205-1223 | a ranked frame moves by its offset exactly the groups it shows and continues, and makes the rest of them seen |
| RosterIngest.IngestFrame | internal/ingest/roster.go:995-1286 | one frame hands the run exactly what its headers, its offset and its bands say, each band where its owner's own scroll puts it; a frame whose badge matched nothing is queued and skipped whole; flags only latch |
| RosterIngest.IngestRoster | internal/ingest/roster.go:924-1316 | over any capture the run is handed exactly the script of its frames and holds what replaying it gives, and is complete exactly when every group shown and the alliance total reconcile |
| RosterAccounts.BooksBalance | internal/ingest/roster.go:1226-1285 | in every run, for every group: collected rows are parsed rows, resolved rows are yielded rows, reviewed rows are name-class items, every row is settled, and creations fit the stated size |
| RosterAccounts.FieldsAddUp | internal/ingest/roster.go:1731-1755 | facts and field items together are three for each match and creation |
| RosterAccounts.GroupsAddUp | internal/ingest/roster.go:1226-1316 | the parsed rows of all groups add up to the run's parsed rows |
| RosterAccounts.WrittenClearTheGate | internal/ingest/roster.go:1731-1755 | every fact of a run is at the gate or over it, and of the run's own period |
| RosterAccounts.WrittenFactsAreRead | internal/ingest/roster.go:1731-1755 | every fact of a run was read at some stage of it: one parsed field's value under its metric, of the member that photograph resolved to, at the name's or the field's confidence and above neither |
| RosterAccounts.FieldItemsShowTheirFields | internal/ingest/roster.go:1731-1755 | every field item shows one field: its label and raw text, and why it was not written |
| RosterAccounts.QueriedRowsShowTheirText | internal/ingest/roster.go:1440-1670 | a queried row is shown once, with its own text, reason and candidates |
| RosterResults.CaptureAddsUp | internal/ingest/roster.go:924-1316 | over any capture both sums hold, the groups being those its headers show |
| RosterResults.CaptureOnlyLatches | internal/ingest/roster.go:924-1316 | what a group holds after any number of frames is only added to by the rest of the capture |
| RosterResults.RowsAreSighted | internal/ingest/roster.go:1226-1285 | a group's rows and flags are the fold of its own photographs alone, and exactly the photographs of rows that are somebody by then are not read |
| RosterResults.FlagsRememberOrder | internal/ingest/roster.go:754-758 | a row is both resolved and reviewed exactly when one photograph queried it and a later one identified it |
| RosterResults.ReviewGap | internal/ingest/roster.go:613-631 | parsed minus yielded is at most the name-class items, which are at most parsed; equal exactly when no photograph identified a row an earlier one had queried |
| RosterGap.LostLetterIsQueriedIff | internal/ingest/roster.go:1547-1655 | a plain name that loses its last letter scores in the review band exactly when it has four to twelve letters |
| RosterGap.ReviewGapCanOpen | internal/ingest/roster.go:618-623 | for every such name of letters, scored as the matcher scores it, a run over two frames of its row, read without the last letter and then whole, yields the row with a name-class item queued |
| RosterGap.LotharLosesItsLastLetter | internal/roster/match.go:58-124 | "lotha" scores 83 against "lothar" and the whole name 100 |
| RosterResults.CollectedAreApart | internal/ingest/roster.go:799-806 | collected rows of a group are always more than half a pitch apart |
| RosterResults.DedupeIsExact | internal/ingest/roster.go:1226-1285 | wherever the list starts, with positions within a quarter pitch of the truth, one row is collected for each true row photographed, in any scroll direction |
| RosterResults.ReconciledMeansSeenWhole | internal/ingest/roster.go:1288-1300 | the parsed rows such a group is reconciled by are exactly the true rows photographed, and it never minted more members than it states |
| RosterResults.SizeIsWrittenOnce | internal/ingest/roster.go:1374-1402 | the size a group ends with is the first count read from any header of it |
| RosterResults.SkippedFrameLosesTravel | internal/ingest/roster.go:858-863 | a capture in which one skipped frame costs a group 252 of 552 pixels |
| RosterResults.SkippedFramesLoseTravel | internal/ingest/roster.go:1094-1098 | across skipped frames a group moves by the last offset alone, which is right exactly when those frames did not scroll |
| ScrollOffset.Measure | internal/vision/scroll.go:173-290 | an offset is returned exactly when the probes admit and agree on one |
| ScrollOffset.HonestMoveIsMeasured | internal/vision/scroll.go:173-290 | a move that leaves room for the strips is measured whenever every match is within half the tolerance of it, the first scores 0.5 and another was made |
| ScrollOffset.AcceptedIsVouchedFor | internal/vision/scroll.go:173-290 | however wrong the first match is, an accepted move is off by no more than the tolerance when the others are honest |
| ScrollOffset.MeasurableIff | internal/vision/scroll.go:173-290 | a region can be measured exactly from 67 pixels on |
| ScrollOffset.OvershootReachableIff | internal/tasks/scrollcapture.go:15-36 | an offset accepted from placements that each lie in their own probe's window can exceed the usable height exactly when the pitch is more than two strips tall |
| ScrollCapture.ScrollCapture | internal/tasks/scrollcapture.go:118-173 | a swipe or region that cannot work is refused; the frames carry the measured moves that were not nothing, in order and numbered upwards, each at most the usable height; the capture is complete exactly at the first three still measurements in a row, and otherwise runs to the frame cap |
| ScrollCapture.MeasureAfterSwipe | internal/tasks/scrollcapture.go:208-243 | a measured move is one the geometry can show |
| RowCursor.VsRowCursor.Accept | internal/ingest/vs.go:847-854 | the cursor accepts exactly the positions that open a new row |
| RowCursor.NoRowIsLost | internal/tasks/scrollcapture.go:118-173 | on a forward capture every row between the first frame's top and the last frame's bottom lies wholly in some frame |
| RowCursor.EachRowExactlyOnce | internal/ingest/vs.go:828-854 | sightings that skip no row are accepted once per row, given positions within a quarter pitch |
| RowCursor.CollectRows | internal/ingest/vs.go:872-898 | the loop over frames and bands keeps exactly the positions the cursor accepts |
| RowCursor.CollectedRowsAreTheShownRows | internal/ingest/vs.go:872-898 | on a forward capture of bands within a quarter pitch of the visible rows, the positions kept are of exactly the rows some frame held whole, each once |
| Graph.Path | internal/runtime/graph.go:75-101 | the search returns a shortest walk, and of those the one that takes the earlier listed edge wherever another first differs; no path exactly when there is no walk |
| Graph.FirstRouteIsUnique | internal/runtime/graph.go:73-74 | that leaves one route only: the search is deterministic by edge order |
| Topology.RoutesExactly | internal/runtime/graph.go:126-164 | on the shipped graph a screen can be reached from another exactly when they are the same or it is routed |
| Topology.WalksAvoidUnrouted | internal/runtime/graph.go:126-164 | no walk ever enters a screen that is only recognized |
| Navigate.Ctx.NavigateTo | internal/runtime/navigate.go:17-43 | success means the last recognized screen is the target, with at most four plans, each the first shortest path from the screen just seen; failure without a fault of the device or of recognition means another screen, after four plans or with no route from it |
| Navigate.Ctx.Walk | internal/runtime/navigate.go:45-67 | each edge is taken from its own screen, and success ends on the last one's target |
| Navigate.Ctx.WaitFor | internal/runtime/ctx.go:158-200 | success means the last recognized frame shows the screen; giving up on a wrong one takes five recognitions of it in a row or a recovery; any other failure is a fault |
| Navigate.Ctx.VerifyScreen | internal/runtime/act.go:17-32 | success means the last thing that happened was recognizing the screen |
| Navigate.Ctx.Tap | internal/runtime/act.go:64-117 | a tap follows, with nothing in between, a frame recognized as its screen with its anchor matched; it fails only by a fault |
| Navigate.PromptIsNeverTapped | internal/runtime/graph.go:126-164 | no safe trace over the shipped graph taps the stamina prompt or plans through it |
| Scheduler.OfflineIffSomeWindow | internal/scheduler/window.go:32-57 | checking two days is the same as checking every day |
| Scheduler.OfflineStretchIsShort | internal/scheduler/window.go:32-57 | no continuous offline stretch reaches fourteen hours |
| Scheduler.OfflineComesRound | internal/scheduler/window.go:32-57 | every account goes offline within forty-three hours |
| Scheduler.WindowsDrift | internal/scheduler/window.go:32-57 | every minute of the day, with every length from five hours to seven, is some hash's window |
| Scheduler.WeekdayFollowsTheCalendar | internal/scheduler/schedule.go:110-117 | day 0 was a Thursday, and each day is the next of the week |
| Scheduler.SpacingBounds | internal/scheduler/backoff.go:16-35 | the wait is the cadence doubled per failure up to five, plus the jitter, within a fifth of a cadence, and positive |
| Scheduler.OffsetIsTheShare | internal/scheduler/backoff.go:16-35 | the jitter is exactly the hash's share of a fifth of the cadence either way, cut off toward zero |
| Planning.Plan | internal/scheduler/schedule.go:57-91 | the plan is sorted and holds the due pairs with their multiplicity |
| Planning.PlanListsExactlyTheDue | internal/scheduler/schedule.go:57-91 | a decision is in the plan exactly when its pair is eligible and due |
| Planning.PlannedIffItMayRun | internal/scheduler/schedule.go:57-99 | in the accounts' and tasks' own terms: a pair is planned exactly when nothing is paused or disabled, the role and weekday are listed, the account is in no offline window, and now is not before its last run plus its spacing |
| Planning.PlanIsInOrder | internal/scheduler/schedule.go:80-91 | down the plan pairs are less and less overdue, equals by task name and then by account |
| Planning.BeforeIsTotal | internal/scheduler/schedule.go:80-90 | the order is strict and total |
| Lexical.LessIffFirstDiffers | internal/scheduler/schedule.go:80-90 | names order by the first character in which they differ |
| Planning.PlanIgnoresListingOrder | internal/scheduler/schedule.go:57-91 | reordering accounts and tasks does not change the plan |
| TickLoop.Loop.TickOnce | internal/scheduler/loop.go:114-129 | one tick executes the head of the plan and nothing else |
| TickLoop.BoundedWaiting | internal/scheduler/loop.go:114-129 | a pair that has run before, stays due and stays eligible is served within as many ticks as there are pairs and attempts that left no trace |
| TickLoop.NeverRunIsServedIff | internal/scheduler/schedule.go:94-99 | on a tick where a pair that never ran is eligible it is due by exactly 0, and is served exactly when no due pair goes before it |
| TickLoop.NeverRunPairStarves | internal/scheduler/schedule.go:94-99 | a pair that never ran is due forever and never served, in a run that never ends |

## Left out

- Pixels: preprocessing, template matching, colour masks, ink trimming and the measured crop constants; their results are inputs.
- The averaging of a scanline over its columns: a profile is an arbitrary sequence of reals, and pixel heights are integers, so the rounding of fractional region bounds is not modelled.
- adb, tesseract, blob storage, Postgres, HTTP and the CLI: the facts table is a map with the overwrite rule of its upsert, the review queue a sequence, and errors from any of them, which abort a run, are not modelled.
- Unicode decomposition, homoglyph folding and the letter, digit and space tables: a name comes in as classified runes. Invalid UTF-8 is not modelled. Normalization is not idempotent once folding is included, and nothing here claims it is.
- Aliases: a member's score is taken as already the best over its name and aliases, and a candidate is its id and score, without the name.
- Roster.HeaderRead: whether a count came from the header's line or from the second reader of its digits is not told apart.
- findHeaderCards: only its windows and the order of its result; the badge match in a window and the shortest window worth searching are inputs.
- Jitter, wall-clock timers, time zones and daylight saving: time is integer and days have a fixed length; hashes are arbitrary functions.
- Planning.Plan: the library's sort is an insertion sort here, which its contract makes indistinguishable; a 64-bit overflow of a very long backed-off cadence is not modelled.
- Segment.BestFittingPitch: compares squared contrast times sample count where the code compares contrast times its square root; `Segment.FitOrdersByRoot` says that these order the same.
- RosterRows.RosterRun.CreateMember: the store's serial is some id nobody has; its uniqueness checks are not modelled.
- Task bodies other than the capture loop, the corpus and recognizer tooling, scoring reports, and the closest-pair report: mostly single branches or maximum scans.
