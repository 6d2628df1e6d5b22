# CloudBurrow in Dafny

CloudBurrow is a local Google Cloud emulator with a web console. This project models the parts of it whose
behaviour spans several steps or several functions, and proves what they promise for every input or every run.
Nothing here runs the program; the model follows the code, and where the code and its comments part, the code.

- **Storage events** (`StorageEvents`, `ScraperRuns`, `ScraperRounds`, `ScraperLoss`, `ScraperSafety`, `ScraperComplete`).
  The server's call ring and the scraper are classes, as in the source. Around them stands a step system of server and
  scraper: the server emits and restarts at any moment, also while a reply is in flight or between a poll and its probe,
  and requests and replies are lost. The scraper's scrapes, with any of their requests failing, are shown to be runs of
  this system. Proved over all runs: the log is in order and without repeats, the exact set of calls that are lost, the
  exact guard under which each step loses none, and that the log is complete at rest exactly after runs whose every step
  was taken under its guard.
- **GoogleSQL scanner and the two editor gates** (`GoogleSqlTokens`, `GoogleSqlCompose`, `GoogleSqlPieces`,
  `BigQueryGates`, `GateVerdicts`). The scanner's index loops are proved against a recursion on suffixes, which is then
  shown to be compositional, blind to quoted text and comments, and to accept exactly the texts of a grammar of adjacent
  pieces. On top of it every verdict of the read-only and read-write gates is characterised, and they are shown never to
  accept the same text.
- **Datastore index flags** (`DatastoreValues`, `DatastoreNodes`, `DatastoreExclude`, `DatastoreGuard`). Exclude from indexes
  as an in-place change of linked messages, proved to be a change of flags on the value they hold, and the digest guard
  against any number of concurrent writers.
- **Paging** (`BigtablePaging`, `SqlPaging`) of tables that change between pages.
- **Smaller cores** (`ChangeStream`, `ChangeStreamSend`, `Versions`, `VersionText`, `CliFeatures`, `GcPolicy`,
  `ShellQuoting`, `SchemaPaths`), with `Options`, `Text` and `ByteOrder` below them.

Where the code does not do what its comments or messages say, the project proves exactly when it does:

- A restarted server is noticed only while its newest number is *below* the cursor. At an equal number the probe sees no
  restart and the new calls are lost (`EqualNumbersHideRestart`, `RestartCanGoUnnoticed`). A poll's reply that crosses a
  restart can lose a call whatever becomes of it (`CrossedReplyLosesEitherWay`, `ReplyCanCrossRestart`). `StepLosesIff`
  gives every step that loses a call.
- The read-write gate sends a script of queries back as something Read-only runs; Read-only accepts it only under the
  condition of `SentBackIsAcceptedIff` (`QueriesRefusedByBoth`).
- A change-stream item shows only the first chunk of a value sent in several: it is whole exactly when every cell value is
  within the server's chunk limit (`ShownWholeIffFits`, `LongValueIsListedCut`).
- Two prerelease numbers that differ only by leading zeros are each above the other (`CompareMirrorsIff`,
  `LeadingZeroIsAboveBothWays`). A build comes just after its tag exactly when the tag is a release
  (`BuildReadsJustAfterTagIff`); one described from a prerelease overtakes later numbered prereleases
  (`BuildOvertakesPrereleases`, `BuildOfRc1IsAboveRc2`).
- A maximum age past 64-bit nanoseconds is read as another age, negative ones included (`AgeReadExactlyIff`, `LongAgeTurnsNegative`).

## Model

| member | source | states |
|---|---|---|
| StorageEvents.CallRing.Add | internal/service/storage/observe.go:57-67 | the call gets the next number of this server life and the ring keeps exactly the newest thousand |
| StorageEvents.CallRing.After | internal/service/storage/observe.go:69-79 | the answer is the specified slice of the life's numbered calls |
| StorageEvents.AnswerIsKeptCallsAbove | internal/service/storage/observe.go:69-79 | a call is answered exactly when it was served, is still kept and is numbered above n |
| StorageEvents.AnswerMovesCursor | cmd/cloudburrow/builtinstorage.go:144-180 | a page moves the cursor to the newest number; a probe's page resets it exactly when that number is at least 1 and below it |
| StorageEvents.Scraper.Scrape | cmd/cloudburrow/builtinstorage.go:120-156 | what is recorded and where the cursor ends for every combination of poll and probe replies, failures included |
| StorageEvents.Scraper.ProbeRestart | cmd/cloudburrow/builtinstorage.go:158-180 | 0 exactly when a decoded probe's newest call is below the cursor, else the cursor |
| ScraperRuns.LandingIsScraping | cmd/cloudburrow/builtinstorage.go:144-156 | the step system's reply steps record and move the cursor as one Scrape with those replies |
| ScraperRuns.StepKeepsInv | cmd/cloudburrow/builtinstorage.go:120-180 | every server step, lost request and delivered reply keeps the log genuine, ordered and the cursor tied to it |
| ScraperRuns.RecordedOnceInOrder | cmd/cloudburrow/builtinstorage.go:120-180 | in every run each recorded call was served under its number, and the log is strictly increasing in server life and number |
| ScraperRuns.CursorGoesBackOnlyUnseen | cmd/cloudburrow/builtinstorage.go:151-180 | in every run the cursor goes back only to 0 and only while nothing of the current life is recorded |
| ScraperRounds.Watch | cmd/cloudburrow/builtinstorage.go:91-102 | scrape after scrape, log and cursor are the fold of the replies |
| ScraperRounds.RoundIsScrape | cmd/cloudburrow/builtinstorage.go:122-180 | one scrape, with its poll and probe answered or failed in any way and the server acting around them, records and moves the cursor as a run of steps |
| ScraperRounds.FailedPollChangesNothing | cmd/cloudburrow/builtinstorage.go:134-143 | after a failed poll log and cursor are as before, whatever the replies held |
| ScraperRounds.ScrapesRecordOnceInOrder | cmd/cloudburrow/builtinstorage.go:120-180 | over any sequence of scrapes with any requests failing, what is recorded is genuine, in the order served and without repeats |
| ScraperLoss.LostForever | cmd/cloudburrow/builtinstorage.go:144-180 | a lost call is recorded by no continuation of the run |
| ScraperLoss.Recovers | cmd/cloudburrow/builtinstorage.go:144-180 | any call that is not lost is recorded by some continuation in which only the scraper acts |
| ScraperLoss.LostIsExact | cmd/cloudburrow/builtinstorage.go:144-180 | a call is lost exactly when no continuation records it |
| ScraperSafety.InHandIsRecorded | cmd/cloudburrow/builtinstorage.go:144-156 | with nothing lost, the current life's calls that are recorded or in flight are exactly the first ones, up to a number read off the cursor and the reply |
| ScraperSafety.StepLosesIff | cmd/cloudburrow/builtinstorage.go:120-180 | for every step and whatever is in flight, a step loses a call exactly when its guard on cursor, newest number and reply fails: calls served, restarts, lost and delivered replies |
| ScraperSafety.RunLosesIff | cmd/cloudburrow/builtinstorage.go:120-180 | a run loses no call exactly when each of its steps is taken under its guard |
| ScraperComplete.AtRestMeans | cmd/cloudburrow/builtinstorage.go:144-180 | a whole scrape finds and moves nothing exactly when the cursor equals the newest number or there are no calls |
| ScraperComplete.CompleteIffAllSafe | cmd/cloudburrow/builtinstorage.go:120-180 | for every run, once scrapes find nothing new, the log is every call ever served, once and in order, exactly when every step was taken under its guard |
| ScraperComplete.ScrapeLosesNothing | cmd/cloudburrow/builtinstorage.go:122-156 | a scrape whose replies arrive before the server acts again loses no call |
| ScraperComplete.EqualNumbersHideRestart | cmd/cloudburrow/builtinstorage.go:176-179 | with nothing of the new life seen and its newest number equal to the cursor, scrapes rest and all its calls are lost |
| ScraperComplete.RestartCanGoUnnoticed | cmd/cloudburrow/builtinstorage.go:176-179 | a concrete run of two calls around a restart that loses the second |
| ScraperComplete.CrossedReplyLosesEitherWay | cmd/cloudburrow/builtinstorage.go:144-156 | a page of an ended life whose last number the new life has reached loses a call whether it is delivered or lost |
| ScraperComplete.ReplyCanCrossRestart | cmd/cloudburrow/builtinstorage.go:144-156 | a concrete run to such a reply, with nothing lost before it |
| GoogleSqlTokens.WordLen | cmd/cloudburrow/consolebigquery.go:717-723 | the loop counts the leading word bytes |
| GoogleSqlTokens.SkipQuoted | cmd/cloudburrow/consolebigquery.go:725-747 | the loop finds the first unescaped delimiter, single or triple, or that there is none |
| GoogleSqlTokens.NextBiteAt | cmd/cloudburrow/consolebigquery.go:655-706 | each branch of the scan, by what the rest of the text starts with |
| GoogleSqlTokens.BigQueryTokens | cmd/cloudburrow/consolebigquery.go:653-709 | the scan computes the suffix-recursive Lex, faults included |
| GoogleSqlCompose.TokensAreWordsOrMarks | cmd/cloudburrow/consolebigquery.go:648-653 | every token is one of the six marks or a nonempty run of word bytes |
| GoogleSqlCompose.LexRoundTrips | cmd/cloudburrow/consolebigquery.go:648-709 | any list of words and marks, written out one space apart, lexes to that list |
| GoogleSqlCompose.LexIsNormal | cmd/cloudburrow/consolebigquery.go:648-709 | a statement and its tokens written out one space apart lex the same |
| GoogleSqlCompose.QuotedLengthStable | cmd/cloudburrow/consolebigquery.go:731-747 | quoted text that closes keeps its length with a space and any text after it |
| GoogleSqlCompose.NextBiteStable | cmd/cloudburrow/consolebigquery.go:655-706 | what the scan takes at a place does not depend on text after a following space |
| GoogleSqlCompose.LexComposes | cmd/cloudburrow/consolebigquery.go:653-709 | tokens of a, a separator and b are a's then b's with b's fault, except exactly that a line comment left open takes the rest of its line |
| GoogleSqlCompose.LexThen | cmd/cloudburrow/consolebigquery.go:653-709 | the same directly before any character that joins with nothing before it, with no space between |
| GoogleSqlPieces.PieceLexes | cmd/cloudburrow/consolebigquery.go:653-709 | a word, mark, quoted text, comment or other character, directly followed by any text it is apart from, gives its token and then that text's |
| GoogleSqlPieces.LexesIffWrittenAs | cmd/cloudburrow/consolebigquery.go:653-709 | a text lexes to some tokens exactly when it is written as such pieces, each apart from the next, whose words and marks they are |
| GoogleSqlPieces.FaultsIffOpened | cmd/cloudburrow/consolebigquery.go:653-747 | a text faults exactly when after such pieces it opens a comment or a quoted text, as the fault says, and never closes it |
| GoogleSqlPieces.MarkSeparates | cmd/cloudburrow/consolebigquery.go:695-699 | a mark is a token by itself whatever stands directly before and after it |
| GoogleSqlPieces.WordBytesAre | cmd/cloudburrow/consolebigquery.go:713-715 | the word bytes are all but ASCII spaces, controls and punctuation, the underscore aside |
| GoogleSqlCompose.LegalBodyCloses | cmd/cloudburrow/consolebigquery.go:737-745 | a body with no unescaped delimiter and no dangling backslash closes at its own delimiter |
| GoogleSqlCompose.HiddenIsSilent | cmd/cloudburrow/consolebigquery.go:660-690 | every legal quoted text, with any prefix, and every comment lexes to no token |
| GoogleSqlCompose.HiddenAddsNothing | cmd/cloudburrow/consolebigquery.go:612-616 | between a and b any quoted text or comment leaves a's tokens then b's |
| BigQueryGates.ReadOnlyBigQuery | cmd/cloudburrow/consolebigquery.go:617-646 | the verdict and its reason for every statement text |
| GateVerdicts.ReadOnlyVerdicts | cmd/cloudburrow/consolebigquery.go:617-646 | each verdict of Read-only exactly when it is given, by the first token past the parentheses and what follows a semicolon |
| GateVerdicts.ReadOnlyEndsAtSemicolon | cmd/cloudburrow/consolebigquery.go:634-644 | a text with a semicolon and any other token after it, spaces between or not, is never accepted |
| GateVerdicts.IsCaseAside | cmd/cloudburrow/consolebigquery.go:630-631 | a token is a keyword exactly when their letters agree, case aside |
| BigQueryGates.BigQueryStatements | cmd/cloudburrow/consolebigquerywrite.go:70-108 | the closure and loop compute the split at semicolons with openers stepped over and empty statements dropped |
| BigQueryGates.StatementsCompose | cmd/cloudburrow/consolebigquerywrite.go:70-108 | the statements of two token lists joined by a semicolon are the first's then the second's |
| BigQueryGates.OpeningStepsOverOpeners | cmd/cloudburrow/consolebigquerywrite.go:77-98 | only openers are stepped over, and what is kept starts with a token that is none, but BEGIN TRANSACTION |
| GateVerdicts.OpeningIsOpeners | cmd/cloudburrow/consolebigquerywrite.go:77-98 | any parentheses, BEGINs and EXCEPTION WHEN ERROR THENs before a statement are stepped over, and nothing after them |
| BigQueryGates.WritableBigQuery | cmd/cloudburrow/consolebigquerywrite.go:147-183 | refusal or the kind of answer for every statement text, unlexable and oversized ones included |
| GateVerdicts.WritableVerdicts | cmd/cloudburrow/consolebigquerywrite.go:147-183 | each verdict of Read-write exactly when it is given: refused when all statements are queries, a script, a DML keyword, and everything else runs |
| GateVerdicts.WritableWithoutTokens | cmd/cloudburrow/consolebigquerywrite.go:147-157 | refused as too long exactly over the limit; a text that does not lex runs |
| GateVerdicts.DdlRuns | cmd/cloudburrow/consolebigquerywrite.go:182-182 | CREATE TABLE t runs |
| BigQueryGates.LoneDmlIsNamed | cmd/cloudburrow/consolebigquerywrite.go:175-182 | a DML statement of its own is answered with its keyword |
| BigQueryGates.DmlAmongSeveralIsScript | cmd/cloudburrow/consolebigquerywrite.go:175-178 | DML on either side of a semicolon between statements is answered as a script |
| BigQueryGates.GatesExclude | cmd/cloudburrow/consolebigquerywrite.go:140-183 | what Read-only accepts is one statement headed SELECT or WITH, and Read-write refuses it |
| BigQueryGates.SentBackIsAcceptedIff | cmd/cloudburrow/consolebigquerywrite.go:172-174 | a text sent back as only reading is accepted by Read-only exactly when it starts plainly and only semicolons follow its first one |
| BigQueryGates.QueriesRefusedByBoth | cmd/cloudburrow/consolebigquerywrite.go:172-174 | a concrete script of two queries that both gates refuse |
| BigQueryGates.VerdictsIgnoreHidden | cmd/cloudburrow/consolebigquery.go:612-616 | swapping one quoted text or comment for another changes neither gate's verdict within the size limit |
| DatastoreValues.SetFlagsExactly | cmd/cloudburrow/consoledatastoreexclude.go:110-151 | after the change every flag at or below the target is the one asked for, every other flag is as it was, and nothing but flags differs |
| DatastoreValues.UniformSound | cmd/cloudburrow/consoledatastoreexclude.go:21-26 | one flag on everything inside leaves a storable value exactly when the flag is set or nothing inside is over the limit |
| DatastoreValues.PutSound | cmd/cloudburrow/consoledatastorevalues.go:200-217 | replacing one value keeps a property storable exactly when the new value is and its neighbours stay in order |
| DatastoreValues.DoneIffSound | cmd/cloudburrow/consoledatastoreexclude.go:110-151 | on a stored property the change is made exactly when the changed property could be stored |
| DatastoreValues.RefusalMeans | cmd/cloudburrow/consoledatastoreexclude.go:110-147 | each refusal exactly when it is given: no value, no container, values inside that could not be indexed, or only the order among neighbours broken |
| DatastoreNodes.FlaggedExact | cmd/cloudburrow/consoledatastoreexclude.go:43-75 | the listing holds exactly the values that have a flag, each with steps that address it |
| DatastoreNodes.FlaggedInOrder | cmd/cloudburrow/consoledatastoreexclude.go:43-75 | the listing is in order at every depth: an entity before its properties, these by name, an array's values by index |
| DatastoreNodes.FlaggedOnce | cmd/cloudburrow/consoledatastoreexclude.go:43-75 | no address is listed twice |
| DatastoreNodes.ViewPut | cmd/cloudburrow/consoledatastoreexclude.go:147-149 | writing flags only inside the addressed message changes the held value only there |
| DatastoreExclude.ValueAt | cmd/cloudburrow/consoledatastorevalues.go:103-126 | the loop follows the steps to the addressed message or finds that there is none |
| DatastoreExclude.Walk | cmd/cloudburrow/consoledatastoreexclude.go:47-75 | the recursive walk appends the specified listing |
| DatastoreExclude.AllExcluded | cmd/cloudburrow/consoledatastoreexclude.go:77-87 | whether every listed value is excluded, and whether there is any |
| DatastoreExclude.ArrayOrder | cmd/cloudburrow/consoledatastorevalues.go:200-217 | the one-pass check decides that no excluded value stands before an indexed one |
| DatastoreExclude.SetExcluded | cmd/cloudburrow/consoledatastoreexclude.go:110-151 | refused with the specified reason and every flag unchanged, or the held value with exactly the target's flags set |
| DatastoreGuard.RunKeepsInv | cmd/cloudburrow/consoledatastoreraw.go:327-382 | in every run each committed action found the digest it carried and changed only its property, from what stood there at the commit |
| DatastoreGuard.CommittedFoundWhatWasDrawn | cmd/cloudburrow/consoledatastoreguard.go:72-96 | with a digest that separates values, a committed action found the property exactly as its page drew it |
| DatastoreGuard.OtherWritesDoNotRefuse | cmd/cloudburrow/consoledatastoreguard.go:16-20 | with the property as drawn at the lookup and any steps of others before the commit, the action goes through exactly when its change accepts and none of those steps stored or deleted the entity, else changes nothing |
| DatastoreGuard.StampStaysIff | cmd/cloudburrow/consoledatastoreraw.go:327-382 | an entity keeps its stamp over a run exactly when no step of it stored or deleted the entity |
| DatastoreGuard.RefusedBecause | cmd/cloudburrow/consoledatastoreguard.go:72-96 | each refusal of an action that carries a digest exactly when it is given |
| DatastoreGuard.UnsaidIsRefused | cmd/cloudburrow/consoledatastoreguard.go:72-96 | an action that carries no digest changes nothing |
| DatastoreGuard.ExcludeKeepsSound | cmd/cloudburrow/consoledatastoreexclude.go:162-177 | Exclude from indexes as a guarded change never stores what Datastore would refuse or reorder |
| DatastoreGuard.StoreStaysSound | cmd/cloudburrow/consoledatastoreguard.go:86-96 | over every run of such actions among writers that store sound properties, all stored properties stay sound |
| BigtablePaging.RowsPage | cmd/cloudburrow/consoledatabases.go:1058-1083 | the read callback and truncation give the first 200 rows, whether more follow, and the last key as cursor |
| BigtablePaging.SuccessorIsLeast | cmd/cloudburrow/consoledatabases.go:1051-1056 | a key is above another exactly when it is not below it with a zero byte appended |
| BigtablePaging.ShownIncreases | cmd/cloudburrow/consoledatabases.go:1025-1091 | keys shown over all pages are strictly increasing, whatever is inserted or deleted between pages |
| BigtablePaging.PresentRowIsShown | cmd/cloudburrow/consoledatabases.go:1025-1091 | a row present at every page is shown once the reading ends |
| BigtablePaging.ShownRowWasPresent | cmd/cloudburrow/consoledatabases.go:1031-1083 | only rows present at some page are shown |
| BigtablePaging.StaticTableIsShownWhole | cmd/cloudburrow/consoledatabases.go:1025-1091 | the pages of an unchanged table join to its keys in order |
| BigtablePaging.StaticTableEnds | cmd/cloudburrow/consoledatabases.go:1076-1080 | an unchanged table's reading ends exactly at the page its rows fill |
| SqlPaging.TablesPage | cmd/cloudburrow/consolecloudsql.go:573-601 | the loop and truncation give the page at the offset, whether more follow, and the next offset |
| SqlPaging.StaticShown | cmd/cloudburrow/consolecloudsql.go:532-601 | the pages of an unchanged catalogue join to its rows from the offset on |
| SqlPaging.StaticEnds | cmd/cloudburrow/consolecloudsql.go:592-599 | there is a next page exactly while rows are left |
| SqlPaging.CreatedBetweenPages | cmd/cloudburrow/consolecloudsql.go:532-536 | one table created between pages repeats exactly the row at the pages' edge, or nothing when it sorts after it |
| SqlPaging.DroppedBetweenPages | cmd/cloudburrow/consolecloudsql.go:532-536 | one table dropped between pages skips exactly the row at the edge, or nothing |
| ChangeStream.ReadItems | cmd/cloudburrow/consolebigtablechangestream.go:115-146 | the receive loop computes the completed items of the messages |
| ChangeStream.Newest | cmd/cloudburrow/consolebigtablechangestream.go:147-150 | the listing is the newest hundred items, newest first |
| ChangeStream.ReassemblyIsFaithful | cmd/cloudburrow/consolebigtablechangestream.go:115-146 | however records are cut into messages and chunks, with heartbeats anywhere, one item a completed record, in order, one description a mutation |
| ChangeStream.CuttingShowsIffValueCut | cmd/cloudburrow/consolebigtablechangestream.go:135-140 | an item equals that of the uncut record exactly when every mutation's first chunk carries all of it |
| ChangeStream.DescribeTellsCell | cmd/cloudburrow/consolebigtablechangestream.go:35-49 | a description tells kind, family, column and value apart, for families without a colon and columns without an equals sign |
| ChangeStreamSend.DataChangeMessages | internal/bigtablefront/changestreams.go:696-747 | the loops compute the messages of a record: values over the limit cut, a message ended after each piece |
| ChangeStreamSend.MessagesEndAtPieces | internal/bigtablefront/changestreams.go:720-746 | a message ends after the one piece it may hold; the first alone names row and commit time, the last alone is done |
| ChangeStreamSend.PiecesInOrder | internal/bigtablefront/changestreams.go:707-719 | the pieces are slices of the value in order, each at its offset, all but the last as long as the limit |
| ChangeStreamSend.PiecesCarryValue | internal/bigtablefront/changestreams.go:707-719 | together the pieces carry the whole value |
| ChangeStreamSend.ServerSendsWell | internal/bigtablefront/changestreams.go:696-747 | what the server sends for any record is a cutting of it |
| ChangeStreamSend.ShownWholeIffFits | internal/bigtablefront/changestreams.go:701-705 | a record's item shows it whole exactly when none of its cell values is over the limit |
| ChangeStreamSend.StreamShowsWholeIffFits | cmd/cloudburrow/consolebigtablechangestream.go:115-146 | from the server's records through any stream with heartbeats to the listing: one item a record, whole exactly when its values are within the limit |
| ChangeStreamSend.LongValueIsListedCut | internal/bigtablefront/changestreams.go:68-70 | a value one byte over the limit is listed without its last byte |
| VersionText.WrittenIsRead | action/lib.js:107-125 | every text of the version grammar, blanks around it aside, is read as what its parts mean |
| VersionText.ReadWasWritten | action/lib.js:107-125 | every text that is read has parts of the grammar, and is read as what they mean |
| VersionText.ReadIffInGrammar | action/lib.js:107-113 | a version is read exactly from the texts of the grammar |
| Text.TrimTakesBlanks | action/lib.js:112-112 | trimming takes away exactly the blanks around a text |
| VersionText.DescribeIffInForm | action/lib.js:116-116 | a suffix counts as a describe build exactly when it is a number, -g, a commit and maybe -dirty |
| VersionText.SplitJoins | action/lib.js:122-122 | the prerelease identifiers hold no dot and join with dots to the prerelease text |
| VersionText.JoinSplits | action/lib.js:122-122 | identifiers without dots, joined with dots, split into themselves |
| VersionText.SuffixMeans | action/lib.js:114-124 | the numbers are those written, a describe build and a dirty tree keep no prerelease, and any other suffix keeps identifiers that join to it |
| VersionText.BuildReadsJustAfterTagIff | action/lib.js:107-149 | for every tag text and describe text after it, the build reads above its tag exactly for a release or prerelease without build metadata, and with no version that can be read between exactly for a release |
| VersionText.BuildOvertakesPrereleases | action/lib.js:116-145 | a build of a prerelease tag ending in a number reads above every prerelease with another number there |
| VersionText.BuildOfRc1IsAboveRc2 | action/lib.js:116-145 | v0.2.0-rc.1-5-gabc1234 reads above v0.2.0-rc.2, with v0.2.0-rc.1.0 between it and its tag |
| VersionText.LeadingZeroIsAboveBothWays | action/lib.js:144-144 | the texts 1.0.0-01 and 1.0.0-1 read as versions each above the other |
| Versions.CompareVersions | action/lib.js:126-149 | the loop with early returns computes the specified comparison |
| Versions.CompareIsPrecedence | action/lib.js:126-149 | negative exactly when below by section 11 of Semantic Versioning 2.0.0 with describe builds above their tag, zero exactly when the same |
| Versions.AtMostTransitive | action/lib.js:126-149 | at most is transitive on all versions read, strictly if either step is |
| Versions.CompareMirrorsIff | action/lib.js:144-144 | swapping the arguments turns the sign except exactly at numeric identifiers equal in value and different in text |
| Versions.PlainVersionsAreOrdered | action/lib.js:126-149 | without leading zeros the sign always turns, so the order is total |
| Versions.DescribeIsJustAfterTag | action/lib.js:126-134 | a describe build is above its tag with nothing between, and below everything of a later number |
| CliFeatures.SupportMeans | action/lib.js:151-176 | a CLI is refused exactly when it is not from source and prints a version below v0.1.0, and has a feature exactly when it is from source, prints no version, or prints one v0.1.0 is below |
| CliFeatures.FirstReleaseAndItsBuilds | action/lib.js:96-105 | v0.1.0 has neither feature and every build described from it has both |
| CliFeatures.LaterCliSupportsMore | action/lib.js:151-176 | a later CLI is not refused where an earlier one is accepted, and has all its features |
| GcPolicy.ParseGcPolicy | cmd/cloudburrow/consolebigtableedit.go:96-124 | the fields' policy or refusal, for every text |
| GcPolicy.FormatGcPolicy | cmd/cloudburrow/consolebigtableedit.go:139-190 | the fields of a stored policy, or that the form cannot hold it |
| GcPolicy.AgeReadExactlyIff | cmd/cloudburrow/consolebigtableedit.go:126-137 | every age text is read as what it means exactly when that fits 64-bit nanoseconds, refused exactly when its number does not fit, and else read as its remainder |
| GcPolicy.AgesAre | cmd/cloudburrow/consolebigtableedit.go:126-130 | the age texts are exactly the positive decimals with d, h or m, and no other text is read |
| GcPolicy.UnitsAgree | cmd/cloudburrow/consolebigtableedit.go:135-136 | n days mean 24n hours, n hours 60n minutes, and a minute sixty thousand million nanoseconds |
| GcPolicy.BothIsIntersection | cmd/cloudburrow/consolebigtableedit.go:162-180 | both limits are ticked exactly for an intersection |
| GcPolicy.LongAgeTurnsNegative | cmd/cloudburrow/consolebigtableedit.go:131-136 | 106752d is read as a negative age |
| GcPolicy.FormRoundTrips | cmd/cloudburrow/consolebigtableedit.go:96-190 | every policy the form offers to edit reads back as one that collects exactly the same cells |
| GcPolicy.OfferedIffExpressible | cmd/cloudburrow/consolebigtableedit.go:139-190 | an edit is offered exactly for no policy, one limit, or one limit of each kind, with ages in positive whole minutes |
| GcPolicy.SavedIsEditableIff | cmd/cloudburrow/consolebigtableedit.go:96-190 | what the form saved it offers to edit exactly when the age kept is a positive whole number of minutes, and the fields offered save the same collecting |
| ShellQuoting.TrimmedAwayIff | cmd/cloudburrow/consoleconnect.go:136-136 | cutting safe characters from the ends leaves nothing exactly when all characters are safe |
| ShellQuoting.LeftAloneIff | cmd/cloudburrow/consoleconnect.go:134-140 | an argument is left as it is exactly when it is not empty and all characters are safe |
| ShellQuoting.QuoteRoundTrips | cmd/cloudburrow/consoleconnect.go:134-140 | the shell reads a quoted argument as one word equal to it |
| ShellQuoting.InstanceFlags | cmd/cloudburrow/consoleconnect.go:121-132 | what is written for an instance that differs from the defaults is read by the shell, after any word, as exactly the flags and values meant |
| ShellQuoting.FlagsSplit | cmd/cloudburrow/consoleconnect.go:121-132 | after any word the flags split into exactly the flags and values meant |
| SchemaPaths.SchemaRows | cmd/cloudburrow/consolebigquery.go:367-390 | the recursion with an appended slice lists the rows in pre-order under their dotted paths |
| SchemaPaths.GovernanceTags | cmd/cloudburrow/consolebigquerygovernance.go:72-98 | the recursion that fills and merges a map computes the tags by path |
| SchemaPaths.PathsAreDistinct | cmd/cloudburrow/consolebigquery.go:367-390 | with distinct sibling names without dots no path is listed twice |
| SchemaPaths.TagsHaveRows | cmd/cloudburrow/consolebigquerygovernance.go:72-98 | every path with tags is a row's |
| SchemaPaths.TagIsShown | cmd/cloudburrow/consolebigquerygovernance.go:81-92 | every tag of a field is in its text as key and value, between the tags of the keys below it and above it |
| SchemaPaths.TagsJoinByPath | cmd/cloudburrow/consolebigquery.go:283-290 | looking tags up by a row's name gives that field's own tags, and none when it has none |

## Left out

- HTTP, gRPC, contexts, time limits and the scraper's lock: requests and replies are steps that may fail or be lost; one scrape runs at a time.
- The 64-bit wrap-around of call numbers and the text of refusals and errors: refusals are kinds.
- Bytes are characters of one byte each; upper-casing and case folding are ASCII only, where the program also folds a few other letters.
- storageChannelRelay: ordering and retry stay with the server, so little is left to state.
- The integer-range partition expression, Edit table's label patch and editedSchema: they would only add easy members.
- Time-unit partition IDs, float formatting and the console's forms and listings.
- Edit value, Add value and Remove value appear in DatastoreGuard as any change of a property; their own parsing is not modelled.
- SHA-256 and the wire form: the digest is any function of the value, and injective only where the statement says so.
- A Datastore message's shape is constant in DatastoreNodes, since Exclude from indexes writes only flags; names are sorted by a selection of the least, where the program calls its library.
- ParseVersion: numbers are exact where the program has doubles.
- Trim takes the six ASCII blanks away, where the program's libraries also take away others.
- MaxAgeGCPolicy.GetDurationString is not part of this model: FormRoundTrips holds for any rendering whose text, when it has the form's pattern, means the age; OfferedIffExpressible and SavedIsEditableIff also take it to have such text for every positive whole number of minutes.
- bigtableCellValue, the joining of a change's descriptions into one text, and the rows' cells and sizes in the two pagers.
- Nil entries in a schema's field list.
- Chunk offsets as 32-bit integers, tokens, watermarks and tiebreakers of change-stream messages; a later message's absent row and commit time are an empty text and 0.
