# Scholarship discovery pipeline — a verified model of its deterministic core

The scholarship agent asks a language model to generate search queries and
researches them on the web. It extracts scholarship records from the research
text, fills gaps in those records, and appends the records to a Google Sheet.
A service layer, a command-line runner, a scheduler and two test scripts sit
around that pipeline.

This project models, in Dafny, everything in that pipeline that does not call
a language model, a search engine or a spreadsheet:

- the two quality gates and the completeness validator;
- the keyword categoriser and the deadline-to-status rule;
- the record constructor and the fifteen-column row layout;
- the two delimiter parsers (the legacy `FIELD_START:`/`FIELD_END` format and the service's summary format);
- the link gap-fill and the detail gap-fill;
- the loop-continuation rule and the wiring of the graph;
- the duplicate-suppressing sink;
- the shaping of the service's result dictionaries;
- the flag rules of the runner;
- the quality tally, the integration-test tally and the pass/fail tally of the pipeline test;
- the scheduler's weekday rotation.

The calls to the outside world are function-typed parameters (oracles):

- the language model's research and extraction;
- the web search;
- `dateutil`'s fallback date parser;
- `uuid4` and the clock;
- reaching the sheet.

The proofs are about what the code does with whatever those oracles return.

## Modules

| file | module | models |
|---|---|---|
| wrappers.dfy | Wrappers | `Option` |
| text.dfy | Text | Python's `str.strip`, `str.lower` (ASCII), `str.find`, `in`, `join`, `str(n)` |
| state.dfy | State | `ScholarshipData`, `ScholarshipCollection`, the run state and its list reducers |
| gates.dfy | Gates | the lenient and the strict gate, `is_active_scholarship`, `auto_categorize_scholarship` |
| legacy_parser.dfy | LegacyParser | `parse_legacy_scholarship_format` |
| gap_fill.dfy | GapFill | `is_generic_url`, `extract_application_url_from_text`, the two gap-fill nodes |
| sink.dfy | Sink | `save_to_google_sheets` over an in-memory sheet |
| graph.dfy | Graph | `evaluate_scholarship_research`, the edges, `finalize_scholarship_summary_json`, the wired run |
| summary_parser.dfy | SummaryParser | `_parse_scholarships_from_summary` |
| service.dfy | Service | `_scholarship_data_to_dict`, `validate_scholarship_completeness`, `discover_scholarships`, `run_daily_discovery` |
| reports.dfy | QualityReport | the quality buckets shared by the runner and both test scripts |
| integration_test.dfy | IntegrationTest | the integration test's validator, mocks and `create_test_results` |
| run_agent.dfy | RunAgent | the runner's criteria, output-file and `save_to_sheets` rules, `run_discovery`, the exit code |
| test_pipeline.dfy | TestPipeline | the pipeline test's driver |
| scheduler.dfy | Scheduler | `create_search_variations` |

Where the documentation of the system and its code disagree, the model follows
the code:

- The strict gate never looks at the application link (`Gates.StrictGateIgnoresUrl`).
- A legacy block without a Category field gets the category "General", not "Not available".
- An empty or "Not available" deadline is inactive, and only a deadline no parser accepts counts as active.
- The service's link pattern is the raw string `https?://\\S+`. It demands a literal backslash followed by capital S's, so an ordinary URL is never recorded (`SummaryParser.OrdinaryUrlIgnored`).
- The runner's `--test` flag is described as running without saving. It only chooses the plain discovery over the daily one (`RunAgent.TestModeRunsPlainDiscovery`). Both run the same wired graph, and that graph always passes through the sheet node (`Graph.WiredPipeline`), which writes whenever the sheet credentials are configured.
- The sink skips the first row of the sheet as a header even when the sheet was empty before the first save. The row written first is then taken for a header on the next run, and that record is saved again (`Sink.EmptySheetRerunDuplicates`). Re-running saves nothing once the sheet has its header row (`Sink.RerunSavesNothing`).

## Model

| member | source | states |
|---|---|---|
| Text.Trim | backend/src/agent/scholarship_service.py:554 | `strip()` leaves a result that neither starts nor ends with whitespace |
| Text.TrimEmptyIff | backend/src/agent/scholarship_service.py:554-555 | a value strips to empty exactly when it is all whitespace |
| Text.Lower | backend/src/agent/scholarship_graph.py:620 | lower-casing keeps the length and maps each character on its own |
| Text.IndexOf | backend/src/agent/scholarship_graph.py:693 | the result is the first occurrence of the pattern, or -1 when there is none |
| Text.ContainsIff | backend/src/agent/scholarship_graph.py:693 | `pat in s` holds exactly when the pattern occurs at some index |
| Text.JoinContainsParts | backend/src/agent/scholarship_graph.py:372 | each research text occurs in the combined text |
| Text.NatToString | backend/run_agent.py:145-146 | `str(year)` is a non-empty run of digits that reads back as the year |
| State.CreateNew | backend/src/agent/state.py:37-50 | the content fields are kept; the id and both timestamps come from the stamp; both audit fields are "ScholarshipAgent"; the status is "Active" |
| State.ToRow | backend/src/agent/state.py:77-93 | a data row has 15 cells in header order, holds the title in column 1, and reads back as the record |
| State.ToRowInjective | backend/src/agent/state.py:77-93 | distinct records give distinct rows |
| State.ScholarshipCollection.constructor | backend/src/agent/state.py:53-56 | a new collection is empty |
| State.ScholarshipCollection.AddScholarship | backend/src/agent/state.py:58-60 | appends at the end and keeps the earlier records |
| State.ScholarshipCollection.ToGoogleSheetsFormat | backend/src/agent/state.py:62-96 | an empty collection gives no rows; otherwise the header, then row i+1 for record i, each of 15 cells |
| State.RunState.constructor | backend/src/agent/state.py:99-108 | a run starts with its queries, empty lists, an empty collection and no optional keys |
| State.RunState.ApplyUpdate | backend/src/agent/state.py:101-103 | the three list channels are extended by concatenation; nothing else changes |
| Gates.LenientGate | backend/src/agent/scholarship_graph.py:582-615 | accepts exactly when: title and description are non-empty; the description has at least 30 characters; deadline and link are neither empty nor "Not available"; the lower-cased link holds one of the six indicators |
| Gates.AbsoluteUrlHasIndicator | backend/src/agent/scholarship_graph.py:606-608 | an http or https link always carries an indicator |
| Gates.LenientAcceptsAbsoluteUrls | backend/src/agent/scholarship_graph.py:587-615 | a complete candidate with an absolute link passes |
| Gates.StrictGate | backend/src/agent/scholarship_graph.py:914-941 | accepts exactly when: the title has at least 5 characters; the description has at least 20; the deadline is missing or starts with `\d{4}-\d{2}-\d{2}`; the provider is present |
| Gates.StrictGateIgnoresUrl | backend/src/agent/scholarship_graph.py:914-941 | the verdict does not depend on the application link |
| Gates.LenientThenStrict | backend/src/agent/scholarship_graph.py:418-428 | a candidate that passes the lenient gate reaches the sheet's bar if its title has 5 characters, its provider is present and its deadline is ISO-shaped |
| Gates.StrptimeIso | backend/src/agent/scholarship_graph.py:670-671 | `%Y-%m-%d` succeeds only on exactly ten characters naming a real date |
| Gates.StrptimeUs | backend/src/agent/scholarship_graph.py:672-673 | `%m/%d/%Y` succeeds only on exactly ten characters naming a real date |
| Gates.IsoRoundTrip | backend/src/agent/scholarship_graph.py:670-671 | parsing a date written as `YYYY-MM-DD` gives the date back |
| Gates.IsActive | backend/src/agent/scholarship_graph.py:663-682 | definition only; its properties are stated by Gates.IsActiveIsoDeadline, Gates.MissingDeadlineInactive, Gates.UnparseableDeadlineActive and Gates.StatusExamples |
| Gates.IsActiveIsoDeadline | backend/src/agent/scholarship_graph.py:663-682 | an ISO deadline is active exactly when it is after today |
| Gates.MissingDeadlineInactive | backend/src/agent/scholarship_graph.py:665-666 | an empty or "Not available" deadline is never active |
| Gates.UnparseableDeadlineActive | backend/src/agent/scholarship_graph.py:674-682 | a deadline that no parser accepts counts as active |
| Gates.StatusExamples | backend/src/agent/scholarship_graph.py:663-682 | "2099-01-01" is active and "2000-01-01" expired on any later date of this century |
| Gates.StatusFor | backend/src/agent/scholarship_graph.py:431 | the status is "active" exactly when the deadline is active, else "expired" |
| Gates.FirstMatch | backend/src/agent/scholarship_graph.py:646-660 | the result is the label of some rule, or "General" |
| Gates.FirstMatchIsFirstHit | backend/src/agent/scholarship_graph.py:646-660 | rule k wins exactly when it has a keyword hit and no earlier rule has one |
| Gates.FirstMatchDefault | backend/src/agent/scholarship_graph.py:659-660 | "General" is returned exactly when no rule has a hit |
| Gates.AutoCategorize | backend/src/agent/scholarship_graph.py:618-660 | always one of the seven labels |
| Gates.AutoCategorizeFirstHit | backend/src/agent/scholarship_graph.py:618-660 | with the categoriser's own rule order, the first category with a hit wins, and "General" means no hit |
| LegacyParser.Split | backend/src/agent/scholarship_graph.py:690 | `re.split` yields at least one piece |
| LegacyParser.SplitJoin | backend/src/agent/scholarship_graph.py:690 | joining the pieces with the marker gives the text back |
| LegacyParser.SplitPiecesFree | backend/src/agent/scholarship_graph.py:690-692 | no piece contains the start marker |
| LegacyParser.SearchField | backend/src/agent/scholarship_graph.py:697-705 | a capture is found only where the field marker occurs |
| LegacyParser.FieldRoundTrip | backend/src/agent/scholarship_graph.py:697-705 | a field written as marker, newline, value and `\nFIELD_END` is captured as that value |
| LegacyParser.FieldValue | backend/src/agent/scholarship_graph.py:711-719 | a found field gives its capture, stripped; a missing field gives the default |
| LegacyParser.FieldValueRoundTrip | backend/src/agent/scholarship_graph.py:711-719 | a well-formed field with no padding reads back unchanged |
| LegacyParser.BlockRecord | backend/src/agent/scholarship_graph.py:693-721 | a block yields a record exactly when it holds SCHOLARSHIP_END, a Title and a Description; the record is "Active" with the stamp's id; title and description are their stripped captures; amount, deadline, eligibility, requirements, link and provider are their stripped captures or "Not available"; the category is its stripped capture or "General" |
| LegacyParser.Records | backend/src/agent/scholarship_graph.py:692-721 | at most one record per block, each "Active" with a stripped title and description |
| LegacyParser.RecordOf | backend/src/agent/scholarship_graph.py:707-721 | a block contributes one record exactly when it is usable, and that record is "Active" with a stripped title and description |
| LegacyParser.RecordsSnoc | backend/src/agent/scholarship_graph.py:692-721 | each block adds its own record, if it has one, at the end |
| LegacyParser.RecordsCountUsable | backend/src/agent/scholarship_graph.py:707-721 | usable blocks each give exactly one record |
| LegacyParser.LegacyParse | backend/src/agent/scholarship_graph.py:690-726 | fewer records than pieces of the split, since the piece before the first marker is skipped |
| LegacyParser.NoStartNoRecords | backend/src/agent/scholarship_graph.py:690-692 | text without SCHOLARSHIP_START yields nothing |
| LegacyParser.ParseLegacyScholarshipFormat | backend/src/agent/scholarship_graph.py:685-726 | the loop returns exactly the records of the blocks after the first |
| GapFill.IsGenericUrl | backend/src/agent/scholarship_graph.py:773-785 | definition only; its properties are stated by GapFill.NoGenericSuffix, GapFill.NamedPathNotGeneric, GapFill.SlashAfterHost and GapFill.BareHostGeneric |
| GapFill.NoGenericSuffix | backend/src/agent/scholarship_graph.py:778-780 | a link ending in none of `/`, newline, `l`, `p` matches none of the suffix patterns |
| GapFill.NamedPathNotGeneric | backend/src/agent/scholarship_graph.py:773-784 | an https link with a slash after its host and a last character other than `/`, newline, `l` or `p` is not generic |
| GapFill.SlashAfterHost | backend/src/agent/scholarship_graph.py:781 | a link with a slash after its host is not a bare domain |
| GapFill.BareHostGeneric | backend/src/agent/scholarship_graph.py:781 | every `http://` or `https://` link whose non-empty rest has no slash is generic |
| GapFill.FirstApplyUrl | backend/src/agent/scholarship_graph.py:790-794 | the leftmost position where the application-link pattern matches, or -1 |
| GapFill.FirstHttpsUrl | backend/src/agent/scholarship_graph.py:797-799 | the leftmost position where the https pattern matches, or -1 |
| GapFill.SchemeStartsWithH | backend/src/agent/scholarship_graph.py:790 | a match starts with `h` or `H`, never with the "Not available" marker |
| GapFill.ExtractApplicationUrl | backend/src/agent/scholarship_graph.py:787-801 | gives "Not available" exactly when neither pattern matches anywhere. When an application link (case ignored) matches, the result is the leftmost one: its scheme and the whole run of link characters after it. Otherwise, when an https link matches, the result is the leftmost such link |
| GapFill.ExtractLeadingApplyUrl | backend/src/agent/scholarship_graph.py:790-794 | a text that opens with an application link yields exactly that link |
| GapFill.UrlRunEndAt | backend/src/agent/scholarship_graph.py:788 | the greedy run of link characters ends exactly at the first character that is not one |
| GapFill.FoundUrl | backend/src/agent/scholarship_graph.py:760-763 | a link is offered exactly when the search returned texts and the link extracted from the first text is non-empty and not generic; the offered link is that extracted link |
| GapFill.UrlFilled | backend/src/agent/scholarship_graph.py:738-764 | the collection keeps its length |
| GapFill.UrlFilledChangesOnlyLinks | backend/src/agent/scholarship_graph.py:738-764 | only links change; a record with a specific link is left alone; a changed link is not generic and belongs to one of the first five records needing a link |
| GapFill.UrlChangedOnlyIfSearched | backend/src/agent/scholarship_graph.py:738-751 | a changed record needed a link and fewer than five records needing one came before it |
| GapFill.UrlFilledTouchesAtMostFive | backend/src/agent/scholarship_graph.py:751 | at most five records change, all among those needing a link |
| GapFill.SearchMissingApplicationUrls | backend/src/agent/scholarship_graph.py:730-770 | the collection afterwards is the link-filled collection |
| GapFill.FillLink | backend/src/agent/scholarship_graph.py:751-764 | one step: a record needing a link is searched while fewer than five have been searched; the count grows by one exactly for such records |
| GapFill.Incomplete | backend/src/agent/scholarship_graph.py:454-469 | selects only records that lack a link, a deadline or an amount, and every such record |
| GapFill.IncompleteConcat | backend/src/agent/scholarship_graph.py:454-469 | the selection keeps collection order: it distributes over concatenation |
| GapFill.IncompleteSingle | backend/src/agent/scholarship_graph.py:457-466 | a single record is selected exactly when it lacks a link, a deadline or an amount |
| GapFill.CompleteMeansNoSearch | backend/src/agent/scholarship_graph.py:471-473 | a collection without gaps has nothing to search |
| GapFill.DetailQueryMentions | backend/src/agent/scholarship_graph.py:483 | each query names the record's title and provider |
| GapFill.QueriesFor | backend/src/agent/scholarship_graph.py:478-484 | at most three queries, three when there are three incomplete records, one per record in order |
| GapFill.CollectIncomplete | backend/src/agent/scholarship_graph.py:454-469 | the loop picks out exactly the records lacking details, in order |
| GapFill.BuildDetailQueries | backend/src/agent/scholarship_graph.py:478-484 | the loop builds exactly those queries |
| GapFill.RunDetailSearches | backend/src/agent/scholarship_graph.py:487-499 | the research texts are only extended, by the searches' texts in order; a raising search adds nothing |
| GapFill.SearchMissingScholarshipDetails | backend/src/agent/scholarship_graph.py:449-501 | only research text is appended; the records are never edited |
| Sink.Sheet.constructor | backend/src/agent/scholarship_graph.py:841 | the sheet starts with the given rows |
| Sink.Sheet.AppendRow | backend/src/agent/scholarship_graph.py:891 | one more row at the bottom |
| Sink.NormTitleIgnoresCase | backend/src/agent/scholarship_graph.py:853 | the duplicate key ignores letter case |
| Sink.TitlesOf | backend/src/agent/scholarship_graph.py:851-853 | the set holds exactly the normalised titles of the rows that have a column 1 |
| Sink.TitlesOfAppend | backend/src/agent/scholarship_graph.py:848-853 | rows added at the bottom add their titles |
| Sink.Walk | backend/src/agent/scholarship_graph.py:858-893 | saved plus skipped is the collection size; appended records come from the collection, pass the strict gate and are remembered (their order is stated by Sink.WalkStep) |
| Sink.WalkStep | backend/src/agent/scholarship_graph.py:858-893 | one more record is appended at the end, with its title remembered, when the gate accepts it against the titles seen so far; otherwise only the skipped count grows |
| Sink.WalkAppendsDistinctTitles | backend/src/agent/scholarship_graph.py:858-893 | no two appended records share a normalised title, none was on the sheet, and the set grows by exactly the appended titles |
| Sink.WalkAgainAppendsNothing | backend/src/agent/scholarship_graph.py:858-893 | once every title the walk saw is known, walking again appends nothing |
| Sink.RowsOf | backend/src/agent/scholarship_graph.py:872-888 | one row per record, in order |
| Sink.TitlesOfRows | backend/src/agent/scholarship_graph.py:850-888 | the rows written carry exactly the titles of their records |
| Sink.ExistingTitlesAppend | backend/src/agent/scholarship_graph.py:848-853 | below a header row, appended rows add their titles |
| Sink.RerunSavesNothing | backend/src/agent/scholarship_graph.py:848-893 | saving again to the sheet the first save produced saves nothing, when the sheet had its header |
| Sink.EmptySheetRerunDuplicates | backend/src/agent/scholarship_graph.py:850 | on a sheet that started empty, the record saved first is saved again on the next run |
| Sink.ReadExistingTitles | backend/src/agent/scholarship_graph.py:848-853 | the loop collects exactly the titles below the header |
| Sink.RowsOfSnoc | backend/src/agent/scholarship_graph.py:891 | appending a row extends the rows by that record's row |
| Sink.AppendAccepted | backend/src/agent/scholarship_graph.py:858-893 | the sheet grows by exactly the accepted records' rows; the two counts are the walk's |
| Sink.SaveReady | backend/src/agent/scholarship_graph.py:843-902 | with the sheet reached, the rows and the three counts are those of the walk from the existing titles |
| Sink.SaveToGoogleSheets | backend/src/agent/scholarship_graph.py:803-911 | an empty collection or a missing configuration changes nothing; a failure records the size, zero saved and the error; otherwise the walk's rows and counts |
| Graph.EvaluateResearch | backend/src/agent/scholarship_graph.py:508-522 | finishes exactly when the loop count (default 0) reaches the limit (default 2) or there are at least 3 research texts |
| Graph.EvaluateResearchMonotone | backend/src/agent/scholarship_graph.py:508-522 | more research never turns a finish back into more research |
| Graph.Path | backend/src/agent/scholarship_graph.py:956-972 | a path follows the graph's edges |
| Graph.WiredPipeline | backend/src/agent/scholarship_graph.py:956-969 | from query generation the run is finalize-json, link search, sheet, end |
| Graph.OrphansUnreachable | backend/src/agent/scholarship_graph.py:946-972 | research, reflection, the text summary and the detail search are never reached |
| Graph.ShapeCandidate | backend/src/agent/scholarship_graph.py:412-415 | the category is replaced by the categoriser's label only when empty or "Not available"; nothing else changes |
| Graph.ExtractedRecord | backend/src/agent/scholarship_graph.py:418-431 | the record holds the shaped candidate, with status "active" exactly when the deadline is active, else "expired" |
| Graph.CountPassing | backend/src/agent/scholarship_graph.py:409-411 | at most the number of candidates pass |
| Graph.AcceptedRecords | backend/src/agent/scholarship_graph.py:409-434 | one record per passing candidate, each passing the lenient gate, with a category and the deadline's status |
| Graph.AcceptedRecordsAt | backend/src/agent/scholarship_graph.py:409-434 | a passing candidate becomes, at the position counting the passing candidates before it, the new record made from it with its own stamp, shaped category and deadline status |
| Graph.AllPassingAllAccepted | backend/src/agent/scholarship_graph.py:409-434 | when every candidate passes, the records are exactly the candidates' records, in candidate order |
| Graph.InlineResearch | backend/src/agent/scholarship_graph.py:331-365 | definition only: the answers in query order with empty ones dropped, or nothing once a query raises; its properties are stated by Graph.InlineResearchNonEmpty, Graph.RaisedStaysRaised and Graph.RunInlineResearch |
| Graph.InlineResearchNonEmpty | backend/src/agent/scholarship_graph.py:330-365 | the inline research keeps at most one non-empty text per query |
| Graph.RunInlineResearch | backend/src/agent/scholarship_graph.py:330-369 | the loop fails exactly when a query raises, and otherwise returns the gathered texts |
| Graph.RaisedStaysRaised | backend/src/agent/scholarship_graph.py:332-347 | a raising query fails the whole research |
| Graph.AddAcceptedCandidates | backend/src/agent/scholarship_graph.py:409-434 | the collection is extended by exactly the accepted records, in order |
| Graph.AddAll | backend/src/agent/scholarship_graph.py:442-444 | the legacy records are appended in order |
| Graph.FinalizeScholarshipSummaryJson | backend/src/agent/scholarship_graph.py:312-446 | the node raises exactly when the inline research raises, and then changes no record; otherwise the research texts are stored and the records from the combined text are appended |
| Graph.WrittenRowsPassGate | backend/src/agent/scholarship_graph.py:866-891 | every row the sink writes has 15 cells and passes the strict gate |
| Graph.SavedRowsPassGate | backend/src/agent/scholarship_graph.py:866-891 | the rows added below the existing ones each have 15 cells and pass the strict gate |
| Graph.RunJsonPipeline | backend/src/agent/scholarship_graph.py:956-969 | a raising run writes nothing; otherwise rows are only added, each of 15 cells and passing the strict gate |
| SummaryParser.Delimited | backend/src/agent/scholarship_service.py:203 | the non-greedy `open(.*?)close` matches, leftmost first; the match is non-greedy, so no match holds the closing text; no more of them than characters |
| SummaryParser.SummaryBlocks | backend/src/agent/scholarship_service.py:203 | the blocks between SCHOLARSHIP_START and SCHOLARSHIP_END; no more blocks than characters |
| SummaryParser.BlocksHoldNoEnd | backend/src/agent/scholarship_service.py:203 | the match is non-greedy: no block holds SCHOLARSHIP_END |
| SummaryParser.NoStartNoBlocks | backend/src/agent/scholarship_service.py:203 | a text without SCHOLARSHIP_START has no blocks |
| SummaryParser.SingleBlockRoundTrip | backend/src/agent/scholarship_service.py:203 | one delimited body is read back as itself |
| SummaryParser.SimpleField | backend/src/agent/scholarship_service.py:237-251 | a found field is stripped |
| SummaryParser.SimpleFieldRoundTrip | backend/src/agent/scholarship_service.py:237-251 | a field written as marker, value and FIELD_END reads back as the stripped value |
| SummaryParser.SeparatorLenAt | backend/src/agent/scholarship_service.py:230 | a separator match starts with a space and fits in the text |
| SummaryParser.FirstSeparator | backend/src/agent/scholarship_service.py:230 | the leftmost position where a separator matches, or -1 |
| SummaryParser.SplitNameProvider | backend/src/agent/scholarship_service.py:228-235 | with a separator, title and provider are the stripped texts before and after the leftmost one; without one, the whole text is the title and the provider is empty |
| SummaryParser.SplitAtSeparator | backend/src/agent/scholarship_service.py:230-233 | a one-word name, any of the four separators in lower case, and a provider split into the name and the provider |
| SummaryParser.SeparatorAt | backend/src/agent/scholarship_service.py:230 | each separator is matched by its own alternative, with its own length |
| SummaryParser.FirstBackslashUrl | backend/src/agent/scholarship_service.py:256 | the leftmost position where the pattern as written matches, or -1 |
| SummaryParser.SourceUrl | backend/src/agent/scholarship_service.py:253-258 | the url is empty exactly when the pattern matches nowhere. Otherwise it is the leftmost match: the scheme, the backslash and the whole run of capital S after it. A recorded url starts with "http" and holds a backslash |
| SummaryParser.OrdinaryUrlIgnored | backend/src/agent/scholarship_service.py:256 | a Source URL text without a backslash records no url |
| SummaryParser.BlockDescription | backend/src/agent/scholarship_service.py:267-272 | the description is stripped, and is the whole stripped block when it has no field |
| SummaryParser.DescriptionDropsFieldSpan | backend/src/agent/scholarship_service.py:267-272 | for a block made of text without `FIELD_START:`, then a span from `FIELD_START:` to `FIELD_END`, then text without `FIELD_END`, the description is the surrounding text stripped; the span goes whatever it holds |
| SummaryParser.FieldOrEmpty | backend/src/agent/scholarship_service.py:237-251 | a field's stripped capture when it matches, "" otherwise |
| SummaryParser.NameAndProvider | backend/src/agent/scholarship_service.py:224-235 | title and provider are the split of the "Name and Provider" field when there is one, both empty otherwise |
| SummaryParser.BlockTitle | backend/src/agent/scholarship_service.py:224-265 | the title from "Name and Provider" when that gives a non-empty one, otherwise the fallback from the Name or Title field |
| SummaryParser.FirstField | backend/src/agent/scholarship_service.py:262-265 | the first field's stripped capture when it matches (even empty), else the second's, else "" |
| SummaryParser.BlockUrl | backend/src/agent/scholarship_service.py:253-258 | the url is SourceUrl of the stripped Source URL field when the block has one, and "" otherwise |
| SummaryParser.BlockToRecord | backend/src/agent/scholarship_service.py:206-272 | title and provider from the title rule and the name split; amount, deadline, eligibility and requirements from the Award Amount, Deadline, Eligibility and Application Requirements fields or ""; the url and description rules; category "General", status "active", both audit fields "scholarship-agent", both dates today |
| SummaryParser.BlockFieldsTrimmed | backend/src/agent/scholarship_service.py:228-272 | every text field of the record is stripped |
| SummaryParser.BlockUrlNeedsBackslash | backend/src/agent/scholarship_service.py:253-258 | a recorded url always holds a backslash |
| SummaryParser.UntitledBlockHasNoTitle | backend/src/agent/scholarship_service.py:260-265 | a block without Name and Title fields gets no title |
| SummaryParser.KeptRecords | backend/src/agent/scholarship_service.py:275-278 | no more records than blocks |
| SummaryParser.KeptRecordsSnoc | backend/src/agent/scholarship_service.py:275-278 | a block adds its record exactly when it has a title |
| SummaryParser.KeptRecordsFrom | backend/src/agent/scholarship_service.py:275-278 | every kept record is the titled record of some block |
| SummaryParser.AllTitledAllKept | backend/src/agent/scholarship_service.py:275-278 | when every block has a title, every block becomes a record, in order |
| SummaryParser.SummaryRecordDefaults | backend/src/agent/scholarship_service.py:206-221 | every kept record has a title and the service's defaults |
| SummaryParser.KeepTitled | backend/src/agent/scholarship_service.py:205-278 | the loop keeps exactly the titled records |
| SummaryParser.ParseScholarshipsFromSummary | backend/src/agent/scholarship_service.py:195-280 | the records of the blocks, no more than there are blocks |
| Service.ToDictRoundTrip | backend/src/agent/scholarship_service.py:512-530 | each key holds its field unchanged, so the record can be read back |
| Service.ToDictKeys | backend/src/agent/scholarship_service.py:514-530 | exactly the fifteen camelCase keys |
| Service.ToDicts | backend/src/agent/scholarship_service.py:103-122 | one dictionary per record |
| Service.MissingNames | backend/src/agent/scholarship_service.py:553-556 | only critical names are collected |
| Service.CollectMissing | backend/src/agent/scholarship_service.py:553-556 | the loop collects exactly those names |
| Service.ValidateScholarshipCompleteness | backend/src/agent/scholarship_service.py:532-570 | the problems are all the rules report, in order; valid exactly when there are none |
| Service.MissingNamesIff | backend/src/agent/scholarship_service.py:553-556 | a critical field is named exactly when it is rejected |
| Service.MissingNamesEmpty | backend/src/agent/scholarship_service.py:553-556 | no name is collected exactly when every critical field is accepted |
| Service.CriticalReportedIff | backend/src/agent/scholarship_service.py:553-556 | each critical field is reported exactly when, stripped, it is empty or a placeholder |
| Service.RuleIgnoresShortName | backend/src/agent/scholarship_service.py:558-568 | the length and link rules never add a critical name |
| Service.ChecksAddNothingIff | backend/src/agent/scholarship_service.py:558-568 | the title, description and link rules add nothing exactly when a non-empty title has 5 characters, a non-empty description 20 and the stripped link a web scheme |
| Service.CompleteIff | backend/src/agent/scholarship_service.py:542-570 | complete exactly when: every critical field is filled; the title has 5 characters and the description 20; the stripped link has a web scheme |
| Service.Discover | backend/src/agent/scholarship_service.py:75-153 | success exactly when the graph finished with a collection. On success: the records as dictionaries, the saved count defaulting to the number discovered, the skipped count defaulting to 0, the number of sources, and the criteria. On failure: no records and zero counts; the error is "No scholarships found" without a collection and the exception's message after a raise |
| Service.DailyDefaultCriteria | backend/src/agent/scholarship_service.py:399-402 | the default criteria name the year |
| Service.RunDailyDiscovery | backend/src/agent/scholarship_service.py:399-454 | on the defaulted criteria: success exactly when the graph finished with a collection, then the criteria, record count and source count are those of the run; a raising graph gives a failure carrying its message |
| Service.DailySummaryOf | backend/src/agent/scholarship_service.py:411-454 | a failed discovery gives failure with zero counts. A success copies the counts. A sample is present exactly when there are records, and it is the first two |
| Service.DailySavedDefaultsToDiscovered | backend/src/agent/scholarship_service.py:129 | without a saved count from the graph, all records count as saved |
| Service.DailyCriteriaNamesYear | backend/src/agent/scholarship_service.py:399-402 | empty criteria are replaced by the default, which names the year; other criteria are kept |
| QualityReport.RequiredFieldsEach | backend/run_agent.py:130 | a property of every required field is a property of each of the six |
| QualityReport.PresentCount | backend/run_agent.py:131 | at most six fields are present |
| QualityReport.CountGrade | backend/run_agent.py:128-138 | a grade's count is at most the number of records |
| QualityReport.ValidateDiscoveryQuality | backend/run_agent.py:124-140 | the loop's counts are the numbers of records of each grade |
| QualityReport.CountsSum | backend/integration_test.py:116-132 | the three buckets add up to the number of records |
| QualityReport.GradeThresholds | backend/test_json_pipeline.py:119-124 | high exactly at 5 or more present fields, medium at 3 or 4, low below |
| QualityReport.PresentCountAll | backend/run_agent.py:130-131 | all six are counted exactly when all six are present |
| QualityReport.AllPresentIsHigh | backend/run_agent.py:131-134 | a record with all six fields present grades high |
| IntegrationTest.Pad3 | backend/integration_test.py:67 | a number under 1000 is written as three digits |
| IntegrationTest.Pad3Value | backend/integration_test.py:67 | the three digits read back as the number |
| IntegrationTest.TestIdsDistinct | backend/integration_test.py:64-67 | different positions get different ids |
| IntegrationTest.Enhance | backend/integration_test.py:64-82 | one dictionary per mock, in order |
| IntegrationTest.Keep | backend/integration_test.py:84-89 | keeps only accepted elements, in their order |
| IntegrationTest.KeepAll | backend/integration_test.py:84-89 | when all are accepted, all are kept |
| IntegrationTest.CreateTestResults | backend/integration_test.py:48-91 | success; discovered is the mock count; the list is exactly the passing mocks in order; saved plus skipped is the mock count |
| IntegrationTest.CandidatePasses | backend/integration_test.py:93-114 | a mock with no blank key field, long enough title and description and a web link passes |
| IntegrationTest.ValidQuality | backend/integration_test.py:93-114 | definition only; its properties are stated by IntegrationTest.WellFormedPasses, IntegrationTest.ValidIsComplete and IntegrationTest.ValidIsHighQuality |
| IntegrationTest.WellFormedPasses | backend/integration_test.py:93-114 | a well-formed mock with a secure link passes |
| IntegrationTest.StemWellFormed | backend/integration_test.py:13-23 | the first mock is well formed |
| IntegrationTest.ArtsWellFormed | backend/integration_test.py:24-34 | the second mock is well formed |
| IntegrationTest.TechWellFormed | backend/integration_test.py:35-45 | the third mock is well formed |
| IntegrationTest.WellFormedAllKept | backend/integration_test.py:84-89 | well-formed mocks with secure links are all kept |
| IntegrationTest.AllMocksSaved | backend/integration_test.py:12-89 | all three mocks pass, so all are kept, in order |
| IntegrationTest.IntegrationPasses | backend/integration_test.py:308-315 | definition only; IntegrationTest.RunIntegrationTest states that the script's own run passes |
| IntegrationTest.RunIntegrationTest | backend/integration_test.py:264-315 | the script saves 3, skips 0 and reports a pass |
| IntegrationTest.StrippedLinkKeepsScheme | backend/integration_test.py:110-111 | stripping a link with a web scheme keeps the scheme |
| IntegrationTest.ValidIsComplete | backend/integration_test.py:93-114 | a record this validator accepts is complete for the service's validator, unless a field reads "not specified" |
| IntegrationTest.NotAvailableBlank | backend/integration_test.py:98-99 | "Not available" reads as blank |
| IntegrationTest.FilledIsPresent | backend/integration_test.py:122-123 | a field that is not blank counts as present |
| IntegrationTest.ValidIsHighQuality | backend/integration_test.py:93-132 | a record the validator accepts grades high |
| RunAgent.DefaultSearchCriteria | backend/run_agent.py:143-146 | the default criteria end with the year |
| RunAgent.PlanRun | backend/run_agent.py:191-201 | a given search is used, otherwise criteria ending in the year. `save_to_sheets`, which selects the daily discovery, holds exactly without `--no-sheets` and `--test`. A file is written exactly when `--output` is given or the run is daily, and it is the given one when given |
| RunAgent.RunDiscovery | backend/run_agent.py:43-121 | an exception becomes an error result; the daily discovery runs exactly when saving; success exactly when no exception and the graph finished with a collection |
| RunAgent.MainExitCode | backend/run_agent.py:185-215 | the exit code is 0 or 1 |
| RunAgent.ExitZeroIff | backend/run_agent.py:185-215 | exit 0 exactly when the key is configured, nothing raised, and the graph finished with a collection |
| RunAgent.TestModeRunsPlainDiscovery | backend/run_agent.py:71-76 | `--test` takes the plain discovery on the planned criteria, never the daily one |
| RunAgent.DailyWritesTimestampedFile | backend/run_agent.py:195-198 | a daily run without `--output` writes the timestamped file |
| TestPipeline.CountTrue | backend/test_json_pipeline.py:248 | no more passes than tests |
| TestPipeline.CountTrueAll | backend/test_json_pipeline.py:248-257 | all tests passed exactly when the count equals the total |
| TestPipeline.RunTests | backend/test_json_pipeline.py:204-262 | one recorded result per test, in order, a raising test recorded as False; passed counts the true results; exit 0 exactly with the environment ready and every test returning true |
| Scheduler.Variations | backend/scheduler.py:46-55 | seven criteria, each ending with the year |
| Scheduler.SearchVariation | backend/scheduler.py:57-59 | the chosen criteria end with the year |
| Scheduler.WeekdaysDistinct | backend/scheduler.py:47-59 | different weekdays get different criteria |
| Scheduler.WeeklyRotation | backend/scheduler.py:59 | the rotation repeats every seven days |

## Left out

- The language model's query generation, research, reflection and structured extraction, and the web search itself: these are foreign calls, modelled as oracle parameters (`research`, `extract`, `search`, `run`). Whatever they return is taken as given.
- Citation resolution (`resolve_urls`, `get_citations`, `insert_citation_markers`): that helper module is not part of this model. A research answer is the text the oracle returns.
- Google Sheets credentials, `gspread`, the backend HTTP API (`save_scholarships_via_api`) and the sheet's own formatting calls: these are I/O. The sheet is an in-memory sequence of rows, and reaching it is a `SheetAccess` parameter.
- An exception raised by the sheet in the middle of the batch, after some rows were appended, is not modelled. A failure is modelled only as a failure to reach the sheet.
- `dateutil`'s fallback parser is the `fallback` parameter. The current date is the `today` parameter. The service parser reads the clock twice per record (created and modified date); `SummaryParser.BlockToRecord` takes both as one `today`, so the two dates never differ across midnight. `uuid4` and `utcnow` are supplied as a `Stamp` per record. The test scripts' clock is the `clock` parameter, and the two clock readings per mock record are taken as one value.
- Durations, success-rate percentages and the quality score: these are floating point and are not modelled.
- The reports printed by the service (`generate_discovery_report`) and the integration test (`generate_comprehensive_report`), and every `print` and log line: output only.
- `simulate_google_sheets_integration` and `test_audit_logging` in the integration test: simulated output only.
- Writing the output file and the JSON dump: I/O. `RunAgent.RunDiscovery` models only an exception from those steps, as `fault`.
- The prompts, the enhanced reflection branch (it always falls back) and the migration script: they hold no logic of the pipeline.
- The scheduler's loop and sleep, `argparse`, `.env` loading and environment checks: plumbing. The parsed flags are an `Args` value. The API key is a boolean `apiKeyConfigured`. The pipeline test's environment setup is a boolean `envReady`. Each test's outcome is a function of its name.
- The unreachable code after the `return` statements in `discover_scholarships` and `run_daily_discovery`: it can never run.
- LangGraph's own reducer bookkeeping: a node that returns the whole state would have its lists concatenated with themselves. The model applies each update once, as the reducers describe.
- `State.RunState.ApplyUpdate`: the `messages` channel (`add_messages`) is not modelled; only the three concatenated lists are.
- Text.Lower: lower-cases ASCII letters only. `re.IGNORECASE` is modelled the same way. Python's Unicode case mapping and its Unicode `\d` are not modelled.
- GapFill.SearchMissingApplicationUrls: `modified_date` is not bumped when a link is replaced, as in the code.
- Service.ToDictKeys: the key set is stated as set equality with the fifteen keys; Python's dictionary order is not modelled.
- Service.DailySummaryOf: the `save_error` key is not copied into the daily summary. `discover_scholarships` never returns that key, so it could never reach the summary.
- Service.Discover: the `sources` list is kept only as its length, which is all the daily summary reads (`sources_count`), and the report's timestamp is not modelled.
- Dictionary values are strings. A Python record dictionary whose values are not strings (`None`, numbers) is not modelled.
- The mock records' links are written as "https://" followed by the rest of the link, which is the same string value.
- The `ScholarshipCollection.metadata` dictionary is never read or written by the core, and is left out.
