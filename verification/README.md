# bbrc_outreach in Dafny

A Dafny model of the BBRC outreach system, which finds authors of recent PubMed
papers and invites them by e-mail. The model covers three layers.

**The agent pipeline.** Each stage is a pure function over records:
- PubMed record parsing (`PubMed`);
- keyword search accumulation and de-duplication by PubMed id (`Discovery`);
- author profiling (`Profiling`);
- e-mail discovery in affiliation texts (`EmailDiscovery`);
- validation against the contact history (`Validation`);
- the daily-quota send loop of the outreach agent (`Outreach`).

**The Flask backend's rules.** The SQLite author table is a sequence of rows that
behaves as an upsert map keyed by e-mail (`Database`). The settings merge behind
`POST /api/config`, the served configuration, the log tail, the agent lookup and
the author sync are in `Backend`.

**The React views' state logic.** Each view is a pure function of its state:
- the author table's search, sort and pagination (`Authors`);
- the settings form (`ConfigForm`, over the `Config` shape of `Api`);
- the log viewer (`Logs`);
- the dashboard's per-agent status map (`Dashboard`);
- the campaign page (`OutreachView`).

Shared pieces:
- `Common` holds `Option` and `Result`.
- `Strings` holds Python/JavaScript `strip`/`trim`, `lower`, substring search, `split` and `join`.
- `Seqs` holds order-preserving filters and first-occurrence de-duplication.
- `Json` holds parsed JSON/YAML values with `dict.update` and `dict.pop`.
- `Polling` holds the "a successful fetch replaces, a failed one keeps" update that the views share.

I/O stays outside the model:
- What a stage reads from a file arrives as a parameter.
- What it writes is its result.
- A network call is a parameter: the PubMed search, SMTP success per session step, and the client's fetches, with `None` standing for a call that threw.

## Model

| member | source | states |
|---|---|---|
| PubMed.Affiliations | utils/pubmed_api.py:95-98 | the author's affiliations are exactly the `Affiliation` texts of its `AffiliationInfo` entries; entries without one are skipped |
| PubMed.AffiliationsAppend | utils/pubmed_api.py:95-98 | affiliations are collected in entry order |
| PubMed.ConvertAuthor | utils/pubmed_api.py:86-100 | an author is kept iff it has both `LastName` and `ForeName`; the names are copied, `email` is None, and the affiliations are those of its entries |
| PubMed.KeptAuthors | utils/pubmed_api.py:83-100 | the kept authors are the converted entries that have both names, none dropped, each with `email` None |
| PubMed.KeptAuthorsAppend | utils/pubmed_api.py:83-100 | kept authors keep their relative order |
| PubMed.PubDateFields | utils/pubmed_api.py:79-80 | `pub_date` always has two `-` separators; when no part holds a `-`, splitting it gives back Year, Month and Day, with "" for a missing one |
| PubMed.Doi | utils/pubmed_api.py:103-107 | `doi` is "" when no `ELocationID` has type doi |
| PubMed.DoiIsLast | utils/pubmed_api.py:103-107 | otherwise `doi` is the text of the last entry with type doi |
| PubMed.ParseArticle | utils/pubmed_api.py:65-121 | the parse fails iff `MedlineCitation`, `Article` or `PMID` is missing; otherwise id is the PMID and source is 'pubmed'; the title defaults to ""; the journal is the `Journal` `Title`, "" when either is missing; `pub_date` is the `PubDate` string of the article (see PubDateFields); `doi` is the doi of its `ELocationID` list (see Doi, DoiIsLast); the authors are the kept authors of its `AuthorList` (see KeptAuthors), none with an e-mail |
| PubMed.ParsedPapers | utils/pubmed_api.py:54-57 | every kept paper comes from an article that parses, and every article that parses gives its paper |
| PubMed.ParsedPapersAppend | utils/pubmed_api.py:54-58 | papers keep the order of their articles |
| PubMed.FetchDetails | utils/pubmed_api.py:50-59 | no `PubmedArticle` key gives []; otherwise the result is the parsed papers |
| Discovery.CollectAppend | agents/discovery_agent.py:35-43 | the results of later keywords follow those of earlier ones: accumulation distributes over keyword concatenation |
| Discovery.CollectOne | agents/discovery_agent.py:35-43 | one keyword contributes exactly its search results |
| Discovery.KeyOrderIsDistinct | agents/discovery_agent.py:46 | dictionary keys in insertion order are the distinct ids in first-occurrence order |
| Discovery.BuildTable | agents/discovery_agent.py:46 | the dict comprehension maps each id to the last paper collected with it, and lists its keys in first-occurrence order |
| Discovery.TableComplete | agents/discovery_agent.py:46 | once all papers are inserted, every entry is the last paper with its id |
| Discovery.Values | agents/discovery_agent.py:46 | `.values()` lists the entries in key order |
| Discovery.ValuesIds | agents/discovery_agent.py:46 | the ids of the values are the keys, in order |
| Discovery.ValueIsLast | agents/discovery_agent.py:46 | each listed value is the last paper collected with its id |
| Discovery.ValuesAreLast | agents/discovery_agent.py:46 | every listed value is the last paper collected with its id |
| Discovery.ValuesCoverIds | agents/discovery_agent.py:46 | every collected id appears in the result |
| Discovery.ValuesInFirstOrder | agents/discovery_agent.py:46 | the result is ordered by each id's first occurrence |
| Discovery.DedupById | agents/discovery_agent.py:46 | no two kept papers share an id; the set of ids is unchanged; for a repeated id the last paper is kept; the order is that of first occurrence; the count never grows |
| Profiling.FullNameParts | agents/profiling_agent.py:32-38 | with stripped parts and a last name, the full name is the last name when the first is empty, and `first + " " + last` otherwise |
| Profiling.AuthorProfile | agents/profiling_agent.py:30-51 | an author is profiled iff its stripped last name is not empty; names are stripped; affiliations come from the author (default empty); paper fields come from the paper; `emails` is empty |
| Profiling.PaperProfiles | agents/profiling_agent.py:29-51 | a paper without `authors` gives nothing; every profile carries the paper's title, id and journal and empty `emails` |
| Profiling.PaperProfilesProvenance | agents/profiling_agent.py:30-51 | every profile of a paper comes from one of its named authors, and every named author yields one |
| Profiling.PaperProfilesAppend | agents/profiling_agent.py:30-51 | authors are profiled in their order within the paper |
| Profiling.PaperProfilesCount | agents/profiling_agent.py:30-51 | a paper gives as many profiles as it has named authors |
| Profiling.ExtractAuthors | agents/profiling_agent.py:26-53 | every produced profile has an empty `emails` list |
| Profiling.ExtractAuthorsProvenance | agents/profiling_agent.py:29-51 | every profile comes from one of the papers |
| Profiling.ExtractAuthorsAppend | agents/profiling_agent.py:29-51 | output order is paper order, then author order within each paper |
| Profiling.ExtractAuthorsSkipsUnauthored | agents/profiling_agent.py:30 | a paper without `authors` contributes nothing |
| Profiling.ExtractAuthorsCount | agents/profiling_agent.py:29-51 | the output length is the number of authors, across all papers, whose stripped last name is not empty |
| EmailDiscovery.FindEmails | agents/email_discovery.py:25-28 | empty text gives []; the result has no duplicates and holds exactly the regex matches |
| EmailDiscovery.FindEmailsSound | agents/email_discovery.py:13-28 | every address found has the shape local `@` domain `.` tld, with a tld of two or more letters, and occurs in the text |
| EmailDiscovery.Found | agents/email_discovery.py:37-39 | the addresses found are exactly those found in some affiliation |
| EmailDiscovery.Enrich | agents/email_discovery.py:34-41 | only `emails` changes, and it has no duplicates |
| EmailDiscovery.EnrichEmails | agents/email_discovery.py:34-41 | the enriched set is the profile's own addresses plus those found in its affiliations; none is lost |
| EmailDiscovery.EnrichSound | agents/email_discovery.py:13-41 | every added address is e-mail shaped and occurs in one of the profile's affiliations |
| EmailDiscovery.HasEmailsIff | agents/email_discovery.py:34-47 | a profile is kept iff it had an address or some affiliation yields one |
| EmailDiscovery.ProcessProfiles | agents/email_discovery.py:30-49 | the output is no longer than the input; every output profile has at least one address and is the enrichment of an input profile; every input profile with addresses is kept |
| EmailDiscovery.ProcessProfilesAppend | agents/email_discovery.py:30-49 | profiles keep their input order |
| Validation.NormalizeShape | agents/validation_agent.py:48 | a normalised address has no upper-case letter and no surrounding whitespace |
| Validation.NormalizeDropsSeparator | agents/validation_agent.py:48 | `strip()` removes every character `str.isspace()` accepts, such as a trailing U+001F |
| Validation.NormalizeIdempotent | agents/validation_agent.py:48 | normalising twice changes nothing |
| Validation.ValidEmails | agents/validation_agent.py:46-64 | the valid list holds the normalised addresses that are non-empty, contain `@` and are not in the history, and all such addresses |
| Validation.ValidEmailsFirst | agents/validation_agent.py:46-71 | the first valid address is the normalised form of the first address that passes |
| Validation.CandidateRecord | agents/validation_agent.py:45-75 | a candidate yields a record iff one of its addresses survives (a missing `emails` means none); the record's e-mail is the first survivor; name, first name, paper title and journal are copied |
| Validation.ValidateAndDedup | agents/validation_agent.py:42-77 | there are no more records than candidates, and every record's e-mail passes the checks |
| Validation.ValidateAndDedupProvenance | agents/validation_agent.py:45-75 | every record is the record of some candidate |
| Validation.ValidateAndDedupComplete | agents/validation_agent.py:45-75 | every candidate with a surviving address is represented by its record |
| Validation.ValidateAndDedupAppend | agents/validation_agent.py:42-77 | records follow candidate order |
| Validation.RecordEmailIsFirstSurvivor | agents/validation_agent.py:66-75 | a record's e-mail is the first of its candidate's addresses that passes, normalised |
| Validation.ValidateAndDedupNormalized | agents/validation_agent.py:48-71 | every e-mail handed on is lower-case, stripped, non-empty and contains `@` |
| Outreach.Connection | agents/outreach_agent.py:47-51 | SSL on port 465 iff the configured port is 465; otherwise port 587 with STARTTLS, whatever port is configured |
| Outreach.ConnectionPorts | agents/outreach_agent.py:47-51 | only ports 465 and 587 are ever contacted |
| Outreach.GreetingName | agents/outreach_agent.py:36 | the greeting uses `first_name`, falling back to `name` when `first_name` is empty |
| Outreach.GreetingNameNonEmpty | agents/outreach_agent.py:36 | the greeting is empty only when both names are |
| Outreach.SessionSteps | agents/outreach_agent.py:46-55 | a session opens the connection, upgrades with STARTTLS iff not SSL, logs in, sends the message and quits |
| Outreach.SendEmail | agents/outreach_agent.py:31-60 | a missing `emailTemplateSubject` raises outside the `try`; otherwise the result is a boolean |
| Outreach.SendEmailDelivers | agents/outreach_agent.py:46-60 | `send_email` returns True iff every call of the session succeeds, and False on any failure |
| Outreach.AllSucceed | agents/outreach_agent.py:46-57 | the session completes iff each of its calls succeeds |
| Outreach.OutcomeAt | agents/outreach_agent.py:83-85 | entry `i` of the outcome sequence is true iff `send_email` returns True for candidate `i` |
| Outreach.SentLog | agents/outreach_agent.py:85-89 | at most one log line per candidate tried |
| Outreach.SentLogSound | agents/outreach_agent.py:85-89 | every `sent_emails.csv` line names a recipient whose mail went out |
| Outreach.SentLogComplete | agents/outreach_agent.py:85-89 | every recipient whose mail went out has its line |
| Outreach.SentLogGrows | agents/outreach_agent.py:85-89 | the log only grows as more candidates are tried |
| Outreach.LastTriedUnderQuota | agents/outreach_agent.py:78-81 | since the count only grows, reaching the last tried candidate under the limit means every earlier one was reached under it too |
| Outreach.Quota | agents/outreach_agent.py:74-81 | a limit of zero or below allows no mail; otherwise the limit is the quota |
| Outreach.RunOutreach | agents/outreach_agent.py:62-91 | an empty list sends nothing; at most `max_daily_emails` successful sends; only successes count; the log is the sent-mail log of the candidates tried, in order; every candidate handed to `send_email` was reached while fewer than `max_daily_emails` mails had gone out, so none is tried once the limit is reached; the run stops early only at the limit; a missing subject aborts the run on the first send |
| Database.Empty | backend/database.py:12-29 | the new table is empty and valid |
| Database.NewRow | backend/database.py:53-63 | the stored row takes its e-mail from the first element of `emails` and its other fields from the profile |
| Database.AddAuthor | backend/database.py:31-69 | the call succeeds iff `emails` is a non-empty list whose first entry is not empty; a rejected call leaves the table unchanged; a successful one deletes that e-mail's row and appends the new row under the next id |
| Database.AddAuthorValid | backend/database.py:53-63 | ids stay ascending and e-mails unique |
| Database.AddAuthorUpserts | backend/database.py:53-65 | by e-mail the table is a map: after success the e-mail maps to the new row and every other e-mail keeps its row, whether the call inserted or replaced |
| Database.AddAuthorSingleRow | backend/database.py:53-63 | after success exactly one row holds the e-mail, and it is the new row |
| Database.GetAllAuthors | backend/database.py:71-77 | every stored author is returned once, e-mails unique, in id order |
| Database.CsvRow | backend/database.py:85-94 | each data line has the header's six columns |
| Database.ExportRows | backend/database.py:79-96 | the six-column header comes first, then one line per stored row in order, carrying its name and e-mail |
| Json.Update | backend/app.py:124-126 | `dict.update`: incoming keys take the incoming value, and other keys keep their own |
| Json.UpdateIdempotent | backend/app.py:124-126 | updating twice with the same section is updating once |
| Json.UpdateEmpty | backend/app.py:124-126 | an empty request section changes nothing |
| Json.Remove | backend/app.py:114 | `pop` removes only the key |
| Backend.RequestKeywords | backend/app.py:112-114 | keywords are popped iff the request's discovery section holds them |
| Backend.UpdateConfig | backend/app.py:107-135 | the update fails iff a request section or its stored counterpart is not an object; on success both sections exist, a section the request leaves out stays as stored (or `{}` when there was none), other top-level keys are untouched, and the keywords file is written iff the request carried non-null keywords |
| Backend.UpdateConfigMerges | backend/app.py:119-126 | the merge is shallow: request keys overwrite, absent keys keep their stored value, and no other key appears |
| Backend.UpdateConfigPopsKeywords | backend/app.py:111-126 | request keywords never reach the settings; the stored keywords stay as they were |
| Backend.GetConfig | backend/app.py:96-105 | there is always a discovery section; keywords from the file override those in the settings; other keys are untouched; a non-object discovery with a keywords file raises |
| Backend.UpdateThenGet | backend/app.py:96-135 | after an update, the served configuration shows the merged discovery keys and the new keywords |
| Backend.GetLogs | backend/app.py:185-197 | a missing file gives the single placeholder line; otherwise the last min(n, 100) lines, in file order, each stripped |
| Backend.GetLogsStripped | backend/app.py:192-195 | every served line is stripped |
| Backend.GetLogsSlides | backend/app.py:194-195 | past a hundred lines, a new line pushes the oldest served one out |
| Backend.GetLogsShort | backend/app.py:194-195 | a file of a hundred lines or fewer is served whole |
| Backend.ScriptFor | backend/app.py:35-44 | a script is found iff the name is one of the six agents |
| Backend.AgentsDistinct | backend/app.py:35-42 | exactly six agent names, each with its own script |
| Backend.RunAgentScript | backend/app.py:33-55 | `(True, "Agent started")` for a known agent, `(False, "Unknown agent")` otherwise |
| Backend.StartAgent | backend/app.py:137-142 | 200 'started' iff the agent is known, otherwise 400 'error' with "Unknown agent" |
| Backend.SyncLoop | backend/app.py:156-159 | the count is the number of profiles `add_author` accepted, and the next id advances by it |
| Backend.SyncLoopValid | backend/app.py:156-159 | the table stays valid through the loop |
| Backend.CountIfBound | backend/app.py:156-159 | no more additions than profiles |
| Backend.SyncAuthors | backend/app.py:149-163 | no profiles file gives 404 with the table unchanged; otherwise 200 'synced' with `added` equal to the accepted count, never above the profile count |
| Api.DecodeEncode | frontend/src/services/api.ts:9-20 | a typed configuration survives its JSON form |
| Api.Decode | frontend/src/services/api.ts:9-20 | a decoded configuration has object sections `discovery` and `outreach` |
| Authors.FilterAuthors | frontend/src/components/Authors.tsx:68-72 | an author is kept iff the lower-cased term occurs in its lower-cased name, e-mail or journal; absent fields never match |
| Authors.FilterAuthorsAppend | frontend/src/components/Authors.tsx:68-72 | filtering preserves relative order |
| Authors.EmptyTermMatches | frontend/src/components/Authors.tsx:68-72 | the empty term matches exactly the authors that have one of the three fields |
| Authors.HandleSort | frontend/src/components/Authors.tsx:59-65 | the new key is the clicked one; the direction is 'desc' iff the same key was sorted ascending |
| Authors.HandleSortToggles | frontend/src/components/Authors.tsx:59-65 | a second click on the same column flips the direction; a new column starts ascending |
| Authors.StrLessIrreflexive | frontend/src/components/Authors.tsx:77-82 | no key sorts strictly before itself |
| Authors.StrLessTransitive | frontend/src/components/Authors.tsx:77-82 | string order is transitive |
| Authors.StrLessTotal | frontend/src/components/Authors.tsx:77-82 | of two different keys, one comes first |
| Authors.CompareMeaning | frontend/src/components/Authors.tsx:74-84 | the comparator is negative iff `a`'s key comes first in the chosen direction, zero iff the keys are equal, and antisymmetric |
| Authors.InOrderMeaning | frontend/src/components/Authors.tsx:74-84 | `a` may precede `b` iff `b`'s key does not strictly come first |
| Authors.StrLeqTransitive | frontend/src/components/Authors.tsx:77-82 | "not after" is transitive on keys |
| Authors.InOrderTotal | frontend/src/components/Authors.tsx:74-84 | of any two items, one may precede the other |
| Authors.InOrderTransitive | frontend/src/components/Authors.tsx:74-84 | the comparator's order is transitive |
| Authors.Insert | frontend/src/components/Authors.tsx:74-84 | inserting adds exactly the item |
| Authors.SortItems | frontend/src/components/Authors.tsx:74-84 | the sorted list is a permutation of the filtered list |
| Authors.InsertSorted | frontend/src/components/Authors.tsx:74-84 | inserting into an ordered list keeps it ordered |
| Authors.SortItemsSorted | frontend/src/components/Authors.tsx:74-84 | with a sort configuration, items are ordered by the key in the chosen direction |
| Authors.SortItemsUnsorted | frontend/src/components/Authors.tsx:75 | with no sort configuration the filtered order is kept |
| Authors.InsertStable | frontend/src/components/Authors.tsx:74-84 | insertion does not reorder items with equal keys |
| Authors.SortItemsStable | frontend/src/components/Authors.tsx:74-84 | ties keep their filtered order (stable sort) |
| Authors.TotalPages | frontend/src/components/Authors.tsx:86 | `totalPages` is ceil(n / 10) |
| Authors.SliceBound | frontend/src/components/Authors.tsx:87-90 | a slice bound clamps into the list |
| Authors.PageContents | frontend/src/components/Authors.tsx:87-90 | page p holds the items from index (p-1)*10 up to min(p*10, n): at most ten, and none past the last page |
| Authors.PageHolds | frontend/src/components/Authors.tsx:86-90 | item i is on page i/10 + 1, at position i mod 10 |
| Authors.RangeMatchesPage | frontend/src/components/Authors.tsx:248 | on an existing page, the label min((p-1)*10+1, n) to min(p*10, n) names exactly the first and last items shown |
| Authors.PageButtonsClamp | frontend/src/components/Authors.tsx:252-263 | Prev never goes below 1 and Next never above `totalPages`; from a valid page each moves by one unless at the end |
| Authors.OnSearch | frontend/src/components/Authors.tsx:135 | editing the search sets the term and resets to page 1, keeping the list and the sort |
| Authors.SearchShowsFirstPage | frontend/src/components/Authors.tsx:135 | after a search the first ten sorted matches are shown, each a stored author matching the term |
| Authors.LoadAuthors | frontend/src/components/Authors.tsx:16-27 | a successful fetch replaces the list, and a failed one keeps it |
| Authors.OnSort | frontend/src/components/Authors.tsx:148-181 | clicking a header sorts by its key and changes nothing else |
| ConfigForm.ParseKeywords | frontend/src/components/ConfigurationForm.tsx:49-50 | one keyword per comma-separated piece |
| ConfigForm.ParseKeywordsShape | frontend/src/components/ConfigurationForm.tsx:49-50 | the keyword count is the comma count plus one, each keyword is trimmed and comma-free, and empty text gives one empty keyword |
| Strings.StripLanguagesDiffer | frontend/src/components/ConfigurationForm.tsx:50 | `trim()` keeps U+001F, which Python's `strip()` removes, and removes U+FEFF, which Python keeps |
| ConfigForm.DisplayParseRoundTrip | frontend/src/components/ConfigurationForm.tsx:92-93 | parsing the ", "-joined display of a non-empty list of trimmed, comma-free keywords gives the list back |
| ConfigForm.EmptyListRoundTrip | frontend/src/components/ConfigurationForm.tsx:92-93 | an empty list displays as "", which reads back as one empty keyword |
| ConfigForm.FinalValue | frontend/src/components/ConfigurationForm.tsx:49-51 | text for `keywords` becomes the list of its pieces; other values are stored unchanged |
| ConfigForm.UpdateConfig | frontend/src/components/ConfigurationForm.tsx:46-60 | nothing happens with no configuration; otherwise only `config[section][key]` changes, and the other keys and sections stay |
| ConfigForm.EditKeywords | frontend/src/components/ConfigurationForm.tsx:46-60 | typing keywords into a well-shaped configuration changes just its keyword list, to the parsed text |
| ConfigForm.SavePayload | frontend/src/components/ConfigurationForm.tsx:28-44 | nothing is sent with no configuration; otherwise the whole configuration is sent |
| ConfigForm.SaveAfterEdit | frontend/src/components/ConfigurationForm.tsx:36 | a save after an edit carries every untouched section along: the payload is the whole object, not a diff |
| ConfigForm.LoadConfig | frontend/src/components/ConfigurationForm.tsx:16-26 | a successful fetch sets the configuration, and a failed one keeps the previous one |
| Logs.Classify | frontend/src/components/Logs.tsx:89-94 | each line gets exactly one class: red iff it contains ERROR, amber iff WARNING without ERROR, green iff SUCCESS without either, default otherwise |
| Logs.ErrorDominates | frontend/src/components/Logs.tsx:90 | a line containing ERROR is red whatever else it contains |
| Logs.WarningWithoutError | frontend/src/components/Logs.tsx:91 | WARNING without ERROR is amber |
| Logs.Render | frontend/src/components/Logs.tsx:86-94 | one row per line, numbered index + 1, with the line's class |
| Logs.RenderNumbering | frontend/src/components/Logs.tsx:88 | numbers increase without gaps, and the last is the line count |
| Logs.CopyRoundTrip | frontend/src/components/Logs.tsx:33-36 | splitting the copied text on newlines gives back the lines when none holds a newline |
| Logs.CopyEmpty | frontend/src/components/Logs.tsx:33-36 | an empty view copies as "", which splits into one empty line |
| Logs.StrippedReadLine | backend/app.py:192-195 | a stripped file line holds no newline |
| Logs.ServedLogsCopy | frontend/src/components/Logs.tsx:33-36 | the lines the backend serves always survive the copy round trip |
| Logs.FetchLogs | frontend/src/components/Logs.tsx:12-19 | a successful fetch replaces the lines wholesale, and a failed one leaves them |
| Polling.ApplyAllKeeps | frontend/src/components/Logs.tsx:12-25 | when every poll fails, the view keeps what it showed |
| Polling.ApplyAllShowsLatest | frontend/src/components/Dashboard.tsx:117-132 | after a run of polls, the view shows the last successful fetch |
| Dashboard.Shown | frontend/src/components/Dashboard.tsx:236 | an unset status shows as idle |
| Dashboard.StartDisabledIff | frontend/src/components/Dashboard.tsx:102 | the start button is disabled iff the shown status is running or error, so an errored agent cannot be restarted here |
| Dashboard.StartClicked | frontend/src/components/Dashboard.tsx:135 | starting `id` sets its status to running and leaves the other entries |
| Dashboard.StartAnswered | frontend/src/components/Dashboard.tsx:139-150 | a 'started' answer schedules a reset; any other answer or a throw sets error |
| Dashboard.ResetFires | frontend/src/components/Dashboard.tsx:142 | the scheduled reset sets the agent back to idle and touches no other agent |
| Dashboard.StartCycle | frontend/src/components/Dashboard.tsx:134-151 | an accepted start ends idle and startable once the reset fires; a rejected one ends in error and blocked |
| Dashboard.ClientStart | frontend/src/services/api.ts:51-57 | the client sees the backend's status for a 200 answer and throws on a 400 |
| Dashboard.StartFailsOnlyForUnknown | frontend/src/components/Dashboard.tsx:134-151 | against the backend, a start ends in error iff the name is not one of its agents; the three offered agents are known |
| Dashboard.FetchStats | frontend/src/components/Dashboard.tsx:117-126 | a successful fetch replaces the statistics and a failed one keeps them; loading ends either way |
| OutreachView.LoadStats | frontend/src/components/Outreach.tsx:12-22 | the initial load sets `sent` and zeroes `pending` and `failed`; a failed load keeps the initial zeros |
| OutreachView.StartOutreach | frontend/src/components/Outreach.tsx:24-44 | the status goes to running first; a 'started' answer moves it to completed, and a failed refresh after that, another answer or a throw ends in error; on success `sent` is refreshed while `pending`/`failed` come from the snapshot taken at the start |
| OutreachView.LaunchReenabled | frontend/src/components/Outreach.tsx:112-116 | launch is disabled iff the status is running: blocked while the call is in flight and free again after it ends |

## Left out

- File, YAML, JSON and CSV reading and writing, and path handling. Parsed values are datatypes, and `json.dumps`, `csv.writer` and `yaml.dump` are abstract. This covers the `load_*` helpers, `get_stats` and `load_yaml`. A YAML file that parses to nothing (`None`) is not modelled: the settings are always a mapping.
- Network and foreign calls: Entrez `esearch`/`efetch` (so `search_papers` is left out), SMTP, the DNS check `validate_domain` (disabled in the source), and the client's `fetch` calls. Their outcomes are parameters.
- EmailDiscovery.FindEmails: the regular-expression engine is not reimplemented. The matcher is a parameter, and `EmailShaped` describes what its matches look like.
- Python `set` iteration order is unspecified. The model uses first-occurrence order, and its contracts state only content and absence of duplicates.
- Profiling.AuthorProfile: a key present with a JSON `null` value, where the source calls `.strip()` on `None` and raises, is treated like a missing key. The same applies to a `null` `authors` list.
- EmailDiscovery.Enrich: a read-back profile without an `affiliations` key is not modelled; the profiling stage always writes one.
- Strings.Strip: each language's whitespace set is modelled in full (Python's `str.isspace()` set, JavaScript's `WhiteSpace` and `LineTerminator`). Case mapping is not: `Strings.Lower` lower-cases ASCII letters only, so `Validation.Normalize` leaves other letters as they are.
- Authors.Compare: characters are compared as Unicode code points. JavaScript compares UTF-16 code units, which orders characters outside the Basic Multilingual Plane (written as surrogates 0xD800-0xDFFF) before U+E000-U+FFFF; the model orders them after.
- Authors.Compare: a `null` field (an SQL NULL column such as `journal` or `paper_id`, served as JSON `null`) reads as "". JavaScript's `<` and `>` turn `null` into 0 and the other string into a number. Against "" or a numeric string such as a PMID, `null` is then ordered as 0 is, which agrees with "" except against a string whose number is 0 or less. Against any other string both comparisons are false, so the comparator calls the two equal, which breaks its consistency and leaves the order engine-defined; the model sorts `null` first there.
- Authors.SortItems: the engine's stable sort is modelled as an insertion sort. Only its observable result, an ordered and stable permutation, is claimed.
- The numeric fields of the settings form (`parseInt` and NaN) and the rendering, animation, toasts and styling of every view.
- Concurrency and timing: the agent thread and subprocess, `setInterval` polling (a run of polls is a sequence of outcomes), the dashboard's five-second `setTimeout` (an explicit `ResetFires` event) and `time.sleep` between mails.
- ConfigForm.UpdateConfig: a section that is not an object is taken to have no fields. JavaScript's `{...config[section]}` spreads a string into its characters and an array into its elements, keyed by index; only `null`, `undefined`, numbers and booleans spread to nothing. Such a section appears only when settings.yaml was written by other means, such as by hand. `update_config` only ever writes an object there or keeps what was stored (see `Backend.UpdateConfig`), but `get_config` serves a stored non-object section unchanged when there is no keywords file (see `Backend.GetConfig`).
- Backend.UpdateConfig: a non-object request section is treated as an error, although `dict.update` would accept a list of pairs and the keyword check would do a substring test on a string.
- Outreach.RunOutreach: the template text, the password and the timestamp column of `sent_emails.csv` are left out. A log line is the recipient's address.
- Database.Row: `created_at` is left out, and the affiliations are stored as the list itself rather than its JSON text.
- `GET /api/status`, `GET /api/authors`'s error path, `run_pipeline.py`, `agents/logging_agent.py`, and the layout and sidebar components hold no logic of the modelled core.
