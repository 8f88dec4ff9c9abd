# Dashboard backend core, modelled in Dafny

The backend mirrors issues from a Jira-like tracker into a snapshot workbook.
The workbook has four sheets, one per category: Target, Pass, Fail and
Unresolved. A small web service serves per-interface counts and case lists
from that workbook. This project models the deterministic rules under the
HTTP and Excel plumbing, and proves properties of them:

- **Filter registry** (`backend/filters.py`, module `Filters`).
  - Exact-name lookup.
  - JQL update in place.
  - Creation.
  - The idempotent create-or-update. A second call with the same name finds the filter the first call found or created. When the name was free before the first call and updates work, that filter is the only one of that name and holds the second JQL.
- **Category filter setup** (`backend/prog.py`, module `FilterSetup`).
  - Which of Target, Pass, Fail and Unresolved a project gets, and the JQL of each.
  - Reuse of a filter whose name already exists.
  - The fallback of `create_filter` to a name lookup.
  - Running the setup twice creates nothing new, and records the same ids when the search answers.
- **Rows and snapshot** (`backend/prog.py`, module `Issues`).
  - Platform and interface classification of labels: the last platform label wins, and the first other label wins.
  - Row defaults.
  - Which sheets `main` writes, and the failed save when no category has rows.
- **Permissions** (`backend/roles.py`, module `Roles`).
  - Role-id lookup.
  - The viewer and editor payloads.
  - First-match-only single removal.
  - The remove-all loop, which terminates because the list of grants shrinks on every pass.
- **Snapshot cache and queries** (`backend/app.py`, module `Snapshot`).
  - The load as a transition of the cache: success replaces it, a missing or refused file falls back to it, and any other error leaves it alone.
  - The platform summary and the three case listings.
- **Status files** (`backend/status.py`, module `StatusSync`).
  - Parsing `KEY_Status.txt` names.
  - Picking the first transition whose destination matches case-insensitively.
  - Deleting every attachment before uploading the file.
  - The requests come in phase order.
  - When several files name one issue, the last file processed is that issue's last attachment.
- **Writer meets reader** (module `Pipeline`). `main` writes only the sheets of categories that have rows. A project whose workflow lacks, say, a "Fail" status therefore produces a workbook the reader refuses, and the cache keeps its previous tables. When no category has rows, the save itself fails and leaves a truncated file, which the reader also refuses.

The tracker is an explicit state value:

- the filters and the next id;
- the grants of a filter;
- the issues with their transitions and attachments.

The tracker itself is not part of the source. For the filter endpoints
the model assumes the following, in module `Tracker`:

- A filter search that answers lists the stored filters whose name contains
  the query, ignoring case. It lists them in store order, which is creation
  order, and in one unpaged reply. The real tracker pages this search and
  orders it by name. So "the first exact match" in the model is the
  earliest-created filter of that name.
- Creating a filter under a taken name is refused with 400 and a text
  containing "A filter with this name already exists".
- Creating a filter under a free name stores it under the next id and
  answers 201 with that id.
- Updating the JQL of an existing filter replaces it and answers 200; an
  unknown id answers 404.
- A `Health` value says whether search answers, whether creation of a
  free name works, and whether an update of an existing filter works. A
  failing endpoint answers 500 and changes nothing.

So the failure paths of the source are reachable in the model:

- the `KeyError` of `backend/filters.py` when the reply has no id;
- the update of `backend/filters.py` that is refused, logged, and leaves
  the filter as it was;
- the `None` that `create_filter` in `backend/prog.py` returns.

The other write endpoints have no failure input. The model assumes that
each of them does what it is asked:

- deleting a share permission (`backend/roles.py`);
- posting a transition (`backend/status.py`);
- uploading an attachment (`backend/status.py`).

The source never reads those replies. Deleting an attachment is the one
exception: the tracker state holds the set of attachments whose deletion
it refuses.

The cache is a value passed in and returned. Helper modules:

- `Wrappers` holds `Option` and `Result`.
- `Text` holds the Python string operations used, on ASCII.
- `Seqs` holds first and last index, selection and counting.
- `Categories` holds the four categories.
- `Tracker` holds the tracker's filter endpoints.

Three behaviours of the code are worth stating plainly:

- `main` writes a sheet only for a category whose filter yields rows.
- `remove_all_viewers` retries without bound.
- Rows without an interface form no group in the summary, because pandas drops empty group keys.

## Model

| member | source | states |
|---|---|---|
| Filters.FindFilterByName | backend/filters.py:26-34 | None on a non-200 reply or when no name matches; otherwise the id of the first entry whose name is exactly the given one |
| Filters.Lookup | backend/filters.py:26-34 | when the search answers, the id of the first stored filter with exactly that name, found through the tracker's case-insensitive substring search; when it does not answer, None |
| Filters.UpdateFilterJql | backend/filters.py:36-43 | when updates work, only the JQL of the filter with that id changes, and ids, names, descriptions, favourite flags and every other filter stay; a refused update, for an existing id too, changes nothing and does not fail |
| Filters.CreateFilter | backend/filters.py:14-24 | succeeds exactly when the name is free and creation works, appending one non-favourite filter with the given name, JQL and description under the next id; otherwise reading the reply's id fails with `KeyError: 'id'` |
| Filters.CreateOrUpdateFilter | backend/filters.py:45-50 | a name the search finds has its first filter's JQL replaced in place under the same id and nothing is created; a free name gets exactly one new filter with the default description "Created via API"; when the update is refused the call still succeeds and nothing changes; the call fails with `KeyError: 'id'` exactly when it must create and the tracker refuses: a free name whose creation does not work, or a taken name the search could not find |
| Filters.CreateOrUpdateConverges | backend/filters.py:45-50 | after a first call succeeds, a second call with the same name succeeds exactly when the search answers and then finds the same first filter; with updates that work, that filter holds the second JQL, is the only filter of that name when the name was free, and every other filter is as it was; with updates refused, the second call changes nothing |
| Filters.ConvergesFromAbsent | backend/filters.py:45-50 | from a free name the first call appends the filter and the second call updates that same appended filter |
| Filters.UpdateKeepsFirst | backend/filters.py:45-48 | an update in place keeps the name finding the same position |
| Tracker.SearchFindsFirst | backend/prog.py:30-38 | when the search answers, it lists the filter the name finds first, so exact matching over the search result finds the same id as over the whole store |
| FilterSetup.FindFilterIdByName | backend/prog.py:30-38 | None on a non-200 reply, and on a 200 reply exactly when no entry has the name; otherwise the id of the first exact, case-sensitive match |
| FilterSetup.CreateFilterOutcome | backend/prog.py:50-59 | the new id on 201; on a duplicate-name 400 and on every other failure, whatever the name lookup finds |
| FilterSetup.CreateFilter | backend/prog.py:40-59 | a free name with working creation is stored and answered with the new id; a taken name (the 400 duplicate branch) changes nothing and answers what the lookup finds, which is nothing when the search does not answer; a free name whose creation fails changes nothing and answers None |
| FilterSetup.EnsureFilter | backend/prog.py:73-83 | a taken name changes nothing and records what the lookup finds, or nothing when the search does not answer; a free name gets one new filter with the given JQL and description when creation works, and otherwise nothing |
| FilterSetup.EnsureFilterRecords | backend/prog.py:73-83 | filters are only appended, and only when creation works; a returned id is the one the name finds first; with an answering search the result is exactly what the name finds first; with working creation the name then finds a filter |
| FilterSetup.EnsureFilterInstalls | backend/prog.py:73-79 | a free name with working creation then finds a filter holding exactly the JQL and description it was created with |
| FilterSetup.CategoryFilterNamesDistinct | backend/prog.py:86-88 | the filter names of different categories differ |
| FilterSetup.UnresolvedStatuses | backend/prog.py:104 | exactly the statuses among "To Do" and "In Progress" that the project has, in that order |
| FilterSetup.SelectedCategories | backend/prog.py:83-119 | Target always; Pass or Fail exactly when the project has a status of exactly that name; Unresolved exactly when it has "To Do" or "In Progress" |
| FilterSetup.SetupSteps | backend/prog.py:71-119 | the steps record exactly the selected categories |
| FilterSetup.SetupStepsShape | backend/prog.py:71-108 | Target comes first with the plain project JQL, the categories come in the order Target, Pass, Fail, Unresolved, Pass and Fail are narrowed to their own status in JQL and description, and Unresolved to the OR of its statuses, with a description listing them |
| FilterSetup.StatusStep | backend/prog.py:86-102 | Pass or Fail gets a step exactly when the project has that status |
| FilterSetup.EnsureCategory | backend/prog.py:88-100 | records the category as the tracker allows and keeps every earlier record valid and unchanged; only appends filters; creates nothing when the name finds a filter or creation does not work; records nothing for a taken name when the search does not answer; records the new filter's id for a free name when creation works, whether or not the search answers |
| FilterSetup.EnsureSteps | backend/prog.py:61-123 | records exactly the earlier categories plus the steps' categories, leaves the other earlier records as they were, each record as the tracker allows in the final store; filters are only appended, and never when creation does not work |
| FilterSetup.EnsureStepsReuses | backend/prog.py:90-100 | steps whose filter names all find filters create nothing |
| FilterSetup.EnsureStepsSearchDown | backend/prog.py:90-100 | when the search does not answer, a category whose filter name already existed is recorded with nothing |
| FilterSetup.EnsureStepsCreates | backend/prog.py:90-100 | with working creation and no category named twice, a category whose filter name was free is recorded with an id, the one `create_filter` took from its 201 reply, even when the search does not answer |
| FilterSetup.EnsureStepsInstalls | backend/prog.py:71-119 | with working creation, the first step of each category whose filter name was free leaves a filter that name finds, holding that step's JQL and description |
| FilterSetup.EnsureSelectedStatusFilters | backend/prog.py:61-123 | records exactly the selected categories, each as the tracker allows; filters are only appended, and never when creation does not work |
| FilterSetup.EnsureSetupInstalls | backend/prog.py:71-119 | with working creation, each selected category whose filter name was free gets the filter that name finds, holding its step's JQL and description: the plain project JQL for Target, the status-narrowed JQL for Pass and Fail, and the OR of the present unresolved statuses for Unresolved |
| FilterSetup.EnsureReusesExisting | backend/prog.py:73-83 | with a tracker that searches and creates, every recorded category holds an id; with an answering search, a filter whose name already existed is reused with its existing id; without one, such a category holds nothing; with working creation, a category whose name was free holds the id its name now finds, whether or not the search answers; without working creation, nothing is created and each category holds what its name finds, or nothing |
| FilterSetup.UnresolvedFilterText | backend/prog.py:104-114 | the Unresolved JQL and description list exactly the unresolved statuses present, "To Do" before "In Progress", and there is no Unresolved entry when neither is present |
| FilterSetup.EnsureIdempotent | backend/prog.py:71-119 | running the setup again on its own result changes no filter, and with an answering search records the same ids |
| Issues.LastPlatformIndex | backend/prog.py:149-152 | the position of the last label whose trimmed, upper-cased form is a platform, or None when there is none |
| Issues.PlatformOf | backend/prog.py:147-152 | the platform is "" or one of JTAMP, JTAES, JTAEN and SVB |
| Issues.FirstIpIndex | backend/prog.py:148-154 | the position of the first label that fills the interface slot, or None when there is none |
| Issues.IpOf | backend/prog.py:153-154 | the interface is "" exactly when no label qualifies |
| Issues.IpOfAppend | backend/prog.py:153-154 | one more label keeps an interface already found, and otherwise takes that label if it qualifies |
| Issues.PlatformOfAppend | backend/prog.py:150-152 | one more label replaces the platform when it is a platform label, and keeps it otherwise |
| Issues.ClassifyLabels | backend/prog.py:146-154 | the label loop ends with the last platform label, cleaned, and the first interface label, in its original spelling |
| Issues.BuildRow | backend/prog.py:155-164 | key and filter name copied; platform and interface from the labels; a missing or empty due date becomes "Not Set"; a missing resolution becomes "Unresolved", a resolution without a name becomes "" |
| Issues.RowLabels | backend/prog.py:147-160 | a row's interface is never a platform or status label, comes from the labels, and is empty exactly when no label qualifies |
| Issues.PlatformIgnoresSpelling | backend/prog.py:150-152 | the platform depends only on the trimmed, upper-cased labels |
| Issues.FetchIssuesForFilter | backend/prog.py:125-165 | no rows when the filter cannot be fetched; otherwise the i-th row is the row built from the i-th issue, tagged with the filter's name |
| Issues.WriteSheet | backend/prog.py:172-175 | a category's sheet is written exactly when its rows are not empty, and other sheets stay |
| Issues.WriteSnapshot | backend/prog.py:167-175 | the save fails with openpyxl's "At least one sheet must be visible" exactly when no category yields rows; otherwise the workbook holds the written sheets |
| Issues.WriteSnapshotSheets | backend/prog.py:170-174 | a category gets a sheet exactly when its filter yields rows; that sheet holds exactly those rows, and no other sheet exists |
| Snapshot.FirstMissing | backend/app.py:20-24 | None exactly when all four sheets exist; otherwise the first missing sheet in the order Target, Pass, Fail, Unresolved |
| Snapshot.Tag | backend/app.py:26-29 | every record of a sheet tagged with that sheet, order and contents kept |
| Snapshot.Load | backend/app.py:18-44 | a complete workbook replaces the cache and is returned; a missing sheet or another error fails with its message and leaves the cache; a missing or refused file answers from the cache, or fails with "Test case data unavailable and cache is empty" |
| Snapshot.Fallback | backend/app.py:36-41 | never changes the cache |
| Snapshot.ReadBySheet | backend/app.py:26-35 | the merged table is the Target, Pass and Fail rows, each group exactly its sheet in order, and the Unresolved table holds only Unresolved rows |
| Snapshot.FallbackAfterLoad | backend/app.py:33-41 | after a successful load, a missing or refused file answers with exactly the tables of that load |
| Snapshot.ColdStartNotFound | backend/app.py:36-41 | before any load, a missing file fails with the empty-cache message |
| Snapshot.InPlatform | backend/app.py:54 | exactly the rows whose platform cell is the given platform |
| Snapshot.InPlatformSelects | backend/app.py:54 | the platform mask keeps the rows of that platform in their order, each once, and as many rows as have that platform |
| Snapshot.TargetIps | backend/app.py:55 | exactly the interfaces of Target rows |
| Snapshot.PlatformSummary | backend/app.py:54-63 | one summary line exactly for each interface with a Target row on the platform, and each such line counts at least one Target row |
| Snapshot.ModuleData | backend/app.py:47-65 | the one-pass count over the masked rows equals the summary |
| Snapshot.CollectTargetIps | backend/app.py:55 | the loop collects exactly the Target interfaces |
| Snapshot.CountByInterface | backend/app.py:58-63 | one line per interface, counting its rows from each sheet and its rows whose resolution is exactly "Unresolved" |
| Snapshot.Number | backend/app.py:99-107 | one case per row in order; a missing summary or status becomes ""; numbers are digit strings |
| Snapshot.NumberedFromOne | backend/app.py:100-104 | the i-th case is numbered i+1, so numbers are distinct |
| Snapshot.ByPlatform | backend/app.py:74-77 | an empty platform argument keeps every row; otherwise only that platform's rows |
| Snapshot.CaseRows | backend/app.py:74-97 | nothing unless the interface is, exactly, a Target interface. Otherwise the order-keeping selection of: the Unresolved table's rows of the interface for "unresolved" in any case; the Target rows of the interface for "target"; for any other status the rows of the interface whose lower-cased Filter contains it. Interfaces match trimmed and case-insensitively |
| Snapshot.ModuleTestcases | backend/app.py:67-108 | the numbered case rows; an interface outside the Target interfaces gets an empty listing, and for "target" and "unresolved" the listing has one case per row of the interface in the Target rows or in the Unresolved table |
| Snapshot.AllTestcasesForIp | backend/app.py:110-131 | the numbered, order-keeping selection of the merged rows whose interface is exactly the given one, one case per such row |
| Snapshot.UnresolvedTestcasesForIp | backend/app.py:145-166 | the numbered, order-keeping selection of the merged rows of that interface whose resolution is exactly "Unresolved", one case per such row |
| Snapshot.UnresolvedListingMatchesSummary | backend/app.py:145-166 | the unresolved listing of an interface is as long as the summary's unresolved count |
| Snapshot.TargetListingMatchesSummary | backend/app.py:83-92 | for an interface that needs no trimming or case folding, the Target listing is as long as the summary's Target count |
| Roles.Str | backend/roles.py:81-83 | a present id renders as itself and a missing one as "None" |
| Roles.GetProjectRoleId | backend/roles.py:29-42 | None on a non-200 reply, and on a 200 reply exactly when no role name matches ignoring case; otherwise the last link segment of the first matching role |
| Roles.LastSegmentOfRoleLink | backend/roles.py:39 | a link `base/id` with or without a trailing "/" yields `id` |
| Roles.LastPieceOfSplit | backend/roles.py:39 | the last piece of splitting `a/b` is `b` when `b` has no "/" |
| Roles.ViewerPayload | backend/roles.py:54-62 | type "projectRole" with the project and role ids and no view or edit flags |
| Roles.EditorPayload | backend/roles.py:64-74 | the same share with view and edit set to true |
| Roles.EditorExtendsViewer | backend/roles.py:54-74 | the editor payload is the viewer payload plus the two flags |
| Roles.TypeOf | backend/roles.py:117 | reading a type string gives a type whose spelling is that string, and an other type is never one of the five named spellings |
| Roles.TypeOfName | backend/roles.py:117 | the five named types and any other type string never collide |
| Roles.Listing | backend/roles.py:45-51 | the grants, or none when listing fails |
| Roles.Delete | backend/roles.py:86-87 | removes exactly the grants with that id |
| Roles.DeleteAt | backend/roles.py:85-89 | with distinct ids, deleting a grant's id removes exactly that one grant |
| Roles.EditorMatchIsViewerMatch | backend/roles.py:79-103 | every grant the editor test accepts, the viewer test accepts too |
| Roles.RemoveEditorPermission | backend/roles.py:76-90 | with a listing, the first grant with type "project", a "role" key and matching ids as strings is deleted and nothing else; no match or no listing changes nothing |
| Roles.RemoveEditorCount | backend/roles.py:76-90 | with a listing and at least one matching grant, one grant fewer remains and exactly one fewer matches; otherwise nothing changes |
| Roles.RemoveViewerPermission | backend/roles.py:94-109 | the loop stops at the first grant that lacks a "type" or matches without requiring the "role" key: a match there is deleted and nothing else; a missing "type" there raises having deleted nothing; no stop or no listing changes nothing |
| Roles.RemoveViewerCount | backend/roles.py:94-109 | a removal that succeeds on a listing with a matching grant leaves one grant fewer and exactly one fewer match |
| Roles.RunFilters | backend/roles.py:112-125 | without an entry lacking a "type", the grants left are exactly the kept ones in order and the deleted count is the number of deletable ones; otherwise the loop raises at the first such entry |
| Roles.RunRaises | backend/roles.py:116-117 | a run that raises stops at the first entry without a "type" |
| Roles.RemoveAllViewers | backend/roles.py:112-125 | deletes exactly the grants of the five listed types, one per pass, and never any other; no listing means nothing is deleted; an entry without a "type" raises after the deletable grants before it are gone |
| StatusSync.ParseFilename | backend/status.py:60-65 | only names ending in ".txt" are processed |
| StatusSync.ParseFilenameAccepts | backend/status.py:61-63 | a name is processed exactly when it ends in ".txt" and holds exactly one "_" |
| StatusSync.ParseFilenameKey | backend/status.py:62-64 | the key is everything before the one "_" and holds no "_" |
| StatusSync.ParseFilenameRoundTrip | backend/status.py:61-65 | `KEY_Status.txt` reads back as that key and status when neither holds "_" and the status holds no "." |
| StatusSync.TransitionIndex | backend/status.py:17-19 | the position of the first transition whose destination matches ignoring case, or None |
| StatusSync.GetTransitionId | backend/status.py:11-20 | None exactly when no transition matches; otherwise the id of the first matching one |
| StatusSync.GetTransitionIdIgnoresCase | backend/status.py:18 | the lookup does not depend on the case of the target |
| StatusSync.TransitionIssue | backend/status.py:22-31 | no request and no change when no id or an empty id is found; otherwise one transition request and the issue moves to a status matching the target ignoring case, nothing else changing |
| StatusSync.DeleteAllAttachments | backend/status.py:33-45 | one delete request per attachment, in order; the attachments left are exactly the refused ones |
| StatusSync.AttachFile | backend/status.py:47-57 | the deletes come before the upload, which is the last request; the file becomes the issue's last attachment after the refused old ones |
| StatusSync.ProcessFile | backend/status.py:60-69 | a name that does not parse changes nothing and sends nothing; otherwise only its issue changes |
| StatusSync.ProcessFileRequests | backend/status.py:68-69 | every request of a processed file is about its issue, the transition comes before the attachment work, and the upload is last |
| StatusSync.ProcessFileAttachments | backend/status.py:38-56 | the issue's attachments are the refused old ones followed by the file, and only the file when nothing was refused |
| StatusSync.ProcessFileUploadsLast | backend/status.py:47-57 | the file just processed is its issue's last attachment |
| StatusSync.ProcessFiles | backend/status.py:59-69 | processing keeps the set of issues |
| StatusSync.ProcessFilesUntouched | backend/status.py:59-69 | an issue no name refers to is left as it was |
| StatusSync.ProcessFilesAppend | backend/status.py:60 | processing two runs of names one after the other is processing them together |
| StatusSync.ProcessFilesLastWins | backend/status.py:59-69 | the last file naming an existing issue is that issue's last attachment at the end |
| StatusSync.ProcessFilesSkips | backend/status.py:60-63 | names that do not parse send nothing and change nothing |
| Pipeline.EmptyCategoryKeepsCache | backend/prog.py:170-175 | a category without rows gets no sheet, so loading the written file fails and the cache is left as it was, whether the save succeeded or failed |
| Pipeline.NothingFetchedKeepsCache | backend/prog.py:170-175 | when no category yields rows the save fails, and loading the truncated file fails with the reader's message and keeps the cache |
| Pipeline.FullSnapshotLoads | backend/app.py:20-31 | when every category has rows, the written workbook loads; the merged table holds no Unresolved row and its rows of each other category are exactly that category's written rows read back, in order; the Unresolved table is exactly the written Unresolved rows read back |
| Pipeline.NaInterfaceVanishes | backend/app.py:21-24 | an interface label that pandas reads as a missing value, such as "NA", is never a Target interface of the loaded rows, so the summary has no line for it |

## Left out

- HTTP, authentication, URL building and environment loading. Every tracker reply is a parameter, or comes from the abstract tracker state.
- Flask routing and JSON responses, including the 503 on a load error. These are plumbing around the modelled functions.
- Excel reading and writing. A sheet is a sequence of records. A written cell that is empty, or one of the strings pandas reads as a missing value by default, reads back as an empty cell. The message the reader gives for a truncated file is a parameter.
- The cache lock. The load is modelled as one sequential transition.
- Printed logging.
- Column types other than strings. Cells are optional strings.
- `get_project_statuses`: a parameter. The project's statuses are given as a set.
- The `maxResults=100` cap on search results: the search result is a parameter.
- pandas `str.contains` regular expressions. The status is matched as a plain substring.
- Python's Unicode case mapping and whitespace. Text operations are ASCII.
- Roles.RemoveAllViewers: assumes the tracker deletes every grant it is asked to delete. The source would otherwise loop forever.
- Roles.RemoveEditorPermission: assumes the permission delete succeeds. The source does not read its reply, and a refused delete would leave the grant in place.
- Roles.RemoveViewerPermission: assumes the permission delete succeeds, for the same reason.
- StatusSync.TransitionIssue: assumes the transition request succeeds once a transition id is found. A refused request would leave the status unchanged, and the source does not notice.
- StatusSync.AttachFile: assumes the upload succeeds. A refused upload would leave the issue without the file.
- StatusSync.ProcessFilesLastWins: rests on the same upload assumption as `StatusSync.AttachFile`.
- Issues.WriteSnapshot: its own contract states when the save fails. The sheet-by-sheet contents of a saved workbook are stated by `Issues.WriteSnapshotSheets`, about `Issues.WriteSheets`.
- StatusSync.ProcessFiles: its own contract states only that the issues and refusals are kept. Its behaviour is stated by the lemmas about it.
- StatusSync: the following are not modelled:
  - the directory listing order, which is a parameter;
  - file contents and the upload body;
  - a `KeyError` on a transition without a destination name.
- StatusSync.TransitionIssue: takes the issue's transitions as fixed, so a status change does not change what is offered next.
- The module-level call at the end of `backend/status.py`.
- Filter ids as the tracker's JSON values. They are natural numbers, and the source's `if not filter_id` is read as "no id".
- `get_project_id` and `print_permissions`: lookups and logging with no rule of their own.
- The HTTP endpoints that spawn scripts, edit roles or read project keys.
- Tracker failures that change over time. One `Health` value holds for a whole call, so an endpoint that fails once and then recovers is not modelled.
