# ESP Formstack medical-form downloader, modelled in Dafny

`medical.py` downloads the medical-form submissions of one Formstack form,
renders each one into a LaTeX document named after the student, and keeps a
resumable archive directory. For every student (keyed by ESP id) the archive
holds a version ledger: the file name of every version rendered so far and
the next version number. It also holds the list of submission ids already
processed, so that an `update` run only handles new submissions. At the end
of every run an index file lists all the documents, the auxiliary LaTeX
files are deleted, and every expected `.pdf` is checked for. A `check` run
lists the registered students for whom no form was received.

This project models that bookkeeping:

- `Fields`: the field map of `load_fields`, and how a submission's value is
  resolved from it (`search_details`, `search_details_list`).
- `Naming`: the file-name filter `sanitize_filename`, the document name with
  its `" (vN)"` suffix, the program name taken from the form title, and the
  encryption-key path of `discover_enckey`.
- `Template`: the sequential `[[name]]` replacement.
- `Ledger`: the version ledger and its walk, the auxiliary-file filter, the
  incremental skip rule, and what a JSON save and reload does to the keys.
- `Pipeline`: one submission as a pure step, the download loop of both
  modes, the paged listing, the final check, the save-on-error rule and
  `check`'s missing list.
- `Archive`: the configuration object as a `Config` class whose methods
  update its fields the way the program's functions update `config`.
  Each method is proved against the pure model: its results and the new
  state are those the model's functions give.
- `Atoms`, `Text`, `Sorting`, `Wrappers`: how Python looks at the data
  (int and str keys, `int()`, `str()`, `split`, `join`, `replace`, Python 2
  ordering of mixed keys), plus `Option` and `Result`.

Python keys are modelled explicitly as `Atom = AInt(int) | AStr(string)`.
The program stores a student's ledger entry under the int ESP id and each
version under `str(version)`. `finalize` probes the versions with an int.
After a JSON reload every key is a string. The model follows the code as
written and shows each consequence (see "## Findings").

The ledger is written before a submission is finished. The new version is
recorded (medical.py:344) before the timestamp is parsed (medical.py:347-348),
and `exception_handler` saves whatever is in memory (medical.py:489). So a
saved ledger can hold a version whose submission id is not in the processed
list. `Pipeline.HalfProcessedSubmissionIsSaved` proves this.

The ledger invariant is that every student's versions are exactly 1 .. next-1
(`Ledger.LedgerValid`). It holds from the empty configuration on, through
every processed submission (once the two name fields are known, which
`load_fields` guarantees), through a whole download run, failed or not, and
through a save and reload. `Archive.Config.Valid` holds it for the class.

## Model

| member | source | states |
|---|---|---|
| Atoms.ParseIntOfIntToStr | medical.py:330 | `int()` reads back what `str()` writes for every integer |
| Atoms.IntToStrInjective | medical.py:344 | `str()` of two different integers differs, so version keys never collide |
| Fields.ShortNamesKeys | medical.py:285-292 | the field map's names are exactly the non-empty names of the field list |
| Fields.ShortNamesValues | medical.py:285-292 | each name maps to the ids of its fields in field-list order (append, never overwrite) |
| Fields.FirstMissing | medical.py:294-296 | none is missing iff every required name is present; otherwise the first required name absent |
| Fields.SearchDetails | medical.py:451-458 | fails iff no item carries the id; else the first such item's value, with `None`/`True`/`False` read as `""` |
| Fields.ResolveFailsIffNoneFound | medical.py:465-479 | resolution over an id list fails exactly when none of the ids is found |
| Fields.ResolveFirstNonEmpty | medical.py:465-474 | a non-empty result is the value of the first id whose value is non-empty |
| Fields.ResolveEmptyOnlyIfAllEmpty | medical.py:465-477 | an empty result means some id was found and none had a non-empty value |
| Fields.SearchDetailsList | medical.py:465-479 | the loop returns what the resolution function defines |
| Naming.Sanitize | medical.py:460-463 | the output holds only `-_.() `, ASCII letters and digits, and is no longer than the input |
| Naming.SanitizeIsSubsequence | medical.py:460-463 | the output is an order-preserving subsequence of the input |
| Naming.SanitizeKeepsAllowed | medical.py:460-463 | every allowed character of the input survives |
| Naming.SanitizeAllowedUnchanged | medical.py:460-463 | an input of allowed characters only is returned unchanged |
| Naming.SanitizeIdempotent | medical.py:460-463 | filtering twice is filtering once |
| Naming.SanitizeAppend | medical.py:460-463 | the filter works character by character over a concatenation |
| Naming.AsciiIgnore | medical.py:340 | `encode("ascii", "ignore")` leaves only ASCII characters and never lengthens the text |
| Naming.AsciiIgnoreIsSubsequence | medical.py:340 | the kept characters keep their order |
| Naming.AsciiIgnoreCounts | medical.py:340 | every ASCII character is kept as often as it occurs; every other character is dropped |
| Naming.AsciiIgnoreOfAscii | medical.py:340 | an ASCII text comes out unchanged |
| Naming.SanitizeAfterAsciiIgnore | medical.py:340-343 | dropping non-ASCII characters first changes nothing in the file name |
| Naming.FileNameKeepsVersion | medical.py:338-343 | the file name is the filtered `id - name - username` followed by `" (vN)"`, which survives the filter |
| Naming.ProgramNameDropsLastWord | medical.py:243 | the program name is the form title without its last space-separated word |
| Naming.ProgramNameOfOneWord | medical.py:243 | a one-word title gives the empty program name |
| Naming.EncKeyPathTwoWords | medical.py:251-257 | a two-word program `prog year` gives the path `prog-medical/year.txt`, lower-cased |
| Naming.EncKeyPathThreeWords | medical.py:251-261 | a three-word program `season prog year` gives `prog-medical/season-year.txt`, lower-cased |
| Naming.EncKeyPathOneWord | medical.py:252-263 | a one-word program gives no path, so the user is asked |
| Naming.EncKeyPathFourWords | medical.py:252-263 | a four-word program gives no path either |
| Template.Interpolate | medical.py:350-354 | the replacement loop computes the sequential `[[k]]` replacement over the value order |
| Template.InterpolatedOneName | medical.py:351-354 | one replacement is `str.replace`: the text split at `[[k]]` and joined with the value |
| Template.InterpolatedWithoutPlaceholders | medical.py:350-354 | a template holding none of the placeholders comes out unchanged |
| Template.InterpolatedWithoutBrackets | medical.py:350-354 | a template without `[[` comes out unchanged whatever the values |
| Text.ReplaceIsJoinOfSplit | medical.py:353 | `replace(pat, rep)` is `rep.join(split(pat))` |
| Text.JoinSplit | medical.py:243 | joining the pieces of a split with the separator gives back the text |
| Ledger.NumberKeyInjective | medical.py:331-344 | different numbers give different keys, as int keys and as text keys |
| Ledger.BumpThenRecord | medical.py:331-344 | the version is 1 for a new student and the stored next otherwise; the ledger gains at most that student; next becomes version + 1; the student's versions are the old ones plus `str(version)`, which maps to the file name, and every other version keeps its name; no other student changes |
| Ledger.BumpThenRecordKeepsValid | medical.py:331-344 | the update keeps every entry's versions exactly 1 .. next-1 |
| Ledger.WalkFindsContiguousVersions | medical.py:375-378 | the walk lists versions v, v+1, … with their names, up to and not past the first missing one |
| Ledger.ValidEntryWalk | medical.py:375-378 | on a valid entry the walk lists every recorded version, in order |
| Ledger.WalkWithIntKeysIsEmpty | medical.py:399-401 | probing text-keyed versions with ints walks nothing |
| Ledger.NamesWithIntKeysAreEmpty | medical.py:398-404 | so `finalize`'s walk over a whole ledger is empty |
| Ledger.NamesOfValidLedger | medical.py:374-378 | on a valid ledger a name is listed iff it is recorded for a listed student |
| Ledger.ListedNamesAreRecorded | medical.py:374-378 | every listed name is recorded under some version of a listed student |
| Ledger.RecordedNamesAreListed | medical.py:374-378 | every name recorded for a listed student is listed |
| Ledger.NamesAppend | medical.py:374-378 | listing two runs of keys is listing each in turn |
| Ledger.CleanedMembers | medical.py:392-397 | what remains is exactly the listing's names not ending in `.tex`, `.log` or `.aux`; what is deleted is exactly those that do |
| Ledger.CleanedPartitions | medical.py:392-397 | deleted and kept names together are the listing, with multiplicity |
| Ledger.CleanedKeepsOrder | medical.py:392-397 | both the deleted and the kept names keep the listing's order |
| Ledger.CleanedKeepsPdfs | medical.py:392-402 | the cleanup never removes a `.pdf` |
| Ledger.MissingPdf | medical.py:399-403 | none iff every walked name has its `.pdf`; otherwise the first one that lacks it |
| Ledger.MissingPdfAppend | medical.py:398-403 | after a passing part, the search goes on in the rest |
| Ledger.MissingPdfAfterHit | medical.py:398-403 | the first failure ends the search |
| Ledger.FreshIsNewIds | medical.py:76-77 | the ids still to do are exactly the listed ids not processed, without repetition, in listing order |
| Ledger.FreshOfProcessed | medical.py:76-77 | when every listed id was processed nothing is left to do |
| Ledger.FreshAfterPrefix | medical.py:76-77 | after processing the first n ids still to do, the rest remain |
| Ledger.JsonKeys | medical.py:188-194 | after a reload every key is a string and every saved key is found under its text; a string key keeps its entry, and an int key's entry (next version and files) reappears under its text unless that text was a key too |
| Ledger.JsonKeysKeepsLedgerValid | medical.py:188-194 | a ledger with contiguous versions still has them after a save and reload |
| Ledger.LedgerValidHasTextVersionKeys | medical.py:344 | in a ledger with contiguous versions every version key is a string |
| Ledger.JsonKeyOrigin | medical.py:188-194 | a key gained on reload is the text of an int key of the saved ledger |
| Ledger.JsonKeysOfTextKeys | medical.py:188-194 | a ledger with only string keys reloads unchanged |
| Ledger.JsonKeysIdempotent | medical.py:381-388 | saving and reloading twice is the same as once |
| Ledger.ReloadForgetsIntKeys | medical.py:193-194 | after a reload the int ESP id is no longer a key, so the next version looked up is 1 |
| Ledger.TextKeyedLedgerSurvivesReload | medical.py:331-344 | with the ESP id kept as text, an updated ledger reloads unchanged and keeps every next version |
| Pipeline.ResolveAll | medical.py:326-328 | on success the values are for exactly the field map's names, each what its ids resolve to |
| Pipeline.ResolveAllOutcome | medical.py:326-328 | success iff every name resolves; otherwise the error is the first name, in order, that does not |
| Pipeline.ResolveAllStopsAtError | medical.py:326-328 | after the first failing name nothing else matters |
| Pipeline.Process | medical.py:330-363 | the id is appended to the processed list iff the submission succeeds |
| Pipeline.Resolved | medical.py:330-363 | once the values are resolved, the id is appended iff the rest of the processing succeeds |
| Pipeline.ResolvedFails | medical.py:330-348 | a failure after resolution is never a missing field and never appends the id; a missing or non-integer id leaves the ledger alone; a bad timestamp leaves the version recorded |
| Pipeline.ResolvedKeepsLedgerValid | medical.py:330-344 | the rest of the processing keeps every entry's versions contiguous from 1 |
| Pipeline.ProcessSucceeds | medical.py:330-363 | a success takes the student's next version, adds the student to the ledger if new and no other key, records the document name under the new version, keeps every earlier version and its name, advances next, leaves every other student alone and appends the id |
| Pipeline.ProcessFails | medical.py:326-348 | a failure never appends the id; failures before the id is parsed leave the ledger alone; a bad timestamp leaves the version recorded |
| Pipeline.ProcessKeepsLedgerValid | medical.py:330-344 | once the name fields are known, processing, successful or not, keeps every entry's versions contiguous from 1 |
| Pipeline.LoopKeepsLedgerValid | medical.py:57-58 | a loop of steps that each keep the versions contiguous keeps them over every id, the failing one included |
| Pipeline.DownloadKeepsLedgerValid | medical.py:57-58 | a download run of either mode, finished or stopped, leaves every entry's versions contiguous from 1 |
| Pipeline.Processing | medical.py:320-363 | fetching then processing appends the id exactly on success |
| Pipeline.IncrementalProcessesFreshIds | medical.py:76-79 | the update run processes the unprocessed listed ids in order: all of them when it completes, a prefix when it stops |
| Pipeline.FullProcessesAllIds | medical.py:57-58 | the full run processes every listed id in order: all of them, or a prefix up to the failure |
| Pipeline.IncrementalOfProcessedIsNoOp | medical.py:76-77 | when every listed id was processed, the update run changes nothing |
| Pipeline.SecondRunIsNoOp | medical.py:76-79 | a second update run over the same listing after a complete one does nothing |
| Pipeline.ResumeCompletes | medical.py:76-79 | resuming after a failure and completing ends with the processed list an uninterrupted run would have |
| Pipeline.FullRunRecordsListing | medical.py:57-58 | a complete full run from scratch records exactly the listing |
| Pipeline.HalfProcessedSubmissionIsSaved | medical.py:330-348 | a submission failing at its timestamp leaves a changed ledger that the handler saves |
| Pipeline.PageCount | medical.py:302 | the page count is ceil(count / 100), and 0 for a count of 0 or less |
| Pipeline.ListedOutcome | medical.py:302-309 | the listing succeeds iff every page fetches; otherwise the error is the first failing page |
| Pipeline.ListedHasEveryPage | medical.py:302-309 | a successful listing holds every id of every page up to its page count |
| Pipeline.ListedStopsAtError | medical.py:302-309 | pages after a failing page are not asked for |
| Pipeline.FinalCheckAsWrittenIsVacuous | medical.py:398-404 | as written the check passes for every text-keyed ledger and every directory |
| Pipeline.FinalCheckOnEmptyDirectory | medical.py:398-404 | a ledger with one recorded document and an empty directory: the check as written passes, the text-key check reports the document |
| Pipeline.FinalCheckWithTextKeys | medical.py:398-404 | with text probes the check passes iff every recorded document has its `.pdf` in the directory |
| Pipeline.Missing | medical.py:107-110 | at most one name per registered student |
| Pipeline.MissingMembers | medical.py:107-110 | the missing names are exactly those of registered students whose id text has no ledger entry |
| Pipeline.MissingAll | medical.py:107-110 | every registered student is counted missing exactly when none of them has an entry |
| Pipeline.MissingAppend | medical.py:107-110 | the list is a filter of the answer's entries: split the entries and the missing names split the same way, in order |
| Pipeline.StaleCountMissesNewSubmission | medical.py:302 | with the count 100 saved at the last run, a submission on page 2 is not listed |
| Pipeline.CurrentListing | medical.py:302-309 | the listing by the current count holds every id of every page up to that count |
| Pipeline.CurrentCountListsNewSubmission | medical.py:302-309 | with the current count 150 the same submission on page 2 is listed |
| Pipeline.Bypassed | medical.py:120 | the exempted names in the answer's order |
| Pipeline.MissingCounts | medical.py:107-110 | walking distinct keys, each name is missing as many times as there are students of that name among them with no ledger entry |
| Pipeline.MissingCountsOfKeys | medical.py:107-110 | walking every key once, the count of each missing name is the number of registered students of that name with no entry, whatever the walking order |
| Pipeline.BypassedIsMissing | medical.py:107-120 | the exempted list is the missing list taken against an empty ledger |
| Pipeline.BypassedCounts | medical.py:120 | walking every key once, each exempted name is listed once per exempted student of that name |
| Pipeline.ProcessedStudentNotMissing | medical.py:107-110 | a student processed before the save is found in the reloaded ledger |
| Sorting.Sort | medical.py:112 | the sort is a permutation and its result is ordered |
| Sorting.SortedKeys | medical.py:374 | the ledger's keys in strictly ascending Python 2 order (ints before strings) |
| Sorting.StrictlySortedUnique | medical.py:374 | there is only one strictly ascending order of a set of keys |
| Sorting.AtomLtTotal | medical.py:374 | any two distinct keys are ordered one way or the other |
| Sorting.AtomLtTransitive | medical.py:374 | the key order is transitive |
| Archive.Saved | medical.py:381-388 | the saved state keeps the form, program, field map and processed list, and writes the ledger as a reload gives it back, every key a string |
| Archive.SavedKeepsValid | medical.py:381-388 | saving a ledger with contiguous versions, with the name fields known, gives a state an update run can start from |
| Archive.SavedOfLoaded | medical.py:188-194 | saving a loaded state again writes the same state |
| Archive.FormChoices | medical.py:226-234 | the forms of the "Medical" folder when it exists, else exactly the forms of all folders, the order walking every folder once |
| Archive.AllFormsAppend | medical.py:230-232 | the forms are offered folder after folder: those of the first folders, then those of the rest |
| Archive.OfferedForms | medical.py:226-234 | the offering loop gives `FormChoices`: the "Medical" folder's forms, else each folder's forms appended in folder order |
| Archive.PickForm | medical.py:239 | Python indexing: 0 .. n-1 from the front, -n .. -1 from the back, anything else fails |
| Archive.WalkVersions | medical.py:375-378 | the version loop computes the walk from version 1 |
| Archive.RemoveAuxiliary | medical.py:392-397 | the deletion loop deletes the auxiliary names and leaves the rest |
| Archive.FirstMissingPdf | medical.py:399-403 | the check loop finds the first walked name without its `.pdf` |
| Archive.CheckPdfs | medical.py:396-403 | the outer check loop reports the first name of the whole walk without its `.pdf`, or nothing |
| Archive.BuildShortNames | medical.py:280-290 | the field loop builds the map of names to ids that `ShortNames` defines |
| Archive.CheckRequired | medical.py:292-294 | the required-field loop reports the first required name missing from the map, or nothing |
| Archive.ResolveValues | medical.py:326-328 | the value loop resolves and escapes as `ResolveAll` and `Escaped` define |
| Archive.Render | medical.py:330-363 | the rest of the submission's processing does what `Resolved` defines |
| Archive.ProcessDetails | medical.py:326-363 | the body of `process_submission` gives the ledger, processed list and result of `Process` |
| Archive.RequiredHasNameFields | medical.py:294-296 | a field map that passed the required-field check has the two name fields |
| Archive.FetchPages | medical.py:302-309 | the page loop asks for pages 1, 2, … in order and returns what `Listed` defines |
| Archive.Config.constructor | medical.py:146-165 | an empty configuration holding the template text, whose ledger is valid |
| Archive.Config.ChooseForm | medical.py:216-245 | the folder order walks every folder once; the typed index picks the form among the offered forms and the program name is derived; a bad index changes nothing |
| Archive.Config.LoadFields | medical.py:276-296 | the field map is rebuilt from the field list and the first missing required name is the error |
| Archive.Config.ProcessSubmission | medical.py:314-363 | the ledger, the processed list and the result are those of `Process` on the old state, keyed by int ESP id; with the name fields known the ledger stays valid |
| Archive.Config.Download | medical.py:55-58 | the loop's ledger, processed list, documents and error are those of the pure download loop; with the name fields known the ledger stays valid |
| Archive.Config.ListSubmissions | medical.py:298-312 | the ids of pages 1 .. ceil(count / 100) in order; a non-integer count or a failing page is the error |
| Archive.Config.WriteIndex | medical.py:365-379 | the header, then for every key in ascending order its versions walked from 1 |
| Archive.Config.Finalize | medical.py:390-407 | the auxiliary names are deleted and the error is the int-keyed check's |
| Archive.Config.SaveState | medical.py:381-388 | the five saved fields, with the ledger as JSON writes it |
| Archive.Config.LoadState | medical.py:180-194 | every saved field is set from the file; the template stays; the configuration is valid iff the saved ledger is |
| Archive.Config.HandleError | medical.py:481-494 | the state is saved iff saving is asked for and something was processed |
| Archive.CheckLists | medical.py:106-120 | both lists sorted; each missing name once per registered student of that name with no ledger entry, each exempted name once per exempted student of that name |
| Archive.Config.Check | medical.py:101-121 | the key orders walk each map's keys once; an answer without both maps is rejected; else both lists are sorted, each missing name appears once per registered student of that name with no ledger entry, and each exempted name once per exempted student of that name |
| Archive.Config.FullDownload | medical.py:46-64 | the folder order walks every folder once; on success: the form is the one the typed index picks among the offered forms, the field map is the one the field list gives, the ids are the listing by the form's count, the ledger and processed list are those of the pure full run, which processed every id, the index lists every key in ascending order, and the saved state is one an update run can start from; on failure the state is saved iff something was processed; the ledger stays valid |
| Archive.Config.IncrementalDownload | medical.py:66-84 | from a state a run saved: on success the ids are the listing by the saved count, the ledger and processed list are those of the pure update run, the processed list is the loaded one plus the new listed ids, and the index is written as in the full run; any saved state is again one an update run can start from |
| Archive.Config.Finish | medical.py:60-64 | the run fails exactly when an earlier step failed; after an error only the handler runs; otherwise the index is the header and every key's versions in ascending key order, the check is the int-probed one, and the state is saved |

## Left out

- HTTP: `make_request` and `api_query` with pycurl, the unbounded retry with `time.sleep`, and JSON decoding of the answers (medical.py:409-449). Field lists, submission details and pages are inputs. A page fetch that fails is the error `HttpError(page)`. A failing details fetch is not modelled: `fetch` always returns details.
- Prompts (`raw_input`, `getpass`), the banner and every `print`. The typed form number is the `choiceText` input.
- `initialize`'s checks for `cacert.pem` and `template.tex` (file-system I/O). The template text is the constructor's input.
- `choose_new_folder`'s directory checks and `discover_token` (file-system and prompt I/O).
- `discover_enckey`: the path choice is modelled as `Naming.EncKeyPath`, but the AFS read and the prompt fallback are not. The `\\AFS` prefix chosen on Windows is not modelled; the model uses `/afs`.
- `pdflatex` (a foreign process). Its effect is only visible through the directory listing given to `Finalize`.
- `texutil.latex_escape`, whose source is not part of this model. It is the uninterpreted `Env.escape`.
- `time.strptime`, `strftime` and `asctime`. Date formatting is `Env.formatDate`, which may fail. The index's time stamp is an input.
- Writing the `.tex`, index and `config.json` files, `os.listdir` and `os.remove`. The directory is a sequence of names. The index text and the saved state are returned.
- The JSON byte format. `Ledger.JsonKeys` models only what a reload does to keys: ints become their text. When an int key and its text both exist, JSON writes the key twice and the reload keeps whichever comes last in dict order; the model keeps the string-keyed entry.
- Python's dict iteration orders (field map, escaped values, `iteritems`, the check's maps). They are parameters: `names`, `valueOrder`, `order`, `bypassOrder`, `folderOrder`. The last three must walk every key of their map exactly once (`Pipeline.Enumerates`), as iterating a dict does.
- Archive.Config.Finish: `finalize` walks the ledger in `iteritems` order, but the model passes the index's ascending key order. With int probes the check never fails (Finding 1), so the choice of order has no effect.
- Pipeline.PageCount: `math.ceil` of a float division is modelled as exact integer ceiling division. Float rounding for counts above 2^53 is not modelled.
- Atoms.ParseIntOfIntToStr: Python's `int()` is modelled as optional surrounding ASCII whitespace, an optional sign and ASCII decimal digits (`Atoms.IsSpace`, `Atoms.IsDigit`). The non-ASCII digits and spaces Python 2 accepts in a `unicode` argument are not modelled.
- Text.Lower: only the ASCII letters are lower-cased. Python 2 `unicode.lower()` also folds non-ASCII letters, so a program name with such letters gives a different key path.
- Template.Interpolate: the template is a byte `str` read from `template.tex` (medical.py:160-162), while the escaped values are `unicode`. In Python 2, replacing a `unicode` placeholder in a template with non-ASCII bytes raises `UnicodeDecodeError` (medical.py:351-354). The model treats every text as a sequence of characters, so that failure is not modelled.
- Fields.SearchDetails: the values of a submission are modelled as strings, `null`, `true` and `false` (`Fields.Json`). Numbers are not modelled. With numbers, a value `0` would also read as `""`, since `0 in [None, True, False]` holds in Python.
- Archive.Config.Valid: it holds only the ledger invariant. The two name fields cannot be part of it, because `initialize` starts with an empty field map. `ProcessSubmission` and `Download` therefore keep validity under the condition that the name fields are known.
- Archive.Config.IncrementalDownload: the loaded state must be one a run saved (`Archive.SavedValid`: contiguous versions and the name fields known). A `config.json` edited by hand is not modelled.
- The class-level defaults of `Config` (`userlines = dict()`, `submissions = list()`) are shared between instances. Each run creates one instance, so the model gives every `Config` its own fields.
- The `NameError` raised in `exception_handler` when `initialize` itself fails (`config` unbound). The message text the handler prints is not modelled either.
- `usage` and the command-line dispatch (no state).
- Archive.Config.FullDownload and Archive.Config.IncrementalDownload: the printed progress counts are left out.

## Findings

| source | as written | input that shows it | evidently intended | confidence | as-written member | corrected member |
|---|---|---|---|---|---|---|
| medical.py:400 | `finalize` probes `version in versions` with an int, but versions are stored under `str(version)` (line 344), so no version is ever walked and the check always passes | a ledger `{7: {"next": 2, "1": "7 - Ada - ada (v1)"}}` and an empty directory: no error is raised | probe `str(version)` as `write_index` does (line 376), so a missing `.pdf` is reported | not executed | Pipeline.FinalCheckAsWrittenIsVacuous | Pipeline.FinalCheckWithTextKeys |
| medical.py:302 | an `update` run takes the page count from `config.form["submissions"]`, which it restores from `config.json` (lines 193-194) and never refreshes, so pages past the count saved by the first run are never requested | a form with 100 submissions at the full run and 150 now: only page 1 is requested, and the 50 submissions on page 2 are never listed or processed | list by the form's current submission count, so every page is requested | not executed | Pipeline.StaleCountMissesNewSubmission | Pipeline.CurrentListing |
| medical.py:331 | `process_submission` looks up the int `esp_id`, but after a reload from `config.json` every key is a string, so a returning student starts again at version 1 and the new document gets the name of their first one, replacing it in the directory | a student with id 7 saved with next 2, then an `update` run with a new submission from 7: `7 not in {"7": …}` holds, so version 1 is chosen again | key the ledger by the id's text so it survives the reload and versions keep counting | not executed | Ledger.ReloadForgetsIntKeys | Ledger.TextKeyedLedgerSurvivesReload |
