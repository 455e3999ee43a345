# ApplicantResume: incremental resume download, modelled in Dafny

`ApplicantResume::fire()` downloads each new applicant's resume once. It works in four steps:

1. It reads the ids already recorded in a local SQLite table `applicants (id, path, sent)`. This table is the ledger.
2. It asks MySQL for the applications with a resume whose user id is not in that list.
3. For every returned row with a non-empty `resume_file`, it fetches the object from S3 into `__DIR__/../tmp/<given> <additional> <family>.<ext>`.
4. It then inserts the applicant into the ledger with the path, minus `__DIR__`, and `sent = false`.

The next run therefore leaves out everyone recorded so far.

The model keeps the glue exactly and replaces the external systems with inputs:

- `PhpStrings` holds the PHP built-ins the code relies on: `explode`, `implode`, `str_replace` and the decimal rendering of an integer. It also holds their round-trip lemmas.
- `Records` holds the row of the candidate query (`Applicant`), the ledger row (`Entry`), the object-store request (`Download`) and the "has a resume" test of the loop.
- `ApplicantFiles` holds the extension, the local file name and the stored path of `_getFile`/`_saveToExempted`.
- `Query` holds the candidate query string of `_getApplicants`. It also has a decoder, `ExcludedIds`, which reads the `NOT IN` list back out of a query.
- `RunSpec` holds what one run does with a candidate list. `Processed` gives the handled positions, `Downloads` the S3 requests, and `Committed` the ledger rows added. The file also holds the lemmas on these, including the idempotence of two runs.
- `Sync` holds the stateful part: a `Ledger` class whose `entries` field is the table, and an `ApplicantResume` class with `ExemptedApplicants`, `GetApplicants`, `SaveToExempted` and `Fire`, whose `foreach` is the method `HandleCandidates`. Each method is proved against the specification functions above.

The inputs that stand for the outside world:

- `dir` is `__DIR__`.
- `readOk` says whether the ledger's `SELECT` throws.
- `db` maps a query string to the rows MySQL returns, or to `None` when the query throws.
- `downloaded(i)` says whether S3 delivered the resume at position `i` of the candidate list.
- `inserted(i)` says whether the SQLite insert for that position succeeded.

### Behaviour of the code worth knowing

- A failed download is recorded anyway. `_getFile` returns `false`, `fire` still calls `_saveToExempted`, and `str_replace` turns `false` into `""`. The applicant is therefore recorded with an empty path and never fetched again (`FailedDownloadIsRecorded`).
- A ledger that cannot be read counts as empty. `_exemptedApplicants` returns the empty list, and the candidate query then carries no `NOT IN` clause (`ExemptedApplicants`, `CandidateQueryShape`).
- A failed candidate query makes `fire` fall off the end, so it returns PHP's `null`, modelled as `None`. Its `catch` branch, which returns `false`, cannot be reached, since each helper catches its own exceptions.
- The stored path keeps the download directory: `str_replace(__DIR__, '', ...)` leaves `/../tmp/Jane  Doe.pdf` for the file `__DIR__/../tmp/Jane  Doe.pdf` (`StoredPathIsRelative`). The replacement runs over the whole local path, so every occurrence of `__DIR__` in it is removed, also one inside a name (`StoredPathDropsDirectory`).
- `fire` returns only `true`, `false` or `null`; it reports nothing about how many rows were fetched, skipped or failed.

## Model

| member | source | states |
|---|---|---|
| `PhpStrings.Explode` | src/ApplicantResume.php:99 | `explode` always yields at least one piece, so `end()` of it is defined for every key, the empty key included |
| `PhpStrings.Implode` | src/ApplicantResume.php:63 | defines `implode`: the pieces in order with the glue between consecutive ones (characterised by `ImplodeExplode`, `ExplodeImplode`, `ImplodeLast`) |
| `PhpStrings.ImplodeExplode` | src/ApplicantResume.php:99 | joining the pieces of `explode` with the separator gives back the original string |
| `PhpStrings.ExplodePiecesFreeOfSeparator` | src/ApplicantResume.php:99 | with a one-character separator no piece contains that character |
| `PhpStrings.ExplodeImplode` | src/ApplicantResume.php:63 | splitting an `implode` on the glue gives back the pieces when no piece holds a glue character |
| `PhpStrings.ImplodeLast` | src/ApplicantResume.php:63 | a join of two or more pieces is the join of all but the last, the glue, and the last piece |
| `PhpStrings.StrReplace` | src/ApplicantResume.php:120 | defines `str_replace` on one search string: scan left to right, replace each non-overlapping occurrence, leave the subject as it is for an empty search string (characterised by `StrReplaceAbsent`, `StrReplaceAppend`) |
| `PhpStrings.StrReplaceAbsent` | src/ApplicantResume.php:120 | `str_replace` leaves a subject without an occurrence of the search string unchanged |
| `PhpStrings.StrReplaceAppend` | src/ApplicantResume.php:120 | when no occurrence of the search string straddles the boundary between two parts, `str_replace` of their concatenation is the concatenation of `str_replace` of each part |
| `PhpStrings.IntToString` | src/ApplicantResume.php:63 | an id is rendered as a non-empty run of decimal digits without a leading zero |
| `PhpStrings.DigitsValueOfIntToString` | src/ApplicantResume.php:63 | the decimal text of an id reads back as that id |
| `ApplicantFiles.Extension` | src/ApplicantResume.php:99-100 | defines the extension as the last piece of `explode('.', resume_file)` (characterised by `ExtensionIsAfterLastDot`) |
| `ApplicantFiles.ExtensionIsAfterLastDot` | src/ApplicantResume.php:99-100 | the extension has no ".", the key ends with it, and it is the whole key or follows a "." (the text after the last ".") |
| `ApplicantFiles.ExtensionEdgeCases` | src/ApplicantResume.php:99-100 | a key without "." is its own extension; a key ending in "." has the empty extension |
| `ApplicantFiles.ExtensionOfDottedName` | src/ApplicantResume.php:99-100 | for any text, a ".", and a dot-free tail, the extension is exactly that tail |
| `ApplicantFiles.FileName` | src/ApplicantResume.php:101 | defines the file name as given, additional and family name separated by single spaces, then "." and the extension |
| `ApplicantFiles.LocalFile` | src/ApplicantResume.php:101 | defines the local file as `__DIR__` followed by "/../tmp/" and the file name |
| `ApplicantFiles.DownloadRequest` | src/ApplicantResume.php:103-107 | defines the `getObject` request: bucket `r24-prod.resourcefull.cc`, the resume key, and the local file as `SaveAs` |
| `ApplicantFiles.LocalFileKeepsExtension` | src/ApplicantResume.php:101 | the local file and its name have the same extension as the resume key |
| `ApplicantFiles.ExampleFileName` | src/ApplicantResume.php:101 | "Jane", an empty additional name, "Doe" and key "a/b.pdf" give "Jane  Doe.pdf" with a double space |
| `ApplicantFiles.ExampleNoDot` | src/ApplicantResume.php:99-100 | the key "noext" yields the extension "noext" |
| `ApplicantFiles.GetFile` | src/ApplicantResume.php:96-113 | `_getFile` returns a file exactly when the download succeeded; that file is the `SaveAs` target of the request, lies in `__DIR__/../tmp/`, is named after the applicant, and has the resume key's extension |
| `ApplicantFiles.StoredPath` | src/ApplicantResume.php:120 | defines the stored path: `str_replace(__DIR__, '', local_file)`, the empty string for a `false` local file (characterised by the three lemmas below) |
| `ApplicantFiles.FailedDownloadStoresEmptyPath` | src/ApplicantResume.php:120 | the path stored for a failed download (`false`) is the empty string |
| `ApplicantFiles.StoredPathDropsDirectory` | src/ApplicantResume.php:120 | the stored path of a saved file is `str_replace(__DIR__, '', ...)` applied to "/../tmp/" followed by the file name, as a whole: the leading `__DIR__` is dropped and the replacement continues over the rest, where an occurrence may begin inside "/../tmp/" |
| `ApplicantFiles.StoredPathIsRelative` | src/ApplicantResume.php:120 | when `__DIR__` does not occur again, the stored path is "/../tmp/" followed by the file name |
| `Query.IdList` | src/ApplicantResume.php:63 | defines `implode(", ", $exempted)` over the decimal texts of the ids |
| `Query.CandidateQuery` | src/ApplicantResume.php:59-64 | defines the query: the three-line literal, followed by ` AND app.user_id NOT IN ( `, the id list and ` )` when the exempted list is not empty |
| `Query.ExcludedIds` | src/ApplicantResume.php:62-63 | reads the `NOT IN` list back out of a query text: no ids for the base query, the parsed list after it, `None` for any other text; the decoding partner of `CandidateQuery` |
| `Query.CandidateQueryExcludesExactly` | src/ApplicantResume.php:59-64 | the `NOT IN` list read back from the query is exactly the exempted ids in list order; an empty list gives the base query |
| `Query.CandidateQueryShape` | src/ApplicantResume.php:59-64 | every query starts with the base query and contains `app.resume_file > ''`; it equals the base query iff the exempted list is empty, and otherwise continues with ` AND app.user_id NOT IN ( ` |
| `Records.HasResume` | src/ApplicantResume.php:36 | defines the loop's test `$row['resume_file'] > ''`: PHP's `> ''` on a string column holds exactly when it is non-empty |
| `RunSpec.Processed` | src/ApplicantResume.php:35-36 | the handled positions are exactly the rows with a non-empty `resume_file`, each once, in increasing order |
| `RunSpec.Ids` | src/ApplicantResume.php:86-88 | the exempted list has one id per ledger row, in row order |
| `RunSpec.Downloads` | src/ApplicantResume.php:35-37 | defines the requests of a run row by row: one `DownloadRequest` for each row that passes the `resume_file > ''` test (characterised by `DownloadsFollowProcessed`) |
| `RunSpec.EntryFor` | src/ApplicantResume.php:119-121 | defines the inserted row: the user id, the stored path of what `_getFile` returned, and `sent` false |
| `RunSpec.Committed` | src/ApplicantResume.php:35-40 | defines the ledger rows a run adds, row by row: `EntryFor` of each row with a resume whose insert succeeded (characterised by `CommittedExactly`, `CommittedWhenAllInserted`) |
| `RunSpec.DownloadsFollowProcessed` | src/ApplicantResume.php:35-37 | a run issues one S3 request per handled row, in candidate order, for that row's key, bucket and local file |
| `RunSpec.CommittedExactly` | src/ApplicantResume.php:35-40 | an entry is added iff it belongs to a row with a resume whose insert succeeded, with that row's id and stored path and `sent` false |
| `RunSpec.CommittedWhenAllInserted` | src/ApplicantResume.php:35-40 | when every insert succeeds the run adds one entry per handled row, in candidate order |
| `RunSpec.FailedDownloadIsRecorded` | src/ApplicantResume.php:37-39 | a row whose download failed is still committed, with an empty path |
| `RunSpec.HandledRowIsCommitted` | src/ApplicantResume.php:35-40 | a handled row whose insert succeeds is committed whatever the other rows' outcomes were |
| `RunSpec.RowsWithoutResumeAreSkipped` | src/ApplicantResume.php:36 | a row with an empty `resume_file` is not handled, and no entry comes from it |
| `RunSpec.NextQueryExcludesCommitted` | src/ApplicantResume.php:32-33 | after a run whose inserts all succeeded, every handled id is in the ledger, and the next query excludes exactly the ledger's ids |
| `RunSpec.NextRunSkipsCommitted` | src/ApplicantResume.php:32-39 | against a database that honours `NOT IN`, after any run, whatever its failed downloads or inserts, the next run's candidates contain no id the ledger records and no id of an entry this run committed |
| `RunSpec.NextRunSkipsHandled` | src/ApplicantResume.php:32-39 | against a database that honours `NOT IN`, after a run in which every insert succeeded, no row that run handled is among the next run's candidates |
| `Sync.Ledger.constructor` | src/ApplicantResume.php:24 | the SQLite connection opened in `__construct`, standing for the `applicants` table: a ledger holding the given rows in storage order |
| `Sync.ApplicantResume.ExemptedApplicants` | src/ApplicantResume.php:80-94 | returns the ledger's ids in row order, or the empty list when the storage query throws |
| `Sync.ApplicantResume.GetApplicants` | src/ApplicantResume.php:51-78 | sends `CandidateQuery(exempted)` and returns the rows in the database's order, or `None` when the query throws |
| `Sync.ApplicantResume.SaveToExempted` | src/ApplicantResume.php:115-128 | returns whether the insert succeeded; on success the ledger gains (id, stored path, `sent` false), otherwise it is unchanged |
| `Sync.ApplicantResume.HandleCandidates` | src/ApplicantResume.php:35-41 | the `foreach` of `fire`: the S3 requests made are `Downloads` of the rows, and the ledger gains exactly `Committed` of them, row by row in candidate order |
| `Sync.ApplicantResume.Fire` | src/ApplicantResume.php:29-48 | returns `Some(true)` after all candidates, or `None` with no request and no insert when the query fails. The S3 requests are `Downloads` of the candidates. The ledger gains exactly `Committed` of them. |

## Left out

- `sendMail` (the SMTP dispatch and the `glob` of the tmp directory) and `drive`/`_connectToGoogle` (the Drive listing): I/O against external services with no state of the core.
- `__construct`, `_connectToS3` and `_getPDOConnection`: environment and credential loading, and connection set-up. The script directory and the ledger are passed to the `ApplicantResume` constructor instead.
- The S3 transfer itself is left out: `getObject` with `SaveAs`, the bytes written and any partial file on failure. It is one success-or-failure outcome per row (`downloaded`), plus the logged request (`Download`). Name collisions that overwrite a file are not visible for the same reason.
- SQL evaluation is left out: the `LEFT JOIN`, `NOT IN` and `resume_file > ''` in MySQL, and the `SELECT`/`INSERT` in SQLite. MySQL is the function `db`. The idempotence lemma assumes, as `HonoursExclusion`, that the rows returned for a query have ids outside its `NOT IN` list.
- The ledger's primary-key constraint is not modelled: the schema is not part of this model. An insert is modelled only as possibly failing (`inserted`).
- PHP passes `false` for `sent` through `execute`, which binds it as the string `''`. The model writes the boolean `false`.
- Ids are unbounded natural numbers rendered in decimal. PHP's 64-bit integers and negative ids are not modelled.
- A NULL name column (no `personal_info` row) is modelled as the empty string, which is what `sprintf` prints.
- PHP strings are bytes; here a `char` stands for a byte.
- PDO is assumed to throw on errors, the PHP 8 default. With silent errors, a failed `query()` would end in a fatal error that the model does not describe.
- All `print`/`echo` output is left out.
- The run's exception handler (`catch` in `fire`, returning `false`) is left out: no helper lets an exception escape, so it cannot be reached.
