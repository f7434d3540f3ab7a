# bs-quest-index, modelled in Dafny

bs-quest-index is a small registry for Beat Saber Quest mods. Clients do three things:

- **Publish** a mod version. An upload sends the bytes for `id` at a semantic version, behind an `Authorization` key.
- **Resolve** a version requirement to the matching published versions, greatest first: the latest one, all of them, or the first `n`.
- **Download** a published version's bytes.

A SQLite `mods` table is the catalog of published versions. Each version's bytes sit in a file under the downloads directory at `id/major/minor/patch`.

This project models the core of that program:

- the catalog queries of `src/db.rs`;
- the request handlers of `src/routes.rs`;
- the error helpers of `src/errors.rs`.

It then proves what they promise. The model also replays the walk-through in `src/tests.rs`.

Modules follow the program:

| module | file | what it holds |
|---|---|---|
| `Prelude` | prelude.dfy | `Option`, `Result`, bytes, `u64`/`i64` and the `as` casts between them |
| `SemVer` | semver.dfy | versions, their numeric core, precedence on the core, requirements as predicates |
| `Sorting` | sorting.dfy | descending order of a finite set of triples (`ORDER BY major DESC, minor DESC, patch DESC`) |
| `Streams` | streams.dfy | the fallible row stream and `next`, `take`, `try_collect` |
| `Errors` | errors.dfy | `or_ise` / `or_nf` on `Result` and `Option` |
| `Db` | db.dfy | the `mods` table, `insert`, `list`, `tfm_fn`, `resolve_one/all/n`, and the signed-order finding |
| `Store` | store.dfy | file paths built from versions, and `fs::read`, `create_dir_all` and `write` over a map of files |
| `Routes` | routes.dfy | `ResolveQuery`, `auth`, `resolve`, `download`, `upload`, and the registry state |
| `Scenario` | scenario.dfy | the test walk-through: three uploads, a duplicate, two downloads and three resolutions |

How the external world is represented:

- **Catalog.** The table is a set of rows. The model assumes a unique constraint over all four columns, so an `INSERT OR IGNORE` is a set insertion that reports whether the row was new. The schema itself is not part of this model.
- **Database failures.** A query stream can fail after `k` rows (a `fault: Option<nat>` parameter), and the stream ends at the failure. An insert or a filesystem call fails when its boolean parameter says so.
- **Integer widths.** Columns are `i64`. A version component is `u64`, and the two `as` casts are written out as the two's-complement reinterpretation they are. `usize` (the query's `limit`) is taken to be 64 bits wide.
- **Requirements.** They come from the `semver` crate and are opaque here: any predicate on versions. `Version` keeps its pre-release and build text, so the model can show that neither reaches the catalog or the path.

Behaviour worth noting:

- `download` answers not-found for every read failure, not only for a missing file (src/routes.rs:93-100).
- `auth` reads the header through warp's `header::optional::<HeaderValue>` (src/routes.rs:53). warp rejects a header that is not valid text before the closure runs, so the closure's `to_str().or_ise()` (src/routes.rs:60) cannot fail. `Routes.OptionalHeader` models that filter; this relies on warp's behaviour, which is outside the source. `Routes.AuthFilterNeverInternalError` proves that, behind it, `auth` rejects only as unauthorized.
- `resolve` with `limit = 1` answers not-found when nothing matches (src/routes.rs:79). The other limits answer an empty list.
- `upload` does not roll back the catalog row when storing the bytes fails (src/routes.rs:112-123). `FailedStoreKeepsRecord` states the resulting state: the version is recorded but cannot be downloaded.
- `resolve` calls `Mod::resolve` (src/routes.rs:75), which src/db.rs does not define. The model reads it as the stream that `resolve_one`, `resolve_all` and `resolve_n` share: the id's rows, greatest first, through `tfm_fn`. `Routes.ResolveAgreesWithCatalog` proves that the limit switch over that stream answers what those three functions answer.
- src/routes.rs uses `crate::errors::Unauthorized` (line 57) and `crate::errors::handle_rejection` (line 47), and src/errors.rs defines neither. In the model, the `Unauthorized` case of `Errors.Rejection` stands in for the first. The second maps rejections to responses and is left out.

## Model

| member | source | states |
|---|---|---|
| `Prelude.U64AsI64` | src/db.rs:61-63 | `ver.major as i64` keeps the value modulo 2^64 and is negative exactly from 2^63 up |
| `Prelude.I64AsU64` | src/db.rs:42-46 | `db_mod.major as u64` keeps the value modulo 2^64 and is below 2^63 exactly for non-negative columns |
| `Prelude.CastsInverse` | src/db.rs:38-63 | the two casts undo each other on their whole domains and are the identity below 2^63 |
| `Prelude.Transpose` | src/db.rs:94-96 | `transpose` on the stream's first item: an error item becomes the error, a row becomes `Ok(Some(row))`, no item becomes `Ok(None)` |
| `SemVer.Plain` | src/db.rs:42-46 | `Version::new` has no pre-release or build data and carries exactly the three given components |
| `Sorting.Max` | src/db.rs:89 | the element of a non-empty set of triples that every other element is below in version precedence |
| `Sorting.SortDesc` | src/db.rs:89 | `ORDER BY major DESC, minor DESC, patch DESC` over distinct triples: strictly descending, same length, the same elements |
| `Sorting.SortDescPair` | src/db.rs:89 | two triples are ordered with the greater one first |
| `Streams.Fetch` | src/db.rs:87-92 | a fetch stream yields the rows in order; a failure after `k` rows yields the first min(k, rows) rows and then one error item |
| `Streams.Next` | src/db.rs:94 | `next` is none only on an empty stream, an error on a failed first item, and the first row otherwise |
| `Streams.NextAfterYields` | src/db.rs:92-96 | the first item `resolve_one` reads is the first delivered match, else the failure, else the end of the stream |
| `Streams.Take` | src/db.rs:128 | `take(n)` is the prefix of length min(n, length) |
| `Streams.TryCollect` | src/db.rs:111-112 | `try_collect` succeeds exactly when no item failed, and then returns every row in order |
| `Streams.CollectYields` | src/db.rs:109-112 | collecting a stream that does not fail returns its rows unchanged |
| `Streams.CollectFailing` | src/db.rs:109-112 | collecting a stream that ends in a failure is that failure, whatever rows came before it |
| `Streams.TakeCollect` | src/db.rs:126-130 | `take(n).try_collect()` gives the first n rows when n rows precede any failure, and the failure otherwise |
| `Errors.ResultOrIse` | src/errors.rs:13-19 | `Result::or_ise` keeps the value and turns every error into an internal error |
| `Errors.ResultOrNf` | src/errors.rs:21-26 | `Result::or_nf` keeps the value and turns every error into not-found |
| `Errors.OptionOrIse` | src/errors.rs:29-32 | `Option::or_ise` keeps a present value and turns absence into an internal error |
| `Errors.OptionOrNf` | src/errors.rs:34-36 | `Option::or_nf` keeps a present value and turns absence into not-found |
| `Errors.OrIseOrNfDifferOnlyInRejection` | src/errors.rs:13-36 | the two flavours agree on success, differ only in the rejection chosen, and never give unauthorized |
| `Errors.OptionHelpersAreResultHelpers` | src/errors.rs:29-36 | the `Option` helpers are the `Result` helpers applied after `ok_or` |
| `Errors.NextOrNfOrIse` | src/routes.rs:79 | `.or_nf()?.or_ise()?` on the next item: not-found exactly for an empty stream, internal error exactly for a failed item, the row otherwise |
| `Db.FromDbMod` | src/db.rs:38-49 | a row reads back as a plain version with the same id, and its components are unchanged when non-negative |
| `Db.RowOf` | src/db.rs:60-63 | the row written for a version reads back as that version without pre-release or build data, and is non-negative below 2^63 |
| `Db.RowRoundTrip` | src/db.rs:38-63 | reading a row and writing it back reproduces the row: the casts lose nothing |
| `Db.RowOfInjective` | src/db.rs:60-73 | two versions share a row exactly when they have the same id and the same numeric core |
| `Db.Insert` | src/db.rs:60-80 | `insert` answers true exactly when the row was absent, and the row is present afterwards in either case, with nothing else added |
| `Db.InsertDuplicateIgnored` | src/db.rs:65-79 | re-inserting a version, or one differing only in pre-release or build data, adds nothing and answers false |
| `Db.InsertAll` | src/db.rs:60-80 | a batch of inserts answers once per call and never removes a row |
| `Db.InsertWinsOnce` | src/db.rs:65-79 | among any sequence of inserts, exactly one answers true for a row that was absent and requested, and none do otherwise |
| `Db.List` | src/db.rs:52-58 | without a failure, `SELECT DISTINCT id` collected lists every id with a row, each exactly once, and nothing else; a failing fetch fails the listing |
| `Db.Versions` | src/db.rs:89 | the version cores recorded for an id: exactly those of its rows, all within u64 |
| `Db.ToRow` | src/db.rs:60-63 | the row holding a given version core of an id |
| `Db.ToRowOfKey` | src/db.rs:38-63 | every row is the row of its own version core |
| `Db.RowsSound` | src/db.rs:87-92 | rows built from the sorted version cores are exactly the id's rows, in strictly descending order |
| `Db.Rows` | src/db.rs:87-92 | `SELECT * FROM mods WHERE id = ? ORDER BY …`: exactly the id's rows, strictly descending by version |
| `Db.TryFilterMap` | src/db.rs:93 | `try_filter_map` yields no more items than it reads; `Db.TryFilterMapYields` and `Db.TryFilterMapFailing` state what it yields |
| `Db.TfmFn` | src/db.rs:133-140 | `tfm_fn` keeps the converted row exactly when the requirement matches its version |
| `Db.FilterMods` | src/db.rs:93 | the rows `try_filter_map(tfm_fn)` keeps: no more mods than rows read; `Db.FilterModsMembers` and `Db.FilterModsDescending` state which mods and in what order |
| `Db.FilterModsMembers` | src/db.rs:93 | filtering keeps exactly the converted rows the requirement matches, no others |
| `Db.FilterModsAppend` | src/db.rs:93 | filtering a concatenation is the concatenation of the filtered parts |
| `Db.FilterModsPrefix` | src/db.rs:93 | filtering a prefix of the rows gives a prefix of the filtered rows |
| `Db.FilterModsDescending` | src/db.rs:93 | filtering keeps strict descending order |
| `Db.Matches` | src/db.rs:87-93 | the id's rows filtered by the requirement meet the reference description: strictly descending, only recorded matching versions of the id, and every one of them |
| `Db.MatchesCharacterized` | src/db.rs:82-131 | any list meeting the reference description is the catalog's answer |
| `Db.MatchListUnique` | src/db.rs:82-131 | the reference description determines at most one list |
| `Db.DescendingHead` | src/db.rs:89 | in a strictly descending list, a member greater than every other member is the head |
| `Db.DescendingUnique` | src/db.rs:89 | two strictly descending lists with the same elements are equal |
| `Db.TryFilterMapYields` | src/db.rs:93 | `try_filter_map(tfm_fn)` over a stream that does not fail yields the filtered rows |
| `Db.TryFilterMapFailing` | src/db.rs:93 | over a failing stream it yields the filtered rows before the failure, then the failure |
| `Db.Delivered` | src/db.rs:87-92 | the rows delivered before a failure are a prefix of the query's rows |
| `Db.DeliveredMatches` | src/db.rs:87-93 | the matches delivered before a failure are a prefix of all matches, and all of them without a failure |
| `Db.MatchStream` | src/db.rs:87-93 | the shared stream yields the delivered matches in order and then, if the query failed, the failure |
| `Db.ResolveOne` | src/db.rs:82-97 | `resolve_one` is the head of all matches, none when there is no match, and the failure only when no match was delivered before it |
| `Db.ResolveOneNone` | src/db.rs:82-97 | without a failure, `resolve_one` is none exactly when no recorded version of the id matches |
| `Db.ResolveOneGreatest` | src/db.rs:82-97 | without a failure, `resolve_one` answers the recorded matching version that is greater than every other recorded matching version |
| `Db.ResolveAll` | src/db.rs:99-113 | `resolve_all` returns exactly the matches, greatest first, without a failure, and the failure otherwise |
| `Db.TakeDelivered` | src/db.rs:128-129 | taking n from a delivered prefix of all matches gives the first n matches, or the failure when fewer were delivered |
| `Db.ResolveN` | src/db.rs:115-131 | `resolve_n` is the first min(n, all) matches, `n = 0` gives nothing, and a failure shows only when fewer than n matches preceded it |
| `Db.StoredTriples` | src/db.rs:89 | exactly the signed column triples of the id's rows, all within i64 |
| `Db.AsWrittenRows` | src/db.rs:87-92 | the table's own order: exactly the id's rows, strictly descending by the signed column values |
| `Db.AsWrittenRowsSound` | src/db.rs:87-92 | rows built from the stored signed triples are exactly the id's rows |
| `Db.StoredAreVersions` | src/db.rs:61-63 | with no negative column, the stored signed triples are the recorded versions |
| `Db.RowAtVersion` | src/db.rs:38-63 | with no negative column, the row of a recorded version holds its components unchanged |
| `Db.InsertKeepsNonNegative` | src/db.rs:61-73 | inserting a version whose components are below 2^63 keeps every stored column non-negative |
| `Db.AsWrittenAgreesWhenNonNegative` | src/db.rs:61-89 | with no negative column, the signed order the table applies is the version order |
| `Db.MisorderCatalogRows` | src/db.rs:61-73 | inserting 2^63.0.0 and 1.0.0 stores the first with a negative major column |
| `Db.AsWrittenMisorders` | src/db.rs:61-89 | with 2^63.0.0 and 1.0.0 published, the table returns 1.0.0 first although it is the smaller version |
| `Db.AsWrittenResolveOne` | src/db.rs:82-97 | `resolve_one` over the table's signed order: without a failure, the first match in that order, or none |
| `Db.MisorderRecorded` | src/db.rs:61-73 | that catalog records 2^63.0.0 for the id and no version other than 2^63.0.0 and 1.0.0 |
| `Db.AsWrittenResolveOneMisorders` | src/db.rs:61-97 | on that catalog, `resolve_one` as written answers 1.0.0 for every requirement that 1.0.0 meets, whether or not 2^63.0.0 meets it too |
| `Db.CorrectedOrderOnMisorderCatalog` | src/db.rs:82-97 | on the same catalog, ordering by the unsigned version makes `resolve_one` answer 2^63.0.0 for every requirement that 2^63.0.0 meets |
| `Store.Decimal` | src/routes.rs:97 | a number's decimal text: digits only, no leading zero, and it reads back as the number |
| `Store.DecimalInjective` | src/routes.rs:97 | distinct numbers have distinct decimal texts |
| `Store.FilePath` | src/routes.rs:93-97 | the file `download` reads is the downloads directory, then the id, then the decimal major, minor and patch |
| `Store.UploadDir` | src/routes.rs:116-119 | the directory `upload` creates is the downloads directory, then the id, then the decimal major and minor |
| `Store.UploadFile` | src/routes.rs:116-122 | the file `upload` writes is in the directory it creates and is the file `download` reads |
| `Store.FilePathInjective` | src/routes.rs:93-97 | two versions share a file exactly when they have the same id and numeric core |
| `Store.ReadFile` | src/routes.rs:93-99 | `fs::read` returns the file's contents, not-found for a missing file, or another error when the read fails |
| `Store.CreateDirAll` | src/routes.rs:120 | `create_dir_all` succeeds unless it fails |
| `Store.WriteFile` | src/routes.rs:123 | `fs::write` leaves exactly the new contents in that file and changes no other file; a failed write changes nothing |
| `Routes.ParseResolveQuery` | src/routes.rs:13-24 | a missing `req` matches every version, and a missing `limit` is 1 |
| `Routes.Resolve` | src/routes.rs:69-89 | `limit = 1` answers one version and every other limit answers a list; not-found only for `limit = 1`; failures only as not-found or internal error |
| `Routes.ResolveAgreesWithCatalog` | src/routes.rs:75-88 | the limit switch answers `resolve_one`, `resolve_all` or `resolve_n`, with no match turned into not-found and a database failure into an internal error |
| `Routes.ResolveLatest` | src/routes.rs:79 | `limit = 1` answers the head of all matches, and not-found exactly when no recorded version of the id matches |
| `Routes.ResolveLatestIsGreatest` | src/routes.rs:79 | the version `limit = 1` answers is recorded, matches, and is greater than every other recorded matching version |
| `Routes.ResolveEvery` | src/routes.rs:81-83 | `limit = 0` lists every match greatest first, as an empty list when there is none, and fails as an internal error |
| `Routes.ResolveFirstN` | src/routes.rs:85-87 | `limit = n > 1` lists the n greatest matches, or all of them when fewer |
| `Routes.DefaultQueryLatest` | src/routes.rs:18-24 | a query without parameters answers the id's greatest version, and not-found exactly when the id has no version |
| `Routes.HeaderToStr` | src/routes.rs:60 | `to_str` succeeds exactly on tab and visible-ASCII bytes, and then gives those characters |
| `Routes.Auth` | src/routes.rs:54-65 | the closure admits exactly when a header is present, readable and a configured key; no header is unauthorized; an unreadable header is an internal error |
| `Routes.OptionalHeader` | src/routes.rs:53 | warp's header filter rejects a present header that is not valid text as an invalid header and passes the header on otherwise |
| `Routes.AuthFilterNeverInternalError` | src/routes.rs:50-67 | behind warp's header filter, `auth` rejects only as unauthorized; only a header the filter rejects would reach the internal-error branch |
| `Routes.AuthAdmitsConfiguredKeys` | src/routes.rs:53-64 | a client sending a key is admitted exactly when that key is configured |
| `Routes.Download` | src/routes.rs:91-102 | `download` returns the bytes stored at the version's path, and every failure is not-found |
| `Routes.Upload` | src/routes.rs:104-126 | created exactly when the row was new and both storage calls succeeded; conflict exactly for a present row; otherwise an internal error; the row stays and only a created upload changes files |
| `Routes.Publish` | src/routes.rs:38-42 | the upload route runs `upload` only after `auth` admits the request; a rejected request changes nothing and is answered invalid-header or unauthorized |
| `Routes.UploadThenDownload` | src/routes.rs:91-126 | a created upload is downloaded back byte for byte, also under any version with the same numeric core |
| `Routes.ConflictKeepsBytes` | src/routes.rs:112-114 | a conflicting upload changes nothing, so the stored bytes are still what is downloaded |
| `Routes.SecondUploadConflicts` | src/routes.rs:104-126 | of two uploads of one version, the second conflicts and the first one's bytes are served |
| `Routes.UploadLeavesOtherFiles` | src/routes.rs:116-123 | an upload leaves every other version's download unchanged |
| `Routes.FailedStoreKeepsRecord` | src/routes.rs:112-123 | when storing fails after the insert, the answer is an internal error, the version is recorded, and its download is not-found |
| `Routes.PublishKeepsFilesRegistered` | src/routes.rs:112-123 | uploads keep every stored file backed by a catalog row |
| `Routes.UnregisteredNotFound` | src/routes.rs:91-102 | while every file is registered, a version that was never registered is not found |
| `Scenario.UploadsCreated` | src/tests.rs:30-54 | the three uploads are created, and the catalog holds exactly their three rows |
| `Scenario.DuplicateAndDownloads` | src/tests.rs:56-83 | the duplicate upload conflicts, 1.0.0 downloads its first bytes, and 3.0.0 is not found |
| `Scenario.CaretMatchList` | src/tests.rs:101-121 | on the catalog of the three uploads, [1.2.0, 1.0.0] meets the reference description of bshook's `^1` matches |
| `Scenario.CaretMatches` | src/tests.rs:101-121 | the matches of `^1` among bshook's versions are 1.2.0 then 1.0.0 |
| `Scenario.ResolveCaret` | src/tests.rs:85-121 | `^1` over bshook answers 1.2.0 as latest and [1.2.0, 1.0.0] as all |
| `Scenario.TildeNoMatch` | src/tests.rs:123-130 | on the catalog of the three uploads, no recorded version of hsv meets `~3` |
| `Scenario.ResolveTildeNone` | src/tests.rs:123-130 | `~3` over hsv is not found |
| `Scenario.NumericOrder` | src/db.rs:89 | with 9.0.0 and 10.0.0 published, the latest is 10.0.0 and the listing starts with it: components compare as numbers |

## Left out

- `db::connect` (src/db.rs:10-22), src/main.rs and src/config.rs: opening the database, running migrations, loading the configuration and starting the server are I/O. `Config` keeps only the downloads path and the key set.
- The warp routing in `handler` (src/routes.rs:26-48): path matching, the `.or` chain and `recover` are transport plumbing. Each route is a function of its own. `Routes.Publish` models the one composition with content: `auth` before `upload`.
- Status codes, JSON serialisation and the rejection-to-response mapping: the model stops at the reply and rejection values.
- The `semver` crate. Parsing versions and requirements and `VersionReq::matches` are foreign code. A requirement is any predicate on versions. `^1` and `~3` appear only in `Scenario`, and only for the plain versions used there.
- A `limit` that does not parse as a `usize`: warp rejects it before `resolve` runs.
- Logging through `tracing`: it has no effect on results.
- Concurrency: each insert and each filesystem call is one atomic step. Interleavings of concurrent uploads between the insert and the write are not modelled; `Db.InsertWinsOnce` covers their catalog side.
- Database failures part-way through a stream are modelled as ending the stream. Items after an error are never read by the code.
- `fs::write` failures are all-or-nothing. Partial files and directories as entries in the store are not modelled. `create_dir_all` only succeeds or fails.
- Ids are single path segments. An id containing `/`, or equal to `.` or `..`, would make `downloads_path.join(id)` reach elsewhere; that is outside the model.
- `Db.List`: the order of `SELECT DISTINCT id` is unspecified, so the contract states membership and distinctness only.
- `Db.InsertAll`: the contract states only that each call answers once and that no row is removed; `Db.InsertWinsOnce` states what the answers are.
- `Db.FilterMods`: the contract states only the length bound; `Db.FilterModsMembers` and `Db.FilterModsDescending` state which mods it keeps and in what order, and `Db.Matches` carries the combined description. Those quantified facts stay out of the recursive function's own contract so that proofs mentioning it stay small.
- `Db.TryFilterMap`: the contract states only the length bound; `Db.TryFilterMapYields` and `Db.TryFilterMapFailing` state what it yields on the streams the queries produce.
- `Db.Rows`: the resolve chain (`Db.ResolveOne`, `Db.ResolveAll`, `Db.ResolveN` and the `Routes` resolve lemmas) uses the corrected, unsigned order. That equals the table's order only on catalogs with no negative column (`Db.AsWrittenAgreesWhenNonNegative`). For the table's order itself, see the finding below.
- The table schema: the unique constraint over `(id, major, minor, patch)` is assumed; the migrations that create it are not part of this model.
- `crate::errors::handle_rejection` (used at src/routes.rs:47) is not defined in src/errors.rs, and neither is `crate::errors::Unauthorized`. How rejections become responses is not modelled.
- `Scenario`: src/tests.rs requests paths under `/mod/`, `/latest/` and `/all/`, which the routes of src/routes.rs do not serve. Its `Config` literal (src/tests.rs:20-25) omits the required field `keys` (src/config.rs:13), so the test does not compile, and its uploads send no `Authorization` header. The scenario replays the evident intent instead: the routes' own paths and one configured key sent in the header.

## Findings

| source | as written | input that shows it | evidently intended | confidence | as-written member | corrected member |
|---|---|---|---|---|---|---|
| src/db.rs:61-63 | components are cast `as i64` and stored in signed columns, and `ORDER BY major DESC, minor DESC, patch DESC` compares the signed values, so a component of 2^63 or more sorts below every smaller one | publish versions 9223372036854775808.0.0 and 1.0.0 of one id; the rows come back as 1.0.0 then 9223372036854775808.0.0, so `resolve` with limit 1 answers 1.0.0 | versions ordered by their unsigned components, greatest first | not executed | `Db.AsWrittenResolveOneMisorders` | `Db.CorrectedOrderOnMisorderCatalog` |

`Db.AsWrittenMisorders` shows the row order behind it. The rest of the model resolves over `Db.Rows`, which orders by the unsigned versions. `Db.AsWrittenAgreesWhenNonNegative` proves that both orders agree whenever every stored column is non-negative. `Db.InsertKeepsNonNegative` shows that this holds for every catalog built from versions whose components are below 2^63.
