# Asset tracking: server actions for assets and spreadsheet import

This project models, in Dafny, the server actions of an internal IT-asset
tracking application. It covers two source files:

- `src/actions/asset-actions.ts`:
  - registering an asset under a fresh `A<YYMMDD><NNNNN>` code taken from a per-day counter;
  - listing the assets a user may see, newest first;
  - looking an asset up by code;
  - editing an asset's owner and manager;
  - soft-deleting an asset by code or by id.
- `src/actions/import-actions.ts`: importing the first sheet of an uploaded workbook.
  - Each row's `소속` (department) cell is split on white space into levels.
  - Each level is found in, or appended to, a department tree keyed by its `/`-joined path.
  - The asset is then upserted by its `자산번호` (asset code).

The relational store is the class `Records.Store`, with the three tables
(`AssetSequence`, `Department`, `Asset`) as fields. Each action that writes is
a method on the store, whose postcondition ties the store afterwards and the
result to a function of the store before:

- `AssetActions.Create`, `Update`, `SoftDelete` and `SoftDeleteById`;
- `ImportActions.Import`, with the row loop `ImportAll` and one row `ImportRow`;
- the department walk `DeptResolve.Resolve`, built from one level `Step`.

The lemmas state what the source promises about those functions:

- consistency of the store is preserved;
- codes read back and never repeat;
- the department walk builds the tree and reuses what it finds;
- the import's upsert, skip and count rules hold;
- listing, lookup and soft delete agree with each other.

The model is organised in these files:

- `text.dfy` (module `Text`): decimal text, `padStart`, `trim`, `split(/\s+/)` and the running path.
- `records.dfy` (module `Records`): rows, the store and the lookups Prisma issues.
- `asset_code.dfy` (module `AssetCode`): the date key, the counter and the code.
- `asset_actions.dfy` (module `AssetActions`): the asset actions.
- `dept_resolve.dfy` (module `DeptResolve`): the department walk.
- `import_actions.dfy` (module `ImportActions`): the import.
- `dept_examples.dfy` (module `DeptExamples`): worked examples of the walk.

Inputs that the source obtains from its environment are parameters here:

- the session user (`Option<User>`, `None` when nobody is logged in);
- the calendar day and the deletion time;
- the submitted form (a map from field name to text, with an absent key where `formData.get` gives `null`);
- the parsed workbook (a sequence of sheets, each a sequence of rows).

## Model

| member | source | states |
|---|---|---|
| Records.FindPath | src/actions/import-actions.ts:92-94 | the index found holds the path; no index means no department has that path |
| Records.FindName | src/actions/asset-actions.ts:68-70 | the index found is the first department with that name; no index means none has it |
| Records.FindCode | src/actions/asset-actions.ts:132-135 | the index found holds the asset code; no index means no asset has it |
| Records.FindId | src/actions/asset-actions.ts:202-205 | the index found holds the id; no index means no asset has it |
| Records.Store.UpsertSequence | src/actions/asset-actions.ts:56-60 | the returned count is the date's previous count plus one, or 1 for a new date; only that date's entry changes |
| Records.Store.CreateDepartment | src/actions/import-actions.ts:101-110 | appends one department with the next id and the given name, path, depth and parent |
| Records.Store.InsertAsset | src/actions/asset-actions.ts:74-87 | appends the asset with the next id |
| Records.Store.ReplaceAsset | src/actions/asset-actions.ts:164-167 | rewrites exactly the asset at the index |
| Text.DecValue | src/actions/asset-actions.ts:51-53 | the decimal text of n reads back as n |
| Text.DecLength | src/actions/asset-actions.ts:62 | the decimal text of n has at most k digits exactly when n < 10^k |
| Text.PadStart | src/actions/asset-actions.ts:52-53 | the result is the fill characters followed by the text; it is `width` long, or the text unchanged when that is already longer |
| Text.PaddedDecValue | src/actions/asset-actions.ts:62 | zero-padded decimal text is all digits and reads back as the number |
| Text.SplitWsPieces | src/actions/import-actions.ts:79 | no piece of `split(/\s+/)` holds white space, and the pieces concatenated are exactly the non-space characters; where the cuts fall is fixed by `Text.SplitWsWord` and `Text.SplitWsSpace` |
| Text.TrimEnds | src/actions/import-actions.ts:79 | `trim()` leaves no white space at either end |
| Text.TrimSplitSegments | src/actions/import-actions.ts:79 | the pieces of a trimmed cell are non-empty and space-free, except for an all-space cell, which gives the single piece "" |
| Text.SplitWsWord | src/actions/import-actions.ts:79 | a word without white space splits into itself alone |
| Text.SplitWsSpace | src/actions/import-actions.ts:79 | a word, a run of white space of any length and kind, and a rest not starting with white space split into the word followed by the rest's pieces; with `Text.SplitWsWord` this determines the pieces of every string |
| Text.LevelPathsStep | src/actions/import-actions.ts:85 | level i's running path is level i-1's path, "/" and piece i (the bare piece at level 0) |
| Text.LevelPathIsJoin | src/actions/import-actions.ts:80-86 | with non-empty pieces, level i's running path is pieces 0..i joined with "/" |
| Text.LevelPathsDistinct | src/actions/import-actions.ts:83-86 | the levels of a split cell have pairwise different paths |
| AssetCode.DateStringShape | src/actions/asset-actions.ts:50-54 | a valid day's key is six digits that read back as year mod 100, the one-based month and the day |
| AssetCode.DateStringInjective | src/actions/asset-actions.ts:50-54 | two valid days share a key exactly when they agree on year mod 100, month and day |
| AssetCode.FormatParse | src/actions/asset-actions.ts:62-63 | a code parses back into its date key and count |
| AssetCode.FormatCodeInjective | src/actions/asset-actions.ts:62-63 | different (date key, count) pairs give different codes |
| AssetCode.FormatCodeLength | src/actions/asset-actions.ts:62-63 | a code is 12 characters while the count is under 100000, and longer, never truncated, beyond that |
| AssetCode.FormatExample | src/actions/asset-actions.ts:50-63 | count 7 on 7 June 2024 gives `A24060700007` |
| AssetCode.AllocationCounts | src/actions/asset-actions.ts:56-60 | each counter upsert returns the date's starting count plus the upserts on that date so far; other dates do not move it |
| AssetCode.SameDateCounts | src/actions/asset-actions.ts:56-60 | N upserts on a new date return exactly 1, 2, …, N |
| AssetCode.AllocatedCodesDistinct | src/actions/asset-actions.ts:56-63 | codes issued by any run of counter upserts are pairwise distinct |
| AssetActions.CreateAsset | src/actions/asset-actions.ts:19-96 | result and store afterwards are those of `Create`; a code collision also rolls the counter back |
| AssetActions.CreateErrorsEmpty | src/actions/asset-actions.ts:8-17 | the schema accepts exactly the forms with five non-empty required fields plus description and qrUrl present; each reported field is missing or empty |
| AssetActions.CreateRefusals | src/actions/asset-actions.ts:20-43 | a refusal writes nothing; it is "not logged in" iff there is no user, a field error iff the schema rejects the form, and a store failure iff the new code is taken |
| AssetActions.CreateKeepsValid | src/actions/asset-actions.ts:47-88 | registering keeps ids, unique codes and department references consistent |
| AssetActions.CreateSuccess | src/actions/asset-actions.ts:45-91 | the new asset is appended with the next id and a code no row had, under the day's advanced counter; it carries the form's fields, status ACTIVE by default, the user's department, and no deletion; lookup by its code finds it |
| AssetActions.UserDepartmentIdSpec | src/actions/asset-actions.ts:65-72 | the department is the first one named like the user's; there is none iff the name is empty or unused |
| AssetActions.CreatedCode | src/actions/asset-actions.ts:49-63 | the new code reads back as the day's key and the previous count plus one (1 on a new day); it is 12 characters below 100000 |
| AssetActions.CreateSameDay | src/actions/asset-actions.ts:56-63 | two registrations on one day get consecutive counts under the same key, so different codes |
| AssetActions.NewestFirstRows | src/actions/asset-actions.ts:106-121 | every listed entry is a visible row shown with its department |
| AssetActions.NewestFirstOrder | src/actions/asset-actions.ts:117-121 | ids strictly decrease along the list |
| AssetActions.NewestFirstComplete | src/actions/asset-actions.ts:106-121 | every visible row is listed |
| AssetActions.GetAssetsSpec | src/actions/asset-actions.ts:99-128 | no user gives "not logged in"; otherwise the list holds exactly the live rows (in the user's department unless admin), with departments, newest first |
| AssetActions.GetAssetByCodeSpec | src/actions/asset-actions.ts:130-142 | a found asset has the code, is live and comes with its department; "not found" means no live row has the code |
| AssetActions.ListAndLookupAgree | src/actions/asset-actions.ts:99-142 | for an admin, every listed asset is found by its code as listed, and every found asset is listed |
| AssetActions.UpdateAsset | src/actions/asset-actions.ts:144-175 | result and store afterwards are those of `Update` |
| AssetActions.UpdateErrorsEmpty | src/actions/asset-actions.ts:144-161 | the schema accepts exactly the forms with all six fields present and the owner and manager ones non-empty |
| AssetActions.UpdateOutcome | src/actions/asset-actions.ts:144-175 | a rejected form or unknown code writes nothing; otherwise only the owner, manager, description and status of the code's row change, and the store stays consistent |
| AssetActions.UpdateIdempotent | src/actions/asset-actions.ts:163-167 | submitting the same edit twice equals submitting it once |
| AssetActions.UpdateThenLookup | src/actions/asset-actions.ts:136-167 | an edit never revives a soft-deleted asset, and a live asset is looked up as edited |
| AssetActions.DeleteAsset | src/actions/asset-actions.ts:177-189 | result and store afterwards are those of `SoftDelete` |
| AssetActions.DeleteAssetById | src/actions/asset-actions.ts:191-212 | result and store afterwards are those of `SoftDeleteById` |
| AssetActions.SoftDeleteOutcome | src/actions/asset-actions.ts:177-189 | an unknown code fails and writes nothing; otherwise only the code's row gets the deletion time, stays in the table, and the store stays consistent |
| AssetActions.SoftDeleteHides | src/actions/asset-actions.ts:106-136 | after a soft delete the asset is in no user's list and lookup by code says "not found" |
| AssetActions.SoftDeleteTwice | src/actions/asset-actions.ts:179-182 | deleting again keeps only the last deletion time |
| AssetActions.SoftDeleteByIdSpec | src/actions/asset-actions.ts:191-212 | no user or a non-admin is refused with nothing written; for an admin, deleting by a row's id is deleting by its code, and an unknown id is a store failure |
| DeptResolve.Step | src/actions/import-actions.ts:84-115 | one level sets the running path and a parent, only appends to the table, counts a creation exactly when it appends, and changes nothing on a cache hit |
| DeptResolve.CreateTable | src/actions/import-actions.ts:100-113 | creating a level's department keeps the table consistent, the cache agreeing and the walk anchored |
| DeptResolve.StepTable | src/actions/import-actions.ts:88-115 | every level keeps the table consistent, the cache agreeing and the walk anchored at its running path |
| DeptResolve.StepStores | src/actions/import-actions.ts:88-115 | a level caches its path, keeps earlier entries, and counts a creation exactly when its path was not stored |
| DeptResolve.StepInv | src/actions/import-actions.ts:83-116 | one level preserves the walk invariant |
| DeptResolve.WalkFromInv | src/actions/import-actions.ts:83-116 | the remaining levels preserve the walk invariant |
| DeptResolve.ResolveSound | src/actions/import-actions.ts:77-117 | the walk keeps the table consistent and only appends, caches every level, gives each new row its level's name, path, depth and parent, ends at the leaf path's department, and counts exactly the levels not stored before |
| DeptResolve.ResolveStored | src/actions/import-actions.ts:88-115 | after the walk every level's path is stored |
| DeptResolve.ResolveCount | src/actions/import-actions.ts:112 | `createdDepts` grows by the number of rows appended, which is the number of levels not stored before |
| DeptResolve.ResolveLeaf | src/actions/import-actions.ts:117 | the id returned names the department holding the last level's path |
| DeptResolve.ResolveStoredNoop | src/actions/import-actions.ts:88-98 | a cell whose levels are all stored creates nothing |
| DeptResolve.ResolveIdempotent | src/actions/import-actions.ts:77-117 | resolving a cell again creates nothing and ends at the same department |
| DeptResolve.ResolveStoredPrefix | src/actions/import-actions.ts:88-113 | with the first m levels stored, only unstored later levels are created, at most \|parts\| - m |
| DeptResolve.ResolveSharedPrefix | src/actions/import-actions.ts:88-113 | a cell sharing its first m pieces with an earlier one creates at most \|q\| - m departments |
| DeptExamples.ThreeWordCell | src/actions/import-actions.ts:79 | a cell of three words separated by runs of white space splits into those words |
| DeptExamples.MixedSpacingCell | src/actions/import-actions.ts:79 | a tab and a double space separate the words of a cell like single spaces |
| DeptExamples.SlashedPieceExample | src/actions/import-actions.ts:77-115 | the cell "A/B" and then "A B C" leave "A/B/C" at depth 2 directly under the root "A/B" at depth 0 |
| DeptExamples.HierarchyCellExample | src/actions/import-actions.ts:77-118 | "본사 경영지원본부 인사팀" on an empty table creates three departments at depths 0, 1, 2 with paths 본사, 본사/경영지원본부, 본사/경영지원본부/인사팀, each the parent of the next |
| DeptExamples.ReuseCellExample | src/actions/import-actions.ts:77-118 | "본사 경영지원본부 재무팀" right after creates only its leaf, under the existing middle level |
| ImportActions.CellText | src/actions/import-actions.ts:50 | the text of a truthy cell is non-empty |
| ImportActions.TextCell | src/actions/import-actions.ts:50-57 | a cell gives text exactly when it is present and truthy, and that text is non-empty |
| ImportActions.TextOr | src/actions/import-actions.ts:53-58 | a missing or falsy cell gives the default, a text cell its text, and a non-zero number nothing the store accepts |
| ImportActions.ResolveLevel | src/actions/import-actions.ts:83-115 | one level on the store is `Step` of the walk before |
| ImportActions.ResolveDepartments | src/actions/import-actions.ts:77-118 | the loop over the levels on the store is `Resolve` of the table before |
| ImportActions.WalkDepartments | src/actions/import-actions.ts:75-118 | a row's department walk on the store is `DeptWalk`, with no department for an empty cell |
| ImportActions.UpsertAssetRow | src/actions/import-actions.ts:125-148 | the asset table afterwards is `UpsertAsset` of the table before |
| ImportActions.ImportOneRow | src/actions/import-actions.ts:49-149 | one pass of the loop on the store is `ImportRow`, failing exactly when the row is refused |
| ImportActions.ImportAssetsFromExcel | src/actions/import-actions.ts:20-163 | result and store afterwards are those of `Import` |
| ImportActions.DeptWalkSound | src/actions/import-actions.ts:75-118 | a row's walk keeps the table consistent, only appends and counts each row; it ends at a department exactly when the cell is non-empty, the one holding the leaf path |
| ImportActions.BlankCellWalk | src/actions/import-actions.ts:54-79 | a white-space-only cell is still walked and files the asset under a department with path "" |
| ImportActions.UpsertAssetSpec | src/actions/import-actions.ts:125-148 | after the upsert exactly one row holds the code, with the row's name, department and owner; an existing row keeps its id, manager, description, QR url, status and deletion; a new row gets the next id and the import's defaults |
| ImportActions.UpsertAssetValid | src/actions/import-actions.ts:125-148 | the upsert keeps ids, unique codes and department references consistent |
| ImportActions.ImportRowValid | src/actions/import-actions.ts:49-149 | one row keeps the store consistent and only grows it, counting each department; a refused row leaves the assets as they were but keeps its departments |
| ImportActions.ImportAllValid | src/actions/import-actions.ts:49-150 | the row loop keeps the store consistent, only grows it, and counts every department it adds |
| ImportActions.Coded | src/actions/import-actions.ts:50-51 | the coded rows are a sub-list, each with an asset code |
| ImportActions.SkippedRowsHaveNoEffect | src/actions/import-actions.ts:50-51 | rows without an asset code change nothing: importing only the coded rows gives the same outcome |
| ImportActions.ProcessedCountsCodedRows | src/actions/import-actions.ts:43-149 | `processedAssets` counts exactly the coded rows |
| ImportActions.ImportAllAppend | src/actions/import-actions.ts:49-150 | one more row continues from where the earlier rows left the import |
| ImportActions.ImportRowUpsert | src/actions/import-actions.ts:125-149 | a coded row that goes through leaves exactly one asset with its code, name, owner and leaf department; the table grows exactly when the code was new |
| ImportActions.LastRowWins | src/actions/import-actions.ts:49-150 | whatever came before, a coded last row leaves exactly its own asset for its code |
| ImportActions.ImportTwoRows | src/actions/import-actions.ts:49-150 | a two-row import is the first row followed by the second |
| ImportActions.SameCodeTwice | src/actions/import-actions.ts:125-148 | two rows with one code leave one asset, carrying the second row's values, and add at most one asset |
| ImportActions.ImportFailsIffRefused | src/actions/import-actions.ts:125-162 | the import stops with a failure exactly when some row has a non-zero number as its name or owner |
| ImportActions.ImportRowStores | src/actions/import-actions.ts:88-115 | after a coded row goes through, every level of its department cell is stored |
| ImportActions.ImportAllStores | src/actions/import-actions.ts:49-150 | after the loop goes through, every level of every coded row's cell is stored |
| ImportActions.ImportRowStoredNoop | src/actions/import-actions.ts:88-98 | a row whose levels are all stored creates no department |
| ImportActions.ReimportKeepsDepartments | src/actions/import-actions.ts:49-150 | a loop over rows whose levels are all stored creates no department |
| ImportActions.ReimportCreatesNoDepartments | src/actions/import-actions.ts:20-157 | importing a file again right after it went through succeeds and creates no department |
| ImportActions.ImportOutcome | src/actions/import-actions.ts:20-163 | the store stays consistent and only grows; no file, sheet or data fails before any write; the import fails on the store iff some row is refused; a success counts every coded row as processed and every added department as created |

## Behaviour followed from the code

- **Blank department cell.** The department cell is tested for truthiness before it is trimmed. A cell of white space only is therefore still walked: it becomes the single piece "", and the asset is filed under a department with empty name and path (`ImportActions.BlankCellWalk`).
- **Department on registration.** `createAsset` never creates departments. It files the asset under the first department whose name equals the user's department, and under none when nothing matches.
- **Soft-deleted assets.** `getAssetByCode` reports a soft-deleted asset as not found.
- **Update form.** The update schema is the create schema made partial, but a missing form field reaches it as `null`, which an optional zod string rejects. So `updateAsset` needs all six fields present, and the owner and manager ones non-empty.
- **No login check.** `updateAsset` and `deleteAsset` ask for no login.
- **A piece that holds "/".** Pieces are split on white space only, and a level's path is its pieces joined with "/". A piece such as "A/B" therefore makes a root department whose path looks two levels deep. A later cell "A B C" finds that root as its second level. It creates "C" at depth 2 directly under the root at depth 0. A department's depth is the index of its piece in the cell, not one more than its parent's depth, so `Records.Linked` does not require the latter (`DeptExamples.SlashedPieceExample`).
- **Import is not one transaction.** Departments written for a row whose asset upsert is refused stay in the store, and so do the assets of earlier rows.

## Left out

- The spreadsheet parser is not part of this model.
  - The workbook is an input: its sheets, and each sheet's rows as maps from header to cell.
  - A cell is text or an integer.
  - Fractional numbers, dates and booleans are not modelled.
  - Neither are the errors of reading a corrupt file.
- Only the store failures the actions can provoke are modelled:
  - a taken asset code on registration;
  - a missing code or id on update and delete;
  - a number where the import writes a text column.
  - Connection failures and other exceptions are not.
- The exception text the import appends to its failure message is not modelled. The actions' user-facing error strings are named by an error kind.
- Zod's error structure is reduced to the set of rejected field names.
- `revalidatePath` and console logging have no effect on the store and are left out.
- Sessions and JWT handling are not part of this model. `getCurrentUser` is an input.
- The clock is an input: the day for `createAsset` and the deletion time.
- `createdAt`, `updatedAt` and `modelId` are not modelled.
  - `getAssets` orders by `createdAt`. The model orders by id, assuming creation times increase with ids.
- Concurrency is not modelled, so the actions run one at a time:
  - concurrent requests and imports;
  - the store's atomic upserts;
  - retries after a lost race.
- AssetCode.DateStringShape, AssetCode.DateStringInjective, AssetActions.CreatedCode and AssetActions.CreateSameDay are stated for four-digit years only. `getFullYear().toString().slice(2)` keeps three or more digits from year 10000 on, and the key is then longer than six characters.
- Ids are modelled as dense: the row at index k has id k + 1.
  - The database's id sequence is not given back when an insert fails. After `createAsset` loses on a taken code, the next asset's id skips a number. `AssetActions.CreateSuccess` promises id |assets| + 1 and does not capture that gap.
  - `AssetActions.SoftDeleteByIdSpec` relates an id to the row at index id - 1 under the same assumption.
- `findFirst({ where: { name } })` has no `orderBy` and returns no particular row. `Records.FindName` takes the one with the lowest id, which is a modelling choice.
- The import's result carries only the success message. The model's `Summary` also exposes the `processedAssets` and `createdDepts` counters so that lemmas can state them. `createdDepts` is counted in the source but never returned.
- Integer widths are not modelled. Ids and the daily counter are 32-bit integers in the database and unbounded here. Numeric cells are JavaScript doubles in the workbook and integers here, so `String(n)` of a cell from 1e21 up (exponent notation) or beyond 2^53 (lost precision) is not captured.
- `getDashboardStats` (counts and groupings for the dashboard) is not modelled.
- The UI pages, auth actions, seed and debug scripts are not part of this model.
