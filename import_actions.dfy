/**
 * `importAssetsFromExcel`: the rows of the first sheet of an uploaded
 * workbook are turned into assets, one upsert per row keyed by `자산번호`,
 * after the row's `소속` cell has been resolved into a chain of departments.
 *
 * `ImportRow` and `ImportAll` say what the import does to the store;
 * `ImportAssetsFromExcel` does it step by step on a `Store` and is proved to
 * agree with them.
 */
module ImportActions {
  import opened Text
  import opened Records
  import opened DeptResolve

  // ---------------------------------------------------------------------------
  // Spreadsheet rows

  /** A cell as `sheet_to_json` yields it: text or an (integral) number. */
  datatype Cell = Str(s: string) | Num(n: int)

  /** A row, keyed by the header cells; a key is missing when the cell is empty. */
  type Row = map<string, Cell>

  /** The sheets of a workbook, each as the rows `sheet_to_json` yields. */
  type Workbook = seq<seq<Row>>

  const ASSET_CODE := "자산번호"
  const ASSET_NAME := "자산명"
  const DEPARTMENT := "소속"
  const OWNER_NAME := "소유자"
  const EMPLOYEE_ID := "사번"

  const DEFAULT_ASSET_NAME := "무명자산"
  const DEFAULT_OWNER_NAME := "미확인"
  const UNKNOWN := "UNKNOWN"

  /** JavaScript truthiness of a cell: the empty string and the number 0 are falsy. */
  predicate Truthy(c: Cell) {
    match c
    case Str(s) => s != ""
    case Num(n) => n != 0
  }

  /** `String(cell)`. */
  function CellText(c: Cell): (s: string)
    ensures Truthy(c) ==> s != ""
  {
    match c
    case Str(s) => s
    case Num(n) => IntText(n)
  }

  /** `row[key] ? String(row[key]) : null`. */
  function TextCell(row: Row, key: string): (r: Option<string>)
    ensures r.Some? <==> key in row && Truthy(row[key])
    ensures r.Some? ==> r.value != ""
  {
    if key in row && Truthy(row[key]) then Some(CellText(row[key])) else None
  }

  /**
   * `row[key] || fallback` as the value handed to the store: the fallback for
   * a missing or falsy cell, the text of a text cell, and None for a non-zero
   * number, which the store refuses for a text column.
   */
  function TextOr(row: Row, key: string, fallback: string): (r: Option<string>)
    ensures !(key in row && Truthy(row[key])) ==> r == Some(fallback)
    ensures key in row && row[key].Str? && Truthy(row[key]) ==> r == Some(row[key].s)
    ensures r.None? <==> key in row && row[key].Num? && row[key].n != 0
  {
    if key in row && Truthy(row[key]) then
      match row[key]
      case Str(s) => Some(s)
      case Num(_) => None
    else Some(fallback)
  }

  /** The row's department cell as text, "" when it is missing or falsy. */
  function DeptString(row: Row): string {
    match TextCell(row, DEPARTMENT)
    case Some(s) => s
    case None => ""
  }

  /** The owner id the row assigns: the employee number as text, or "UNKNOWN". */
  function OwnerId(row: Row): string {
    match TextCell(row, EMPLOYEE_ID)
    case Some(s) => s
    case None => UNKNOWN
  }

  /** The pieces a non-empty department cell is split into. */
  function DeptParts(deptString: string): seq<string> {
    SplitWs(Trim(deptString))
  }

  // ---------------------------------------------------------------------------
  // The import as a function of the store

  /** The batch's running state: the store, the department cache and the two counters. */
  datatype ImportState = ImportState(db: Db, cache: map<string, nat>, processed: nat, created: nat)

  /** Either the import goes on, or a row made the store throw and the import stopped with this store. */
  datatype Progress = Running(st: ImportState) | Failed(db: Db)

  /**
   * `asset.upsert({ where: { assetCode } })`: an existing row gets the name,
   * department and owner; otherwise a row is created with the defaults of the
   * import.
   */
  function UpsertAsset(assets: seq<Asset>, code: string, name: string, deptId: Option<nat>,
                       ownerId: string, ownerName: string): seq<Asset>
  {
    match FindCode(assets, code)
    case Some(k) =>
      assets[k := assets[k].(assetName := name, departmentId := deptId, ownerId := ownerId, ownerName := ownerName)]
    case None =>
      assets + [Asset(|assets| + 1, code, name, ownerId, ownerName, UNKNOWN, DEFAULT_OWNER_NAME,
                      None, None, ACTIVE, deptId, None)]
  }

  /** The department walk of a row: none when the cell is empty, else over its pieces. */
  function DeptWalk(depts: seq<Department>, cache: map<string, nat>, created: nat, deptString: string): Walk {
    if deptString != "" then Resolve(depts, cache, created, DeptParts(deptString))
    else Walk(depts, cache, "", None, created)
  }

  /** What the loop reads from one row before it writes anything. */
  datatype RowFields = RowFields(
    code: Option<string>,
    name: Option<string>,
    deptString: string,
    ownerId: string,
    ownerName: Option<string>)

  function Fields(row: Row): RowFields {
    RowFields(TextCell(row, ASSET_CODE), TextOr(row, ASSET_NAME, DEFAULT_ASSET_NAME), DeptString(row),
              OwnerId(row), TextOr(row, OWNER_NAME, DEFAULT_OWNER_NAME))
  }

  /** One pass of the row loop, on the values read from the row. */
  function ImportFields(st: ImportState, f: RowFields): Progress {
    match f.code
    case None => Running(st)
    case Some(code) =>
      var w := DeptWalk(st.db.departments, st.cache, st.created, f.deptString);
      var db := st.db.(departments := w.depts);
      if f.name.None? || f.ownerName.None? then Failed(db)
      else
        var assets := UpsertAsset(db.assets, code, f.name.value, w.parent, f.ownerId, f.ownerName.value);
        Running(ImportState(db.(assets := assets), w.cache, st.processed + 1, w.created))
  }

  /** One pass of the row loop. */
  function ImportRow(st: ImportState, row: Row): Progress {
    ImportFields(st, Fields(row))
  }

  /** The row loop over the remaining rows. */
  function ImportAll(st: ImportState, rows: seq<Row>): Progress
    decreases |rows|
  {
    if rows == [] then Running(st)
    else match ImportRow(st, rows[0])
      case Failed(db) => Failed(db)
      case Running(st') => ImportAll(st', rows[1..])
  }

  /**
   * A successful import. The action returns only `message`; the two counters
   * are the function's locals `processedAssets` and `createdDepts`, exposed
   * here so that lemmas can state what they count.
   */
  datatype Summary = Summary(processed: nat, createdDepts: nat, message: string)

  datatype ImportError = NoFile | NoSheet | NoData | StoreRejected

  /** The message of a successful import. */
  function SuccessMessage(processed: nat): string {
    Dec(processed) + "개의 자산이 처리되었습니다. (신규/갱신 포함)"
  }

  /** The message returned for each failure. */
  function ErrorMessage(e: ImportError): string {
    match e
    case NoFile => "파일이 없습니다."
    case NoSheet => "엑셀 파일에 시트가 없습니다."
    case NoData => "데이터가 없습니다."
    case StoreRejected => "업로드 처리 중 오류가 발생했습니다: "
  }

  /** The whole import: its result and the store it leaves behind. */
  function Import(db: Db, file: Option<Workbook>): (Result<Summary, ImportError>, Db) {
    if file.None? then (Failure(NoFile), db)
    else if |file.value| == 0 then (Failure(NoSheet), db)
    else if |file.value[0]| == 0 then (Failure(NoData), db)
    else match ImportAll(ImportState(db, map[], 0, 0), file.value[0])
      case Running(st) => (Success(Summary(st.processed, st.created, SuccessMessage(st.processed))), st.db)
      case Failed(db') => (Failure(StoreRejected), db')
  }

  // ---------------------------------------------------------------------------
  // The import on the store object

  /**
   * One level of the department loop: extends the running path by the piece,
   * then takes the id from the cache, else from the stored row with that
   * path, else from a newly created row one level below `parent`.
   */
  method ResolveLevel(store: Store, cache0: map<string, nat>, prefix: string, parent0: Option<nat>,
                      created0: nat, part: string, depth: nat)
    returns (cache: map<string, nat>, path: string, parent: Option<nat>, created: nat)
    modifies store`departments
    ensures Walk(store.departments, cache, path, parent, created)
         == Step(Walk(old(store.departments), cache0, prefix, parent0, created0), part, depth)
  {
    cache, created := cache0, created0;
    path := if prefix == "" then part else prefix + "/" + part;
    if path in cache {
      parent := Some(cache[path]);
    } else {
      var existing := FindPath(store.departments, path);
      if existing.Some? {
        var id := store.departments[existing.value].id;
        parent := Some(id);
        cache := cache[path := id];
      } else {
        var id := store.CreateDepartment(part, path, depth, parent0);
        parent := Some(id);
        created := created + 1;
        cache := cache[path := id];
      }
    }
  }

  /**
   * The department loop of one row: walks the pieces, keeping the running
   * path and the previous level's id, and finds or creates one department
   * per level.
   */
  method ResolveDepartments(store: Store, cache0: map<string, nat>, created0: nat, parts: seq<string>)
    returns (cache: map<string, nat>, created: nat, leaf: Option<nat>)
    modifies store`departments
    ensures var w := Resolve(old(store.departments), cache0, created0, parts);
      store.departments == w.depts && cache == w.cache && created == w.created && leaf == w.parent
  {
    ghost var w0 := Resolve(store.departments, cache0, created0, parts);
    var path := "";
    var parent: Option<nat> := None;
    cache, created := cache0, created0;
    var i := 0;
    while i < |parts|
      invariant 0 <= i <= |parts|
      invariant WalkFrom(Walk(store.departments, cache, path, parent, created), parts, i) == w0
    {
      cache, path, parent, created := ResolveLevel(store, cache, path, parent, created, parts[i], i);
      i := i + 1;
    }
    leaf := parent;
  }

  /**
   * One pass of the row loop: a row without an asset code is skipped;
   * otherwise its departments are resolved, and the asset is upserted unless
   * a name or owner cell holds a number the store refuses, which ends the
   * import (`ok` false) with the departments already written.
   */
  method ImportOneRow(store: Store, cache0: map<string, nat>, processed0: nat, created0: nat, f: RowFields)
    returns (ok: bool, cache: map<string, nat>, processed: nat, created: nat)
    modifies store
    ensures var p := ImportFields(ImportState(old(store.State()), cache0, processed0, created0), f);
      if ok then p == Running(ImportState(store.State(), cache, processed, created))
      else p == Failed(store.State())
  {
    ok, cache, processed, created := true, cache0, processed0, created0;
    ghost var st0 := ImportState(store.State(), cache0, processed0, created0);
    if f.code.None? {
      assert ImportFields(st0, f) == Running(st0);
      return;
    }
    ghost var w := DeptWalk(st0.db.departments, cache0, created0, f.deptString);
    var deptId;
    cache, created, deptId := WalkDepartments(store, cache, created, f.deptString);
    ghost var db1 := st0.db.(departments := w.depts);
    assert store.State() == db1;
    if f.name.None? || f.ownerName.None? {
      assert ImportFields(st0, f) == Failed(db1);
      return false, cache, processed, created;
    }
    UpsertAssetRow(store, f.code.value, f.name.value, deptId, f.ownerId, f.ownerName.value);
    processed := processed + 1;
    ghost var db2 := db1.(assets := UpsertAsset(db1.assets, f.code.value, f.name.value, w.parent, f.ownerId, f.ownerName.value));
    assert store.State() == db2;
    assert ImportFields(st0, f) == Running(ImportState(db2, w.cache, processed, w.created));
  }

  /** The department walk of a row: none for an empty cell. */
  method WalkDepartments(store: Store, cache0: map<string, nat>, created0: nat, deptString: string)
    returns (cache: map<string, nat>, created: nat, deptId: Option<nat>)
    modifies store`departments
    ensures var w := DeptWalk(old(store.departments), cache0, created0, deptString);
      store.departments == w.depts && cache == w.cache && created == w.created && deptId == w.parent
  {
    cache, created, deptId := cache0, created0, None;
    if deptString != "" {
      cache, created, deptId := ResolveDepartments(store, cache, created, DeptParts(deptString));
    }
  }

  /** `asset.upsert` on the store object. */
  method UpsertAssetRow(store: Store, code: string, name: string, deptId: Option<nat>,
                        ownerId: string, ownerName: string)
    modifies store`assets
    ensures store.assets == UpsertAsset(old(store.assets), code, name, deptId, ownerId, ownerName)
  {
    var existing := FindCode(store.assets, code);
    if existing.Some? {
      var k := existing.value;
      store.ReplaceAsset(k, store.assets[k].(assetName := name, departmentId := deptId,
                                              ownerId := ownerId, ownerName := ownerName));
    } else {
      var _ := store.InsertAsset(Asset(0, code, name, ownerId, ownerName,
                                       UNKNOWN, DEFAULT_OWNER_NAME, None, None, ACTIVE, deptId, None));
    }
  }

  method ImportAssetsFromExcel(store: Store, file: Option<Workbook>) returns (r: Result<Summary, ImportError>)
    modifies store
    ensures (r, store.State()) == Import(old(store.State()), file)
  {
    if file.None? {
      return Failure(NoFile);
    }
    var workbook := file.value;
    if |workbook| == 0 {
      return Failure(NoSheet);
    }
    var rows := workbook[0];
    if |rows| == 0 {
      return Failure(NoData);
    }
    ghost var st0 := ImportState(store.State(), map[], 0, 0);
    var processed, created := 0, 0;
    var cache: map<string, nat> := map[];
    var i := 0;
    while i < |rows|
      invariant 0 <= i <= |rows|
      invariant ImportAll(st0, rows) == ImportAll(ImportState(store.State(), cache, processed, created), rows[i..])
    {
      assert rows[i..][0] == rows[i] && rows[i..][1..] == rows[i + 1..];
      var ok;
      ok, cache, processed, created := ImportOneRow(store, cache, processed, created, Fields(rows[i]));
      if !ok {
        return Failure(StoreRejected);
      }
      i := i + 1;
    }
    r := Success(Summary(processed, created, SuccessMessage(processed)));
  }

  // ---------------------------------------------------------------------------
  // What the import guarantees

  /** The store only grows: departments are appended, and the date counters are untouched. */
  predicate Extends(before: Db, after: Db) {
    && after.sequences == before.sequences
    && |before.departments| <= |after.departments|
    && after.departments[..|before.departments|] == before.departments
  }

  lemma ExtendsTrans(a: Db, b: Db, c: Db)
    requires Extends(a, b) && Extends(b, c)
    ensures Extends(a, c)
  {
    assert c.departments[..|a.departments|] == c.departments[..|b.departments|][..|a.departments|];
  }

  /**
   * A row's department walk keeps the table consistent and the cache in
   * agreement, only appends rows and counts each one, and ends at a
   * department exactly when the cell is non-empty: the one holding the last
   * level's path.
   */
  lemma DeptWalkSound(depts: seq<Department>, cache: map<string, nat>, created: nat, deptString: string)
    requires DeptsValid(depts) && CacheAgrees(cache, depts)
    ensures var w := DeptWalk(depts, cache, created, deptString);
      && DeptsValid(w.depts) && CacheAgrees(w.cache, w.depts)
      && |depts| <= |w.depts| && w.depts[..|depts|] == depts
      && w.created - created == |w.depts| - |depts|
      && (w.parent.Some? <==> deptString != "")
      && (w.parent.Some? <==> LeafPath(deptString).Some?)
      && (w.parent.Some? ==>
            && 1 <= w.parent.value <= |w.depts|
            && w.depts[w.parent.value - 1].path == LeafPath(deptString).value)
  {
    if deptString != "" {
      var parts := DeptParts(deptString);
      assert Segments(parts) by {
        TrimSplitSegments(deptString);
      }
      ResolveStored(depts, cache, created, parts);
      ResolveCount(depts, cache, created, parts);
      ResolveLeaf(depts, cache, created, parts);
    } else {
      assert depts[..|depts|] == depts;
    }
  }

  /**
   * A department cell of white space only is truthy, so it is still walked:
   * trimmed and split it is the single piece "", and the row ends up filed
   * under a department whose path is "".
   */
  lemma BlankCellWalk(depts: seq<Department>, cache: map<string, nat>, created: nat, blank: string)
    requires DeptsValid(depts) && CacheAgrees(cache, depts)
    requires blank != "" && NonSpace(blank) == ""
    ensures var w := DeptWalk(depts, cache, created, blank);
      && w.parent.Some? && 1 <= w.parent.value <= |w.depts|
      && w.depts[w.parent.value - 1].path == ""
  {
    TrimSplitSegments(blank);
    DeptWalkSound(depts, cache, created, blank);
    assert LevelPaths([""])[0] == "";
  }

  /** The part of `DeptWalkSound` about where the walk ends. */
  lemma DeptWalkLeaf(depts: seq<Department>, cache: map<string, nat>, created: nat, deptString: string)
    requires DeptsValid(depts) && CacheAgrees(cache, depts)
    ensures var w := DeptWalk(depts, cache, created, deptString);
      && |depts| <= |w.depts|
      && (w.parent.Some? <==> LeafPath(deptString).Some?)
      && (w.parent.Some? ==>
            && 1 <= w.parent.value <= |w.depts|
            && w.depts[w.parent.value - 1].path == LeafPath(deptString).value)
  {
    DeptWalkSound(depts, cache, created, deptString);
  }

  lemma AssetsValidWiden(assets: seq<Asset>, n: nat, m: nat)
    requires AssetsValid(assets, n) && n <= m
    ensures AssetsValid(assets, m)
  {
  }

  lemma UpsertAssetValid(assets: seq<Asset>, n: nat, code: string, name: string, deptId: Option<nat>,
                         ownerId: string, ownerName: string)
    requires AssetsValid(assets, n)
    requires deptId.Some? ==> 1 <= deptId.value <= n
    ensures AssetsValid(UpsertAsset(assets, code, name, deptId, ownerId, ownerName), n)
  {
    match FindCode(assets, code)
    case Some(k) =>
      ReplaceAssetKeepsValid(assets, n, k, assets[k].(assetName := name, departmentId := deptId,
                                                 ownerId := ownerId, ownerName := ownerName));
    case None =>
      AppendAssetKeepsValid(assets, n, Asset(|assets| + 1, code, name, ownerId, ownerName, UNKNOWN,
                                        DEFAULT_OWNER_NAME, None, None, ACTIVE, deptId, None));
  }

  /** Rewriting a row in place, keeping its id and code, keeps the table consistent. */
  lemma ReplaceAssetKeepsValid(assets: seq<Asset>, n: nat, k: nat, a: Asset)
    requires AssetsValid(assets, n) && k < |assets|
    requires a.id == assets[k].id && a.assetCode == assets[k].assetCode
    requires a.departmentId.Some? ==> 1 <= a.departmentId.value <= n
    ensures AssetsValid(assets[k := a], n)
  {
    var r := assets[k := a];
    assert forall i :: 0 <= i < |r| ==> r[i].id == assets[i].id && r[i].assetCode == assets[i].assetCode;
  }

  /** Appending a row with the next id and a fresh code keeps the table consistent. */
  lemma AppendAssetKeepsValid(assets: seq<Asset>, n: nat, a: Asset)
    requires AssetsValid(assets, n) && a.id == |assets| + 1
    requires forall i :: 0 <= i < |assets| ==> assets[i].assetCode != a.assetCode
    requires a.departmentId.Some? ==> 1 <= a.departmentId.value <= n
    ensures AssetsValid(assets + [a], n)
  {
    var r := assets + [a];
    assert forall i :: 0 <= i < |assets| ==> r[i] == assets[i];
  }


  /**
   * The asset upsert against a table with unique codes: afterwards the code
   * is held by row k, which carries the row's name, department and owner.
   * An existing row keeps its id, manager, description, QR url, status and
   * deletion mark, and no other row changes; otherwise a row is appended with
   * the next id, manager "UNKNOWN"/"미확인", status "ACTIVE", no
   * description, QR url or deletion mark.
   */
  lemma UpsertAssetSpec(assets: seq<Asset>, n: nat, code: string, name: string, deptId: Option<nat>,
                        ownerId: string, ownerName: string)
    requires AssetsValid(assets, n)
    ensures var r := UpsertAsset(assets, code, name, deptId, ownerId, ownerName);
      && FindCode(r, code).Some?
      && var k := FindCode(r, code).value;
      && (forall i :: 0 <= i < |r| && r[i].assetCode == code ==> i == k)
      && r[k].assetName == name && r[k].departmentId == deptId
      && r[k].ownerId == ownerId && r[k].ownerName == ownerName
      && match FindCode(assets, code)
         case Some(j) =>
           && |r| == |assets| && k == j
           && (forall i :: 0 <= i < |r| && i != k ==> r[i] == assets[i])
           && r[k].id == assets[k].id
           && r[k].managerId == assets[k].managerId && r[k].managerName == assets[k].managerName
           && r[k].description == assets[k].description && r[k].qrUrl == assets[k].qrUrl
           && r[k].status == assets[k].status && r[k].deletedAt == assets[k].deletedAt
         case None =>
           && |r| == |assets| + 1 && k == |assets| && r[..|assets|] == assets
           && r[k].id == |assets| + 1
           && r[k].managerId == UNKNOWN && r[k].managerName == DEFAULT_OWNER_NAME
           && r[k].description == None && r[k].qrUrl == None
           && r[k].status == ACTIVE && r[k].deletedAt == None
  {
    var r := UpsertAsset(assets, code, name, deptId, ownerId, ownerName);
    match FindCode(assets, code)
    case Some(j) =>
      assert r[j].assetCode == code;
      assert FindCode(r, code).value == j;
    case None =>
      assert r[|assets|].assetCode == code;
      assert r[..|assets|] == assets;
  }

  /**
   * One row keeps the store consistent and the cache in agreement with it;
   * it only appends departments, counting each one in `createdDepts`, and
   * leaves the date counters alone. A row the store refuses leaves the asset
   * table as it was, but keeps the departments its walk created.
   */
  lemma ImportRowValid(st: ImportState, row: Row)
    requires Valid(st.db) && CacheAgrees(st.cache, st.db.departments)
    ensures match ImportRow(st, row)
      case Running(s) =>
        && Valid(s.db) && CacheAgrees(s.cache, s.db.departments) && Extends(st.db, s.db)
        && s.created - st.created == |s.db.departments| - |st.db.departments|
      case Failed(db) =>
        && Valid(db) && Extends(st.db, db) && db.assets == st.db.assets
  {
    var depts := st.db.departments;
    assert depts[..|depts|] == depts;
    if TextCell(row, ASSET_CODE).Some? {
      var w := DeptWalk(depts, st.cache, st.created, DeptString(row));
      DeptWalkSound(depts, st.cache, st.created, DeptString(row));
      AssetsValidWiden(st.db.assets, |depts|, |w.depts|);
      var name := TextOr(row, ASSET_NAME, DEFAULT_ASSET_NAME);
      var ownerName := TextOr(row, OWNER_NAME, DEFAULT_OWNER_NAME);
      if name.Some? && ownerName.Some? {
        UpsertAssetValid(st.db.assets, |w.depts|, TextCell(row, ASSET_CODE).value, name.value, w.parent,
                         OwnerId(row), ownerName.value);
      }
    }
  }

  /** The whole row loop keeps the store consistent, only grows it, and counts every department it adds. */
  lemma {:induction false} ImportAllValid(st: ImportState, rows: seq<Row>)
    requires Valid(st.db) && CacheAgrees(st.cache, st.db.departments)
    ensures match ImportAll(st, rows)
      case Running(s) =>
        && Valid(s.db) && CacheAgrees(s.cache, s.db.departments) && Extends(st.db, s.db)
        && s.created - st.created == |s.db.departments| - |st.db.departments|
      case Failed(db) => Valid(db) && Extends(st.db, db)
    decreases |rows|
  {
    if rows == [] {
      assert st.db.departments[..|st.db.departments|] == st.db.departments;
    } else {
      ImportRowValid(st, rows[0]);
      match ImportRow(st, rows[0])
      case Failed(db) =>
      case Running(s1) =>
        ImportAllValid(s1, rows[1..]);
        match ImportAll(s1, rows[1..])
        case Failed(db) => ExtendsTrans(st.db, s1.db, db);
        case Running(s) => ExtendsTrans(st.db, s1.db, s.db);
    }
  }

  /** The rows that carry an asset code. */
  function Coded(rows: seq<Row>): (r: seq<Row>)
    ensures |r| <= |rows|
    ensures forall i :: 0 <= i < |r| ==> TextCell(r[i], ASSET_CODE).Some?
  {
    if rows == [] then []
    else (if TextCell(rows[0], ASSET_CODE).Some? then [rows[0]] else []) + Coded(rows[1..])
  }

  /** Rows without an asset code have no effect at all: importing only the coded rows gives the same outcome. */
  lemma {:induction false} SkippedRowsHaveNoEffect(st: ImportState, rows: seq<Row>)
    ensures ImportAll(st, rows) == ImportAll(st, Coded(rows))
    decreases |rows|
  {
    if rows != [] {
      var rest := Coded(rows[1..]);
      if TextCell(rows[0], ASSET_CODE).Some? {
        assert Coded(rows) == [rows[0]] + rest;
        assert Coded(rows)[1..] == rest;
        match ImportRow(st, rows[0])
        case Failed(db) =>
        case Running(s1) => SkippedRowsHaveNoEffect(s1, rows[1..]);
      } else {
        assert Coded(rows) == rest;
        SkippedRowsHaveNoEffect(st, rows[1..]);
      }
    }
  }

  /** `processedAssets` counts exactly the rows that carry an asset code. */
  lemma {:induction false} ProcessedCountsCodedRows(st: ImportState, rows: seq<Row>)
    ensures ImportAll(st, rows).Running? ==>
      ImportAll(st, rows).st.processed == st.processed + |Coded(rows)|
    decreases |rows|
  {
    if rows != [] {
      match ImportRow(st, rows[0])
      case Failed(db) =>
      case Running(s1) =>
        ProcessedCountsCodedRows(s1, rows[1..]);
        if TextCell(rows[0], ASSET_CODE).Some? {
          assert s1.processed == st.processed + 1;
          assert |Coded(rows)| == 1 + |Coded(rows[1..])|;
        } else {
          assert s1 == st;
          assert Coded(rows) == Coded(rows[1..]);
        }
    }
  }

  /** Importing one more row continues from where the earlier rows left the import. */
  lemma {:induction false} ImportAllAppend(st: ImportState, rows: seq<Row>, row: Row)
    ensures ImportAll(st, rows + [row]) ==
      match ImportAll(st, rows)
      case Failed(db) => Failed(db)
      case Running(s) => ImportRow(s, row)
    decreases |rows|
  {
    if rows == [] {
      assert [row][1..] == [];
    } else {
      assert (rows + [row])[0] == rows[0];
      assert (rows + [row])[1..] == rows[1..] + [row];
      match ImportRow(st, rows[0])
      case Failed(db) =>
      case Running(s1) => ImportAllAppend(s1, rows[1..], row);
    }
  }

  /**
   * The store holds exactly one asset with this code, and it carries this
   * name and owner and sits in the department with this path (in none when
   * there is no path).
   */
  predicate HoldsAsset(db: Db, code: string, name: string, ownerId: string, ownerName: string,
                       deptPath: Option<string>)
  {
    && FindCode(db.assets, code).Some?
    && var k := FindCode(db.assets, code).value;
    && var a := db.assets[k];
    && (forall i :: 0 <= i < |db.assets| && db.assets[i].assetCode == code ==> i == k)
    && a.assetName == name && a.ownerId == ownerId && a.ownerName == ownerName
    && (a.departmentId.None? <==> deptPath.None?)
    && (a.departmentId.Some? ==>
          && 1 <= a.departmentId.value <= |db.departments|
          && db.departments[a.departmentId.value - 1].path == deptPath.value)
  }

  /** The path of the last level of a department cell; none for an empty cell. */
  function LeafPath(deptString: string): Option<string> {
    if deptString == "" then None
    else
      var parts := DeptParts(deptString);
      Some(LevelPaths(parts)[|parts| - 1])
  }

  /** The store holds the asset a coded row describes: its name, owner and the leaf of its department cell. */
  predicate HoldsRow(db: Db, row: Row)
    requires TextCell(row, ASSET_CODE).Some?
  {
    && TextOr(row, ASSET_NAME, DEFAULT_ASSET_NAME).Some?
    && TextOr(row, OWNER_NAME, DEFAULT_OWNER_NAME).Some?
    && HoldsAsset(db, TextCell(row, ASSET_CODE).value, TextOr(row, ASSET_NAME, DEFAULT_ASSET_NAME).value,
                  OwnerId(row), TextOr(row, OWNER_NAME, DEFAULT_OWNER_NAME).value, LeafPath(DeptString(row)))
  }

  /** Upserting an asset, with the department holding the given path, makes the store hold it. */
  lemma UpsertHolds(db: Db, code: string, name: string, deptId: Option<nat>, ownerId: string, ownerName: string,
                    deptPath: Option<string>)
    requires AssetsValid(db.assets, |db.departments|)
    requires deptId.None? <==> deptPath.None?
    requires deptId.Some? ==>
      1 <= deptId.value <= |db.departments| && db.departments[deptId.value - 1].path == deptPath.value
    ensures HoldsAsset(db.(assets := UpsertAsset(db.assets, code, name, deptId, ownerId, ownerName)),
                       code, name, ownerId, ownerName, deptPath)
  {
    UpsertAssetSpec(db.assets, |db.departments|, code, name, deptId, ownerId, ownerName);
  }

  /** The asset table grows by one exactly when the upserted code was not stored. */
  lemma UpsertAssetLength(assets: seq<Asset>, code: string, name: string, deptId: Option<nat>,
                          ownerId: string, ownerName: string)
    ensures |UpsertAsset(assets, code, name, deptId, ownerId, ownerName)| ==
      |assets| + (if FindCode(assets, code).Some? then 0 else 1)
  {
  }

  /** The asset table a coded row that goes through leaves behind. */
  lemma ImportRowAssets(st: ImportState, row: Row)
    requires TextCell(row, ASSET_CODE).Some? && ImportRow(st, row).Running?
    ensures var w := DeptWalk(st.db.departments, st.cache, st.created, DeptString(row));
      ImportRow(st, row).st.db ==
        st.db.(departments := w.depts,
               assets := UpsertAsset(st.db.assets, TextCell(row, ASSET_CODE).value,
                                     TextOr(row, ASSET_NAME, DEFAULT_ASSET_NAME).value, w.parent,
                                     OwnerId(row), TextOr(row, OWNER_NAME, DEFAULT_OWNER_NAME).value))
  {
  }

  /**
   * A coded row that goes through leaves its asset in the store, adding a
   * row exactly when its code was not stored yet.
   */
  lemma ImportRowUpsert(st: ImportState, row: Row)
    requires Valid(st.db) && CacheAgrees(st.cache, st.db.departments)
    requires TextCell(row, ASSET_CODE).Some? && ImportRow(st, row).Running?
    ensures HoldsRow(ImportRow(st, row).st.db, row)
    ensures |ImportRow(st, row).st.db.assets| ==
      |st.db.assets| + (if FindCode(st.db.assets, TextCell(row, ASSET_CODE).value).Some? then 0 else 1)
  {
    ImportFieldsUpsert(st, Fields(row));
  }

  lemma ImportFieldsUpsert(st: ImportState, f: RowFields)
    requires Valid(st.db) && CacheAgrees(st.cache, st.db.departments)
    requires f.code.Some? && ImportFields(st, f).Running?
    ensures f.name.Some? && f.ownerName.Some?
    ensures HoldsAsset(ImportFields(st, f).st.db, f.code.value, f.name.value, f.ownerId, f.ownerName.value,
                       LeafPath(f.deptString))
    ensures |ImportFields(st, f).st.db.assets| ==
      |st.db.assets| + (if FindCode(st.db.assets, f.code.value).Some? then 0 else 1)
  {
    var depts := st.db.departments;
    var w := DeptWalk(depts, st.cache, st.created, f.deptString);
    var db := st.db.(departments := w.depts);
    var code, name, ownerName := f.code.value, f.name.value, f.ownerName.value;
    assert ImportFields(st, f).st.db == db.(assets := UpsertAsset(db.assets, code, name, w.parent, f.ownerId, ownerName));
    DeptWalkLeaf(depts, st.cache, st.created, f.deptString);
    AssetsValidWiden(st.db.assets, |depts|, |w.depts|);
    UpsertHolds(db, code, name, w.parent, f.ownerId, ownerName, LeafPath(f.deptString));
    UpsertAssetLength(st.db.assets, code, name, w.parent, f.ownerId, ownerName);
  }

  /** The last row wins: whatever earlier rows did, a coded last row leaves exactly its own asset for its code. */
  lemma LastRowWins(st: ImportState, rows: seq<Row>, row: Row)
    requires Valid(st.db) && CacheAgrees(st.cache, st.db.departments)
    requires TextCell(row, ASSET_CODE).Some? && ImportAll(st, rows + [row]).Running?
    ensures HoldsRow(ImportAll(st, rows + [row]).st.db, row)
  {
    ImportAllAppend(st, rows, row);
    ImportAllValid(st, rows);
    ImportRowUpsert(ImportAll(st, rows).st, row);
  }

  lemma ImportTwoRows(st: ImportState, first: Row, second: Row)
    requires ImportAll(st, [first, second]).Running?
    ensures ImportRow(st, first).Running?
    ensures ImportRow(ImportRow(st, first).st, second) == ImportAll(st, [first, second])
  {
    assert [first, second][1..] == [second];
    assert [second][1..] == [];
    var s1 := ImportRow(st, first).st;
    assert ImportAll(st, [first, second]) == ImportAll(s1, [second]);
    match ImportRow(s1, second)
    case Failed(db) =>
    case Running(s2) => assert ImportAll(s2, []) == Running(s2);
  }

  /** Importing the same code twice leaves one asset for it, and adds at most one asset. */
  lemma SameCodeTwice(st: ImportState, first: Row, second: Row)
    requires Valid(st.db) && CacheAgrees(st.cache, st.db.departments)
    requires TextCell(first, ASSET_CODE).Some? && TextCell(first, ASSET_CODE) == TextCell(second, ASSET_CODE)
    requires ImportAll(st, [first, second]).Running?
    ensures var db := ImportAll(st, [first, second]).st.db;
      && HoldsRow(db, second)
      && |db.assets| <= |st.db.assets| + 1
  {
    ImportTwoRows(st, first, second);
    ImportRowValid(st, first);
    var s1 := ImportRow(st, first).st;
    ImportRowUpsert(st, first);
    ImportRowUpsert(s1, second);
  }

  /** A coded row the store refuses: a non-zero number in `자산명` or `소유자`. */
  predicate Refused(row: Row) {
    && TextCell(row, ASSET_CODE).Some?
    && (TextOr(row, ASSET_NAME, DEFAULT_ASSET_NAME).None? || TextOr(row, OWNER_NAME, DEFAULT_OWNER_NAME).None?)
  }

  /** The import stops with a failure exactly when some row is refused. */
  lemma {:induction false} ImportFailsIffRefused(st: ImportState, rows: seq<Row>)
    ensures ImportAll(st, rows).Failed? <==> exists i :: 0 <= i < |rows| && Refused(rows[i])
    decreases |rows|
  {
    if rows != [] {
      if Refused(rows[0]) {
        assert ImportRow(st, rows[0]).Failed?;
      } else {
        var s1 := ImportRow(st, rows[0]).st;
        ImportFailsIffRefused(s1, rows[1..]);
        if exists i :: 0 <= i < |rows| && Refused(rows[i]) {
          var i :| 0 <= i < |rows| && Refused(rows[i]);
          assert rows[1..][i - 1] == rows[i];
        }
        if exists i :: 0 <= i < |rows[1..]| && Refused(rows[1..][i]) {
          var i :| 0 <= i < |rows[1..]| && Refused(rows[1..][i]);
          assert rows[i + 1] == rows[1..][i];
        }
      }
    }
  }

  // ---------------------------------------------------------------------------
  // Re-importing a file

  /** Every level of the row's department cell is stored, if the row is coded. */
  predicate RowLevelsStored(depts: seq<Department>, row: Row) {
    TextCell(row, ASSET_CODE).Some? && DeptString(row) != "" ==>
      CountAbsent(LevelPaths(DeptParts(DeptString(row))), depts) == 0
  }

  /** Every level of the department cell of every coded row is stored. */
  predicate LevelsStored(depts: seq<Department>, rows: seq<Row>)
    decreases |rows|
  {
    rows != [] ==> RowLevelsStored(depts, rows[0]) && LevelsStored(depts, rows[1..])
  }

  lemma HasPathExtends(depts: seq<Department>, more: seq<Department>, p: string)
    requires |depts| <= |more| && more[..|depts|] == depts && HasPath(depts, p)
    ensures HasPath(more, p)
  {
    var k := FindPath(depts, p).value;
    assert more[k] == depts[k];
  }

  lemma {:induction false} CountAbsentExtends(xs: seq<string>, depts: seq<Department>, more: seq<Department>)
    requires |depts| <= |more| && more[..|depts|] == depts && CountAbsent(xs, depts) == 0
    ensures CountAbsent(xs, more) == 0
    decreases |xs|
  {
    if xs != [] {
      CountAbsentExtends(xs[..|xs| - 1], depts, more);
      HasPathExtends(depts, more, xs[|xs| - 1]);
    }
  }

  /** After a coded row goes through, every level of its department cell is stored. */
  lemma ImportRowStores(st: ImportState, row: Row)
    requires Valid(st.db) && CacheAgrees(st.cache, st.db.departments)
    requires TextCell(row, ASSET_CODE).Some? && ImportRow(st, row).Running? && DeptString(row) != ""
    ensures CountAbsent(LevelPaths(DeptParts(DeptString(row))), ImportRow(st, row).st.db.departments) == 0
  {
    var parts := DeptParts(DeptString(row));
    var depts := st.db.departments;
    ImportRowAssets(st, row);
    assert Segments(parts) by {
      TrimSplitSegments(DeptString(row));
    }
    ResolveStored(depts, st.cache, st.created, parts);
    CountAbsentNone(LevelPaths(parts), Resolve(depts, st.cache, st.created, parts).depts);
  }

  /** After the row loop goes through, every level of every coded row's department cell is stored. */
  lemma {:induction false} ImportAllStores(st: ImportState, rows: seq<Row>)
    requires Valid(st.db) && CacheAgrees(st.cache, st.db.departments)
    requires ImportAll(st, rows).Running?
    ensures LevelsStored(ImportAll(st, rows).st.db.departments, rows)
    decreases |rows|
  {
    if rows != [] {
      var s1 := ImportRow(st, rows[0]).st;
      var s := ImportAll(st, rows).st;
      ImportRowValid(st, rows[0]);
      ImportAllValid(s1, rows[1..]);
      ImportAllStores(s1, rows[1..]);
      if TextCell(rows[0], ASSET_CODE).Some? && DeptString(rows[0]) != "" {
        ImportRowStores(st, rows[0]);
        CountAbsentExtends(LevelPaths(DeptParts(DeptString(rows[0]))), s1.db.departments, s.db.departments);
      }
    }
  }

  /** A row whose department levels are all stored creates no department. */
  lemma ImportRowStoredNoop(st: ImportState, row: Row)
    requires Valid(st.db) && CacheAgrees(st.cache, st.db.departments)
    requires TextCell(row, ASSET_CODE).Some? && DeptString(row) != "" ==>
      CountAbsent(LevelPaths(DeptParts(DeptString(row))), st.db.departments) == 0
    ensures match ImportRow(st, row)
      case Running(s) => s.db.departments == st.db.departments && s.created == st.created
      case Failed(db) => db.departments == st.db.departments
  {
    if TextCell(row, ASSET_CODE).Some? && DeptString(row) != "" {
      var parts := DeptParts(DeptString(row));
      assert Segments(parts) by {
        TrimSplitSegments(DeptString(row));
      }
      ResolveStoredNoop(st.db.departments, st.cache, st.created, parts);
    }
  }

  /** A row loop over rows whose department levels are all stored creates no department. */
  lemma {:induction false} ReimportKeepsDepartments(st: ImportState, rows: seq<Row>)
    requires Valid(st.db) && CacheAgrees(st.cache, st.db.departments)
    requires LevelsStored(st.db.departments, rows)
    ensures match ImportAll(st, rows)
      case Running(s) => s.db.departments == st.db.departments && s.created == st.created
      case Failed(db) => db.departments == st.db.departments
    decreases |rows|
  {
    if rows != [] {
      ImportRowStoredNoop(st, rows[0]);
      ImportRowValid(st, rows[0]);
      match ImportRow(st, rows[0])
      case Failed(db) =>
      case Running(s1) =>
        ReimportKeepsDepartments(s1, rows[1..]);
    }
  }

  /**
   * Importing a file a second time, right after it went through, goes
   * through again and creates no department.
   */
  lemma ReimportCreatesNoDepartments(db: Db, file: Option<Workbook>)
    requires Valid(db) && Import(db, file).0.Success?
    ensures var db1 := Import(db, file).1;
      && Import(db1, file).0.Success?
      && Import(db1, file).0.value.createdDepts == 0
      && Import(db1, file).1.departments == db1.departments
  {
    var rows := file.value[0];
    var st0 := ImportState(db, map[], 0, 0);
    var db1 := ImportAll(st0, rows).st.db;
    var st1 := ImportState(db1, map[], 0, 0);
    ImportAllValid(st0, rows);
    ImportAllStores(st0, rows);
    ImportFailsIffRefused(st0, rows);
    ImportFailsIffRefused(st1, rows);
    ReimportKeepsDepartments(st1, rows);
  }

  // ---------------------------------------------------------------------------
  // The whole import

  /**
   * The outcome of an import on a consistent store: the store stays
   * consistent and only grows; a missing file, sheet or data row fails
   * before any write; the import fails on the store's refusal exactly when
   * some row is refused; and a successful import reports every coded row as
   * processed and every added department as created.
   */
  lemma ImportOutcome(db: Db, file: Option<Workbook>)
    requires Valid(db)
    ensures var (r, db') := Import(db, file);
      && Valid(db') && Extends(db, db')
      && (r == Failure(NoFile) <==> file.None?)
      && (r == Failure(NoSheet) <==> file.Some? && |file.value| == 0)
      && (r == Failure(NoData) <==> file.Some? && |file.value| > 0 && |file.value[0]| == 0)
      && (r.Failure? && r.error != StoreRejected ==> db' == db)
      && (r == Failure(StoreRejected) <==>
            file.Some? && |file.value| > 0 && exists i :: 0 <= i < |file.value[0]| && Refused(file.value[0][i]))
      && (r.Success? ==>
            && r.value.processed == |Coded(file.value[0])|
            && r.value.createdDepts == |db'.departments| - |db.departments|)
  {
    assert db.departments[..|db.departments|] == db.departments;
    if file.Some? && |file.value| > 0 && |file.value[0]| > 0 {
      var rows := file.value[0];
      var st0 := ImportState(db, map[], 0, 0);
      ImportAllValid(st0, rows);
      ImportFailsIffRefused(st0, rows);
      ProcessedCountsCodedRows(st0, rows);
    }
  }
}
