/**
 * The asset server actions: registering an asset under a fresh
 * `A<YYMMDD><NNNNN>` code, listing the assets a user may see, looking one up
 * by code, editing its owner and manager, and soft-deleting it by code or by
 * id.
 *
 * Each action that writes is a method on the `Store`, proved equal to a spec
 * function on the `Db` snapshot; the lemmas below are about those functions.
 * The session user and the clock are inputs.
 */
module AssetActions {
  import opened Text
  import opened Records
  import opened AssetCode

  /** The submitted form: a field is absent from the map when `formData.get` gives `null`. */
  type Form = map<string, string>

  datatype ActionError =
    | NotLoggedIn                       // 로그인이 필요합니다.
    | Forbidden                         // 삭제 권한이 없습니다.
    | InvalidFields(fields: set<string>) // the schema's field errors, by field name
    | NotFound                          // Asset not found
    | StoreFailure                      // the store threw; nothing was written

  /** An asset row together with its department, as `include: { department: true }` returns it. */
  datatype AssetView = AssetView(asset: Asset, department: Option<Department>)

  function View(db: Db, a: Asset): AssetView {
    AssetView(a, DepartmentOf(db.departments, a))
  }

  // ---------------------------------------------------------------------------
  // Form validation

  /** Fields the create schema requires to be non-empty strings. */
  const REQUIRED_FIELDS: set<string> := {"assetName", "ownerId", "ownerName", "managerId", "managerName"}

  /** Fields the create schema declares optional: they may be empty but not `null`. */
  const OPTIONAL_FIELDS: set<string> := {"description", "qrUrl"}

  /** Fields the update schema requires to be non-empty strings. */
  const UPDATE_REQUIRED_FIELDS: set<string> := {"ownerId", "ownerName", "managerId", "managerName"}

  /** Fields the update schema lets be empty but not `null`. */
  const UPDATE_OPTIONAL_FIELDS: set<string> := {"description", "status"}

  /** A field's submitted text, `""` when it is absent. */
  function Field(form: Form, f: string): string {
    if f in form then form[f] else ""
  }

  predicate Blank(form: Form, f: string) {
    f !in form || form[f] == ""
  }

  /** The fields the create schema rejects. `status` never fails: a missing or empty one becomes `ACTIVE`. */
  function CreateErrors(form: Form): set<string> {
    (set f | f in REQUIRED_FIELDS && Blank(form, f)) + (set f | f in OPTIONAL_FIELDS && f !in form)
  }

  /** The fields the update schema rejects: every field must be present, four of them non-empty. */
  function UpdateErrors(form: Form): set<string> {
    (set f | f in UPDATE_REQUIRED_FIELDS && Blank(form, f)) + (set f | f in UPDATE_OPTIONAL_FIELDS && f !in form)
  }

  /** `formData.get('status') || 'ACTIVE'`. */
  function CreateStatus(form: Form): string {
    if Blank(form, "status") then ACTIVE else form["status"]
  }

  // ---------------------------------------------------------------------------
  // createAsset

  /**
   * The department a new asset is filed under: the first department named
   * like the user's department, and none when the user has no department or
   * no department has that name.
   */
  function UserDepartmentId(depts: seq<Department>, department: string): Option<nat> {
    if department == "" then None
    else match FindName(depts, department)
      case None => None
      case Some(k) => Some(depts[k].id)
  }

  /** The row `asset.create` writes for a validated form. */
  function NewAsset(id: nat, code: string, form: Form, deptId: Option<nat>): Asset {
    Asset(id, code, Field(form, "assetName"), Field(form, "ownerId"), Field(form, "ownerName"),
      Field(form, "managerId"), Field(form, "managerName"),
      Some(Field(form, "description")), Some(Field(form, "qrUrl")),
      CreateStatus(form), deptId, None)
  }

  /**
   * `createAsset` on a calendar day (`month` zero-based): the result and the
   * store afterwards. The counter upsert and the insert run in one
   * transaction, so when the insert fails on a taken code the counter is
   * rolled back too.
   */
  function Create(db: Db, user: Option<User>, form: Form, year: nat, month: nat, day: nat)
    : (Result<Asset, ActionError>, Db)
  {
    if user.None? then (Failure(NotLoggedIn), db)
    else if CreateErrors(form) != {} then (Failure(InvalidFields(CreateErrors(form))), db)
    else
      var date := DateString(year, month, day);
      var count := NextCount(db.sequences, date);
      var code := FormatCode(date, count);
      if FindCode(db.assets, code).Some? then (Failure(StoreFailure), db)
      else
        var a := NewAsset(|db.assets| + 1, code, form, UserDepartmentId(db.departments, user.value.department));
        (Success(a), db.(sequences := db.sequences[date := count], assets := db.assets + [a]))
  }

  method CreateAsset(store: Store, user: Option<User>, form: Form, year: nat, month: nat, day: nat)
    returns (r: Result<Asset, ActionError>)
    modifies store
    ensures (r, store.State()) == Create(old(store.State()), user, form, year, month, day)
  {
    if user.None? {
      return Failure(NotLoggedIn);
    }
    var errors := CreateErrors(form);
    if errors != {} {
      return Failure(InvalidFields(errors));
    }
    var saved := store.sequences;
    var date := DateString(year, month, day);
    var count := store.UpsertSequence(date);
    var code := FormatCode(date, count);
    var deptId := UserDepartmentId(store.departments, user.value.department);
    if FindCode(store.assets, code).Some? {
      // the transaction rolls back the counter
      store.sequences := saved;
      return Failure(StoreFailure);
    }
    var a := NewAsset(|store.assets| + 1, code, form, deptId);
    var id := store.InsertAsset(a);
    r := Success(a);
  }

  // ---------------------------------------------------------------------------
  // getAssets and getAssetByCode

  /** A row the user may see in the list: not soft-deleted, and filed under the user's department unless the user is an admin. */
  predicate Visible(db: Db, user: User, a: Asset) {
    && a.deletedAt.None?
    && (user.role == ADMIN
        || (DepartmentOf(db.departments, a).Some? && DepartmentOf(db.departments, a).value.name == user.department))
  }

  /** The visible rows among the first n, newest first. */
  function NewestFirst(db: Db, user: User, n: nat): seq<AssetView>
    requires n <= |db.assets|
  {
    if n == 0 then []
    else
      var newest := if Visible(db, user, db.assets[n - 1]) then [View(db, db.assets[n - 1])] else [];
      newest + NewestFirst(db, user, n - 1)
  }

  /** `getAssets`. */
  function GetAssets(db: Db, user: Option<User>): Result<seq<AssetView>, ActionError> {
    if user.None? then Failure(NotLoggedIn) else Success(NewestFirst(db, user.value, |db.assets|))
  }

  /** `getAssetByCode`: a soft-deleted row is reported as missing. */
  function GetAssetByCode(db: Db, code: string): Result<AssetView, ActionError> {
    match FindCode(db.assets, code)
    case None => Failure(NotFound)
    case Some(k) => if db.assets[k].deletedAt.Some? then Failure(NotFound) else Success(View(db, db.assets[k]))
  }

  // ---------------------------------------------------------------------------
  // updateAsset

  /** The row after `asset.update` with the validated fields. */
  function Edited(a: Asset, form: Form): Asset {
    a.(ownerId := Field(form, "ownerId"), ownerName := Field(form, "ownerName"),
       managerId := Field(form, "managerId"), managerName := Field(form, "managerName"),
       description := Some(Field(form, "description")), status := Field(form, "status"))
  }

  /** `updateAsset`: no login is asked for; a missing code makes the store throw. */
  function Update(db: Db, code: string, form: Form): (Result<Asset, ActionError>, Db) {
    if UpdateErrors(form) != {} then (Failure(InvalidFields(UpdateErrors(form))), db)
    else match FindCode(db.assets, code)
      case None => (Failure(StoreFailure), db)
      case Some(k) =>
        var a := Edited(db.assets[k], form);
        (Success(a), db.(assets := db.assets[k := a]))
  }

  method UpdateAsset(store: Store, code: string, form: Form) returns (r: Result<Asset, ActionError>)
    modifies store
    ensures (r, store.State()) == Update(old(store.State()), code, form)
  {
    var errors := UpdateErrors(form);
    if errors != {} {
      return Failure(InvalidFields(errors));
    }
    match FindCode(store.assets, code)
    case None =>
      r := Failure(StoreFailure);
    case Some(k) =>
      var a := Edited(store.assets[k], form);
      store.ReplaceAsset(k, a);
      r := Success(a);
  }

  // ---------------------------------------------------------------------------
  // deleteAsset and deleteAssetById

  /** Stamps the row at index k as deleted at `now`; the row stays in the table. */
  function Stamp(db: Db, k: nat, now: Timestamp): Db
    requires k < |db.assets|
  {
    db.(assets := db.assets[k := db.assets[k].(deletedAt := Some(now))])
  }

  /** `deleteAsset`: no login is asked for; a missing code makes the store throw. */
  function SoftDelete(db: Db, code: string, now: Timestamp): (Result<(), ActionError>, Db) {
    match FindCode(db.assets, code)
    case None => (Failure(StoreFailure), db)
    case Some(k) => (Success(()), Stamp(db, k, now))
  }

  /** `deleteAssetById`: only a logged-in admin may delete; a missing id makes the store throw. */
  function SoftDeleteById(db: Db, user: Option<User>, id: nat, now: Timestamp): (Result<(), ActionError>, Db) {
    if user.None? then (Failure(NotLoggedIn), db)
    else if user.value.role != ADMIN then (Failure(Forbidden), db)
    else match FindId(db.assets, id)
      case None => (Failure(StoreFailure), db)
      case Some(k) => (Success(()), Stamp(db, k, now))
  }

  method DeleteAsset(store: Store, code: string, now: Timestamp) returns (r: Result<(), ActionError>)
    modifies store
    ensures (r, store.State()) == SoftDelete(old(store.State()), code, now)
  {
    match FindCode(store.assets, code)
    case None =>
      r := Failure(StoreFailure);
    case Some(k) =>
      store.ReplaceAsset(k, store.assets[k].(deletedAt := Some(now)));
      r := Success(());
  }

  method DeleteAssetById(store: Store, user: Option<User>, id: nat, now: Timestamp) returns (r: Result<(), ActionError>)
    modifies store
    ensures (r, store.State()) == SoftDeleteById(old(store.State()), user, id, now)
  {
    if user.None? {
      return Failure(NotLoggedIn);
    }
    if user.value.role != ADMIN {
      return Failure(Forbidden);
    }
    match FindId(store.assets, id)
    case None =>
      r := Failure(StoreFailure);
    case Some(k) =>
      store.ReplaceAsset(k, store.assets[k].(deletedAt := Some(now)));
      r := Success(());
  }

  // ---------------------------------------------------------------------------
  // Lookups in a consistent table

  /** In a consistent table a code finds exactly the row that carries it. */
  lemma FindCodeAt(assets: seq<Asset>, k: nat)
    requires forall i, j :: 0 <= i < j < |assets| ==> assets[i].assetCode != assets[j].assetCode
    requires k < |assets|
    ensures FindCode(assets, assets[k].assetCode) == Some(k)
  {
  }

  /** In a consistent table the id k + 1 finds the row at index k. */
  lemma FindIdAt(assets: seq<Asset>, k: nat)
    requires forall i :: 0 <= i < |assets| ==> assets[i].id == i + 1
    requires k < |assets|
    ensures FindId(assets, k + 1) == Some(k)
  {
  }

  /** Rewriting rows without touching their codes leaves every code lookup as it was. */
  lemma {:induction false} FindCodeKeepsCodes(assets: seq<Asset>, edited: seq<Asset>, code: string)
    requires |assets| == |edited|
    requires forall k :: 0 <= k < |assets| ==> assets[k].assetCode == edited[k].assetCode
    ensures FindCode(edited, code) == FindCode(assets, code)
    decreases |assets|
  {
    if assets != [] {
      FindCodeKeepsCodes(assets[..|assets| - 1], edited[..|edited| - 1], code);
    }
  }

  // ---------------------------------------------------------------------------
  // createAsset

  /** The create schema accepts the form: five non-empty required fields, and description and qrUrl present. */
  predicate CreateAccepted(form: Form) {
    && (forall f :: f in REQUIRED_FIELDS ==> f in form && form[f] != "")
    && "description" in form && "qrUrl" in form
  }

  lemma CreateErrorsEmpty(form: Form)
    ensures CreateErrors(form) == {} <==> CreateAccepted(form)
    ensures forall f :: f in CreateErrors(form) ==> f !in form || (f in REQUIRED_FIELDS && form[f] == "")
  {
    forall f | f in REQUIRED_FIELDS && Blank(form, f) ensures f in CreateErrors(form) {
    }
    if "description" !in form {
      assert "description" in CreateErrors(form);
    }
    if "qrUrl" !in form {
      assert "qrUrl" in CreateErrors(form);
    }
  }

  /**
   * Why `createAsset` refuses, and that a refusal writes nothing: no user
   * means not logged in; a logged-in user's form that the schema rejects is
   * reported with the offending fields; the store fails only on a code that
   * is already taken.
   */
  lemma CreateRefusals(db: Db, user: Option<User>, form: Form, year: nat, month: nat, day: nat)
    ensures var (r, db') := Create(db, user, form, year, month, day);
      var date := DateString(year, month, day);
      && (r.Failure? ==> db' == db)
      && (r == Failure(NotLoggedIn) <==> user.None?)
      && (r.Failure? && r.error.InvalidFields? <==> user.Some? && !CreateAccepted(form))
      && (r.Failure? && r.error.InvalidFields? ==>
            r.error.fields != {}
            && forall f :: f in r.error.fields ==> f !in form || (f in REQUIRED_FIELDS && form[f] == ""))
      && (r == Failure(StoreFailure) <==>
            user.Some? && CreateAccepted(form)
            && exists k :: 0 <= k < |db.assets| && db.assets[k].assetCode == FormatCode(date, NextCount(db.sequences, date)))
  {
    CreateErrorsEmpty(form);
  }

  /** `createAsset` keeps the store consistent. */
  lemma CreateKeepsValid(db: Db, user: Option<User>, form: Form, year: nat, month: nat, day: nat)
    requires Valid(db)
    ensures Valid(Create(db, user, form, year, month, day).1)
  {
    var (r, db') := Create(db, user, form, year, month, day);
    if r.Success? {
      var a := r.value;
      assert db'.assets == db.assets + [a];
      match FindName(db.departments, user.value.department)
      case None =>
      case Some(k) => assert db.departments[k].id == k + 1;
    }
  }

  /**
   * A registered asset is appended with the next id under a code no row had
   * before, carries the submitted fields (status `ACTIVE` when none was
   * given), is filed under the user's department as `UserDepartmentIdSpec`
   * describes, and is not deleted; the counter of the day moves to the count the
   * code carries; departments are untouched; and looking the code up finds
   * the new asset.
   */
  lemma CreateSuccess(db: Db, user: Option<User>, form: Form, year: nat, month: nat, day: nat)
    requires Valid(db) && Create(db, user, form, year, month, day).0.Success?
    ensures var (r, db') := Create(db, user, form, year, month, day);
      var a := r.value;
      var date := DateString(year, month, day);
      && user.Some? && CreateAccepted(form)
      && db'.assets == db.assets + [a] && a.id == |db.assets| + 1
      && db'.departments == db.departments
      && db'.sequences == db.sequences[date := NextCount(db.sequences, date)]
      && a.assetCode == FormatCode(date, db'.sequences[date])
      && (forall k :: 0 <= k < |db.assets| ==> db.assets[k].assetCode != a.assetCode)
      && a.assetName == form["assetName"] && a.ownerId == form["ownerId"] && a.ownerName == form["ownerName"]
      && a.managerId == form["managerId"] && a.managerName == form["managerName"]
      && a.description == Some(form["description"]) && a.qrUrl == Some(form["qrUrl"])
      && a.status == (if "status" in form && form["status"] != "" then form["status"] else ACTIVE)
      && a.deletedAt.None?
      && a.departmentId == UserDepartmentId(db.departments, user.value.department)
      && GetAssetByCode(db', a.assetCode) == Success(View(db', a))
  {
    var (r, db') := Create(db, user, form, year, month, day);
    CreateErrorsEmpty(form);
    CreateKeepsValid(db, user, form, year, month, day);
    FindCodeAt(db'.assets, |db.assets|);
  }

  /**
   * The department looked up for a user is the first one named like the
   * user's department; there is none exactly when the user has no department
   * or no department has that name.
   */
  lemma UserDepartmentIdSpec(depts: seq<Department>, name: string)
    requires DeptsValid(depts)
    ensures var r := UserDepartmentId(depts, name);
      && (r.None? <==> name == "" || forall k :: 0 <= k < |depts| ==> depts[k].name != name)
      && (r.Some? ==>
            && 1 <= r.value <= |depts|
            && depts[r.value - 1].name == name
            && forall k :: 0 <= k < r.value - 1 ==> depts[k].name != name)
  {
    if name != "" {
      match FindName(depts, name)
      case None =>
      case Some(k) => assert depts[k].id == k + 1;
    }
  }

  /**
   * On a valid day the code of a new asset reads back as the day's date key
   * and the counter value: one more than the day's previous count, or 1 on
   * the day's first registration. It is 12 characters while the day stays
   * under 100000 registrations.
   */
  lemma CreatedCode(db: Db, user: Option<User>, form: Form, year: nat, month: nat, day: nat)
    requires ValidDate(year, month, day)
    requires Create(db, user, form, year, month, day).0.Success?
    ensures var (r, db') := Create(db, user, form, year, month, day);
      var date := DateString(year, month, day);
      var count := if date in db.sequences then db.sequences[date] + 1 else 1;
      && ParseCode(r.value.assetCode) == Some((date, count))
      && (count < 100000 ==> |r.value.assetCode| == 12)
  {
    var date := DateString(year, month, day);
    DateStringShape(year, month, day);
    FormatParse(date, NextCount(db.sequences, date));
    FormatCodeLength(date, NextCount(db.sequences, date));
  }

  /**
   * Two registrations in a row on the same day get consecutive counts under
   * the same date key, so their codes differ.
   */
  lemma CreateSameDay(db: Db, u1: Option<User>, f1: Form, u2: Option<User>, f2: Form, year: nat, month: nat, day: nat)
    requires ValidDate(year, month, day)
    requires Create(db, u1, f1, year, month, day).0.Success?
    requires Create(Create(db, u1, f1, year, month, day).1, u2, f2, year, month, day).0.Success?
    ensures var (r1, db1) := Create(db, u1, f1, year, month, day);
      var r2 := Create(db1, u2, f2, year, month, day).0;
      var c1, c2 := ParseCode(r1.value.assetCode), ParseCode(r2.value.assetCode);
      && c1.Some? && c2.Some?
      && c2.value.0 == c1.value.0 == DateString(year, month, day)
      && c2.value.1 == c1.value.1 + 1
      && r1.value.assetCode != r2.value.assetCode
  {
    var db1 := Create(db, u1, f1, year, month, day).1;
    CreatedCode(db, u1, f1, year, month, day);
    CreatedCode(db1, u2, f2, year, month, day);
  }

  // ---------------------------------------------------------------------------
  // getAssets and getAssetByCode

  /** Every entry of `list` views a visible row among the first n, found at the index its id names. */
  predicate ListsVisibleRows(db: Db, user: User, list: seq<AssetView>, n: nat)
    requires n <= |db.assets|
  {
    forall i :: 0 <= i < |list| ==>
      && 1 <= list[i].asset.id <= n
      && list[i].asset == db.assets[list[i].asset.id - 1]
      && Visible(db, user, list[i].asset)
      && list[i] == View(db, list[i].asset)
  }

  /** Ids strictly decrease along `list`: newest first. */
  predicate NewestToOldest(list: seq<AssetView>) {
    forall i, j :: 0 <= i < j < |list| ==> list[i].asset.id > list[j].asset.id
  }

  /** Every visible row among the first n has its view in `list`. */
  predicate ListsEveryVisibleRow(db: Db, user: User, list: seq<AssetView>, n: nat)
    requires n <= |db.assets|
  {
    forall k :: 0 <= k < n && Visible(db, user, db.assets[k]) ==> View(db, db.assets[k]) in list
  }

  lemma {:induction false} NewestFirstRows(db: Db, user: User, n: nat)
    requires n <= |db.assets|
    requires forall k :: 0 <= k < |db.assets| ==> db.assets[k].id == k + 1
    ensures ListsVisibleRows(db, user, NewestFirst(db, user, n), n)
    decreases n
  {
    if n > 0 {
      NewestFirstRows(db, user, n - 1);
      var rest := NewestFirst(db, user, n - 1);
      ListsVisibleRowsWiden(db, user, rest, n - 1, n);
      var newest := if Visible(db, user, db.assets[n - 1]) then [View(db, db.assets[n - 1])] else [];
      assert ListsVisibleRows(db, user, newest, n) by {
        if newest != [] {
          assert newest[0].asset == db.assets[n - 1];
        }
      }
      ListsVisibleRowsAppend(db, user, newest, rest, n);
    }
  }

  lemma ListsVisibleRowsWiden(db: Db, user: User, list: seq<AssetView>, m: nat, n: nat)
    requires m <= n <= |db.assets| && ListsVisibleRows(db, user, list, m)
    ensures ListsVisibleRows(db, user, list, n)
  {
  }

  lemma ListsVisibleRowsAppend(db: Db, user: User, a: seq<AssetView>, b: seq<AssetView>, n: nat)
    requires n <= |db.assets| && ListsVisibleRows(db, user, a, n) && ListsVisibleRows(db, user, b, n)
    ensures ListsVisibleRows(db, user, a + b, n)
  {
    forall i | 0 <= i < |a + b| ensures (a + b)[i] == if i < |a| then a[i] else b[i - |a|] {
    }
  }

  lemma {:induction false} NewestFirstOrder(db: Db, user: User, n: nat)
    requires n <= |db.assets|
    requires forall k :: 0 <= k < |db.assets| ==> db.assets[k].id == k + 1
    ensures NewestToOldest(NewestFirst(db, user, n))
    decreases n
  {
    if n > 0 {
      NewestFirstOrder(db, user, n - 1);
      NewestFirstRows(db, user, n - 1);
      var rest := NewestFirst(db, user, n - 1);
      var r := NewestFirst(db, user, n);
      if Visible(db, user, db.assets[n - 1]) {
        assert r == [View(db, db.assets[n - 1])] + rest;
        forall i, j | 0 <= i < j < |r| ensures r[i].asset.id > r[j].asset.id {
          assert r[j] == rest[j - 1];
          if i > 0 {
            assert r[i] == rest[i - 1];
          }
        }
      } else {
        assert r == rest;
      }
    }
  }

  lemma {:induction false} NewestFirstComplete(db: Db, user: User, n: nat)
    requires n <= |db.assets|
    ensures ListsEveryVisibleRow(db, user, NewestFirst(db, user, n), n)
    decreases n
  {
    if n > 0 {
      NewestFirstComplete(db, user, n - 1);
      var rest := NewestFirst(db, user, n - 1);
      var newest := if Visible(db, user, db.assets[n - 1]) then [View(db, db.assets[n - 1])] else [];
      var r := NewestFirst(db, user, n);
      assert r == newest + rest;
      forall k | 0 <= k < n && Visible(db, user, db.assets[k]) ensures View(db, db.assets[k]) in r {
        if k < n - 1 {
          assert View(db, db.assets[k]) in rest;
        } else {
          assert r[0] == View(db, db.assets[k]);
        }
      }
    }
  }

  /**
   * `getAssets` asks for a login; for a user it lists, newest first, exactly
   * the rows that are not soft-deleted and, unless the user is an admin, are
   * filed under a department named like the user's.
   */
  lemma GetAssetsSpec(db: Db, user: Option<User>)
    requires Valid(db)
    ensures GetAssets(db, user).Failure? <==> user.None?
    ensures GetAssets(db, user).Failure? ==> GetAssets(db, user).error == NotLoggedIn
    ensures user.Some? ==> var r := GetAssets(db, user).value;
      && (forall i :: 0 <= i < |r| ==>
            && r[i].asset in db.assets
            && r[i].asset.deletedAt.None?
            && r[i].department == DepartmentOf(db.departments, r[i].asset)
            && (user.value.role != ADMIN ==>
                  r[i].department.Some? && r[i].department.value.name == user.value.department))
      && (forall i, j :: 0 <= i < j < |r| ==> r[i].asset.id > r[j].asset.id)
      && (forall k :: 0 <= k < |db.assets| && Visible(db, user.value, db.assets[k]) ==>
            View(db, db.assets[k]) in r)
  {
    if user.Some? {
      NewestFirstRows(db, user.value, |db.assets|);
      NewestFirstOrder(db, user.value, |db.assets|);
      NewestFirstComplete(db, user.value, |db.assets|);
    }
  }

  /**
   * `getAssetByCode` finds the row with the code, with its department, unless
   * there is none or it is soft-deleted.
   */
  lemma GetAssetByCodeSpec(db: Db, code: string)
    requires Valid(db)
    ensures var r := GetAssetByCode(db, code);
      && (r.Success? ==>
            && r.value.asset in db.assets
            && r.value.asset.assetCode == code
            && r.value.asset.deletedAt.None?
            && r.value == View(db, r.value.asset))
      && (r.Failure? ==>
            && r.error == NotFound
            && forall k :: 0 <= k < |db.assets| && db.assets[k].assetCode == code ==> db.assets[k].deletedAt.Some?)
  {
    match FindCode(db.assets, code)
    case None =>
    case Some(k) =>
      forall j | 0 <= j < |db.assets| && db.assets[j].assetCode == code ensures j == k {
      }
  }

  /**
   * For an admin the list and the lookup agree: a code is found exactly when
   * its row is listed, and the lookup gives the listed view.
   */
  lemma ListAndLookupAgree(db: Db, admin: User, code: string)
    requires Valid(db) && admin.role == ADMIN
    ensures var list := GetAssets(db, Some(admin)).value;
      && (forall i :: 0 <= i < |list| ==> GetAssetByCode(db, list[i].asset.assetCode) == Success(list[i]))
      && (GetAssetByCode(db, code).Success? ==> GetAssetByCode(db, code).value in list)
  {
    var list := GetAssets(db, Some(admin)).value;
    assert list == NewestFirst(db, admin, |db.assets|);
    NewestFirstRows(db, admin, |db.assets|);
    NewestFirstComplete(db, admin, |db.assets|);
    forall i | 0 <= i < |list| ensures GetAssetByCode(db, list[i].asset.assetCode) == Success(list[i]) {
      FindCodeAt(db.assets, list[i].asset.id - 1);
    }
  }

  // ---------------------------------------------------------------------------
  // updateAsset

  /** The update schema accepts the form: all six fields present, owner and manager ones non-empty. */
  predicate UpdateAccepted(form: Form) {
    && (forall f :: f in UPDATE_REQUIRED_FIELDS ==> f in form && form[f] != "")
    && "description" in form && "status" in form
  }

  lemma UpdateErrorsEmpty(form: Form)
    ensures UpdateErrors(form) == {} <==> UpdateAccepted(form)
    ensures forall f :: f in UpdateErrors(form) ==> f !in form || (f in UPDATE_REQUIRED_FIELDS && form[f] == "")
  {
    forall f | f in UPDATE_REQUIRED_FIELDS && Blank(form, f) ensures f in UpdateErrors(form) {
    }
    if "description" !in form {
      assert "description" in UpdateErrors(form);
    }
    if "status" !in form {
      assert "status" in UpdateErrors(form);
    }
  }

  /**
   * `updateAsset` rejects a form the schema refuses and fails on an unknown
   * code, writing nothing; otherwise it rewrites the owner, manager,
   * description and status of the row with the code and nothing else, keeps
   * the store consistent, and a row that was soft-deleted stays so.
   */
  lemma UpdateOutcome(db: Db, code: string, form: Form)
    requires Valid(db)
    ensures var (r, db') := Update(db, code, form);
      && Valid(db')
      && (r.Failure? ==> db' == db)
      && (r.Failure? && r.error.InvalidFields? <==> !UpdateAccepted(form))
      && (r == Failure(StoreFailure) <==>
            UpdateAccepted(form) && forall k :: 0 <= k < |db.assets| ==> db.assets[k].assetCode != code)
      && (r.Success? ==>
            && db'.sequences == db.sequences && db'.departments == db.departments
            && |db'.assets| == |db.assets|
            && exists k :: 0 <= k < |db.assets| && db.assets[k].assetCode == code
                 && db'.assets == db.assets[k := r.value]
                 && r.value == db.assets[k].(ownerId := form["ownerId"], ownerName := form["ownerName"],
                                            managerId := form["managerId"], managerName := form["managerName"],
                                            description := Some(form["description"]), status := form["status"]))
  {
    UpdateErrorsEmpty(form);
  }

  /** Submitting the same edit twice leaves the store as one submission does. */
  lemma UpdateIdempotent(db: Db, code: string, form: Form)
    ensures var db1 := Update(db, code, form).1;
      Update(db1, code, form) == Update(db, code, form)
  {
    var (r, db1) := Update(db, code, form);
    if r.Success? {
      var k := FindCode(db.assets, code).value;
      FindCodeKeepsCodes(db.assets, db1.assets, code);
      assert Edited(Edited(db.assets[k], form), form) == Edited(db.assets[k], form);
      assert db1.assets[k := Edited(db.assets[k], form)] == db1.assets;
    }
  }

  /**
   * An edit never brings a soft-deleted asset back, and after an edit of a
   * live asset the lookup shows the edited row.
   */
  lemma UpdateThenLookup(db: Db, code: string, form: Form)
    ensures var (r, db') := Update(db, code, form);
      && (GetAssetByCode(db, code).Failure? ==> GetAssetByCode(db', code).Failure?)
      && (GetAssetByCode(db, code).Success? && r.Success? ==> GetAssetByCode(db', code) == Success(View(db', r.value)))
  {
    var (r, db') := Update(db, code, form);
    if r.Success? {
      FindCodeKeepsCodes(db.assets, db'.assets, code);
    }
  }

  // ---------------------------------------------------------------------------
  // deleteAsset and deleteAssetById

  /**
   * `deleteAsset` fails on an unknown code, writing nothing; otherwise it
   * stamps the row with the code as deleted at `now` and changes nothing
   * else: the row stays in the table and the store stays consistent.
   */
  lemma SoftDeleteOutcome(db: Db, code: string, now: Timestamp)
    requires Valid(db)
    ensures var (r, db') := SoftDelete(db, code, now);
      && Valid(db')
      && (r.Failure? ==> r.error == StoreFailure && db' == db)
      && (r.Failure? <==> forall k :: 0 <= k < |db.assets| ==> db.assets[k].assetCode != code)
      && (r.Success? ==>
            && db'.sequences == db.sequences && db'.departments == db.departments
            && |db'.assets| == |db.assets|
            && forall k :: 0 <= k < |db.assets| ==>
                 db'.assets[k] == if db.assets[k].assetCode == code
                                  then db.assets[k].(deletedAt := Some(now))
                                  else db.assets[k])
  {
  }

  /**
   * After a soft delete the asset is gone from every user's list and from
   * the lookup by code.
   */
  lemma SoftDeleteHides(db: Db, code: string, now: Timestamp, user: User)
    requires Valid(db) && SoftDelete(db, code, now).0.Success?
    ensures var db' := SoftDelete(db, code, now).1;
      && GetAssetByCode(db', code) == Failure(NotFound)
      && forall v :: v in GetAssets(db', Some(user)).value ==> v.asset.assetCode != code
  {
    var db' := SoftDelete(db, code, now).1;
    SoftDeleteOutcome(db, code, now);
    NewestFirstRows(db', user, |db'.assets|);
    GetAssetByCodeSpec(db', code);
  }

  /** Deleting again re-stamps the row: only the last deletion time is kept. */
  lemma SoftDeleteTwice(db: Db, code: string, t1: Timestamp, t2: Timestamp)
    ensures SoftDelete(SoftDelete(db, code, t1).1, code, t2) == SoftDelete(db, code, t2)
  {
    var db1 := SoftDelete(db, code, t1).1;
    FindCodeKeepsCodes(db.assets, db1.assets, code);
    if FindCode(db.assets, code).Some? {
      var k := FindCode(db.assets, code).value;
      assert db1.assets[k := db1.assets[k].(deletedAt := Some(t2))] == db.assets[k := db.assets[k].(deletedAt := Some(t2))];
    }
  }

  /**
   * `deleteAssetById` refuses a missing user and a non-admin and writes
   * nothing then; for an admin, deleting by a row's id is deleting by its
   * code, and an id no row has makes the store fail.
   */
  lemma SoftDeleteByIdSpec(db: Db, user: Option<User>, id: nat, now: Timestamp)
    requires Valid(db)
    ensures var (r, db') := SoftDeleteById(db, user, id, now);
      && (r == Failure(NotLoggedIn) <==> user.None?)
      && (r == Failure(Forbidden) <==> user.Some? && user.value.role != ADMIN)
      && (r.Failure? ==> db' == db)
      && (user.Some? && user.value.role == ADMIN ==>
            if 1 <= id <= |db.assets|
            then (r, db') == SoftDelete(db, db.assets[id - 1].assetCode, now)
            else r == Failure(StoreFailure))
  {
    if user.Some? && user.value.role == ADMIN && 1 <= id <= |db.assets| {
      FindIdAt(db.assets, id - 1);
      FindCodeAt(db.assets, id - 1);
    }
  }
}
