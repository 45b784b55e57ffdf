/**
 * The relational store the two action files talk to through Prisma: the
 * `AssetSequence`, `Department` and `Asset` tables, the session user, and the
 * lookups the actions issue (`findUnique`, `findFirst`).
 *
 * Rows are never physically removed. The model gives them dense ids: the
 * row at index k has id k + 1. The database's id sequence is not rolled
 * back when an insert fails, so the real ids can have gaps after a failed
 * registration; the model does not capture those gaps.
 *
 * `findFirst` without an `orderBy` returns no particular row; the model
 * takes the one with the lowest id.
 */
module Records {
  import opened Text

  datatype Option<+T> = None | Some(value: T)

  datatype Result<+T, +E> = Success(value: T) | Failure(error: E)

  /** A `Date` written by the store; the model treats it as an opaque number. */
  type Timestamp = nat

  datatype Department = Department(
    id: nat,
    name: string,
    path: string,
    depth: nat,
    parentId: Option<nat>)

  datatype Asset = Asset(
    id: nat,
    assetCode: string,
    assetName: string,
    ownerId: string,
    ownerName: string,
    managerId: string,
    managerName: string,
    description: Option<string>,
    qrUrl: Option<string>,
    status: string,
    departmentId: Option<nat>,
    deletedAt: Option<Timestamp>)

  /** What `getCurrentUser` yields: the acting user's employee id, role and department name. */
  datatype User = User(employeeId: string, role: string, department: string)

  const ADMIN := "ADMIN"
  const ACTIVE := "ACTIVE"

  /** A snapshot of the three tables. `sequences` maps a `YYMMDD` date to its `currentCount`. */
  datatype Db = Db(
    sequences: map<string, nat>,
    departments: seq<Department>,
    assets: seq<Asset>)

  // ---------------------------------------------------------------------------
  // Consistency of the store (what its keys, unique constraints and foreign keys guarantee)

  /**
   * The shape of one department row: a root (no parent) sits at depth 0 and
   * its path is its name; any other row points to an earlier row and its path
   * extends the parent's path by its own name. A row's depth is the index of
   * its piece in the cell that created it, which need not be one more than its
   * parent's depth when a piece itself holds "/".
   */
  predicate Linked(depts: seq<Department>, k: nat)
    requires k < |depts|
  {
    match depts[k].parentId
    case None => depts[k].depth == 0 && depts[k].path == depts[k].name
    case Some(p) =>
      && 1 <= p <= k
      && depts[k].depth > 0
      && depts[k].path == JoinPath(depts[p - 1].path, depts[k].name)
  }

  predicate DeptsValid(depts: seq<Department>) {
    && (forall k :: 0 <= k < |depts| ==> depts[k].id == k + 1)
    && (forall i, j :: 0 <= i < j < |depts| ==> depts[i].path != depts[j].path)
    && (forall k :: 0 <= k < |depts| ==> Linked(depts, k))
  }

  predicate AssetsValid(assets: seq<Asset>, deptCount: nat) {
    && (forall k :: 0 <= k < |assets| ==> assets[k].id == k + 1)
    && (forall i, j :: 0 <= i < j < |assets| ==> assets[i].assetCode != assets[j].assetCode)
    && (forall k :: 0 <= k < |assets| && assets[k].departmentId.Some? ==>
          1 <= assets[k].departmentId.value <= deptCount)
  }

  predicate Valid(db: Db) {
    && DeptsValid(db.departments)
    && AssetsValid(db.assets, |db.departments|)
    && (forall d :: d in db.sequences ==> db.sequences[d] >= 1)
  }

  // ---------------------------------------------------------------------------
  // Lookups

  /** `department.findUnique({ where: { path } })`, as the index of the row. */
  function FindPath(depts: seq<Department>, path: string): (r: Option<nat>)
    ensures r.Some? ==> r.value < |depts| && depts[r.value].path == path
    ensures r.None? ==> forall k :: 0 <= k < |depts| ==> depts[k].path != path
  {
    if depts == [] then None
    else if depts[|depts| - 1].path == path then Some(|depts| - 1)
    else FindPath(depts[..|depts| - 1], path)
  }

  /** `department.findFirst({ where: { name } })`: the row with the lowest id among those named so. */
  function FindName(depts: seq<Department>, name: string): (r: Option<nat>)
    ensures r.Some? ==> r.value < |depts| && depts[r.value].name == name
    ensures r.Some? ==> forall k :: 0 <= k < r.value ==> depts[k].name != name
    ensures r.None? ==> forall k :: 0 <= k < |depts| ==> depts[k].name != name
  {
    if depts == [] then None
    else if depts[0].name == name then Some(0)
    else match FindName(depts[1..], name)
      case None => None
      case Some(k) => Some(k + 1)
  }

  /** `asset.findUnique({ where: { assetCode } })`, as the index of the row. */
  function FindCode(assets: seq<Asset>, code: string): (r: Option<nat>)
    ensures r.Some? ==> r.value < |assets| && assets[r.value].assetCode == code
    ensures r.None? ==> forall k :: 0 <= k < |assets| ==> assets[k].assetCode != code
  {
    if assets == [] then None
    else if assets[|assets| - 1].assetCode == code then Some(|assets| - 1)
    else FindCode(assets[..|assets| - 1], code)
  }

  /** `asset.findUnique({ where: { id } })`, as the index of the row. */
  function FindId(assets: seq<Asset>, id: nat): (r: Option<nat>)
    ensures r.Some? ==> r.value < |assets| && assets[r.value].id == id
    ensures r.None? ==> forall k :: 0 <= k < |assets| ==> assets[k].id != id
  {
    if assets == [] then None
    else if assets[|assets| - 1].id == id then Some(|assets| - 1)
    else FindId(assets[..|assets| - 1], id)
  }

  /** The department row an asset's `departmentId` refers to, if any. */
  function DepartmentOf(depts: seq<Department>, a: Asset): Option<Department> {
    if a.departmentId.Some? && 1 <= a.departmentId.value <= |depts|
    then Some(depts[a.departmentId.value - 1])
    else None
  }

  /** Some stored department has this path. */
  predicate HasPath(depts: seq<Department>, path: string) {
    FindPath(depts, path).Some?
  }

  // ---------------------------------------------------------------------------
  // The store object: the three tables as fields that the actions update in place.

  class Store {
    var sequences: map<string, nat>
    var departments: seq<Department>
    var assets: seq<Asset>

    function State(): Db
      reads this
    {
      Db(sequences, departments, assets)
    }

    constructor (db: Db)
      ensures State() == db
    {
      sequences := db.sequences;
      departments := db.departments;
      assets := db.assets;
    }

    /**
     * `assetSequence.upsert({ where: { date }, update: { currentCount: { increment: 1 } },
     * create: { date, currentCount: 1 } })`, returning the new count.
     */
    method UpsertSequence(date: string) returns (count: nat)
      modifies this`sequences
      ensures count == (if date in old(sequences) then old(sequences)[date] + 1 else 1)
      ensures sequences == old(sequences)[date := count]
    {
      count := if date in sequences then sequences[date] + 1 else 1;
      sequences := sequences[date := count];
    }

    /** `department.create` (also the create branch of `department.upsert`): appends a row with the next id. */
    method CreateDepartment(name: string, path: string, depth: nat, parentId: Option<nat>)
      returns (id: nat)
      modifies this`departments
      ensures id == |old(departments)| + 1
      ensures departments == old(departments) + [Department(id, name, path, depth, parentId)]
    {
      id := |departments| + 1;
      departments := departments + [Department(id, name, path, depth, parentId)];
    }

    /** `asset.create`: appends the row with the next id. */
    method InsertAsset(a: Asset) returns (id: nat)
      modifies this`assets
      ensures id == |old(assets)| + 1
      ensures assets == old(assets) + [a.(id := id)]
    {
      id := |assets| + 1;
      assets := assets + [a.(id := id)];
    }

    /** `asset.update` of the row at index k. */
    method ReplaceAsset(k: nat, a: Asset)
      requires k < |assets|
      modifies this`assets
      ensures assets == old(assets)[k := a]
    {
      assets := assets[k := a];
    }
  }
}
