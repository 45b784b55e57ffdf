/**
 * Hierarchical department resolution in `importAssetsFromExcel`: the walk over
 * the levels of one department cell, keeping a running `/`-joined path, the
 * previous level's id and the batch cache, and finding or creating one
 * department per level.
 */
module DeptResolve {
  import opened Text
  import opened Records

  /**
   * The walk's state: the department table, the batch cache (`deptCache`),
   * `currentPath`, `parentId`, and the batch's `createdDepts` counter.
   */
  datatype Walk = Walk(
    depts: seq<Department>,
    cache: map<string, nat>,
    path: string,
    parent: Option<nat>,
    created: nat)

  /** Every cached path names the id of the stored department with that path. */
  predicate CacheAgrees(cache: map<string, nat>, depts: seq<Department>) {
    forall p :: p in cache ==> 1 <= cache[p] <= |depts| && depts[cache[p] - 1].path == p
  }

  /**
   * One level: extend the running path, then take the id from the cache, or
   * else from the stored department with that path, or else from a department
   * created with this name, path, depth and the previous level as parent.
   */
  function Step(w: Walk, part: string, depth: nat): (r: Walk)
    ensures r.path == JoinPath(w.path, part) && r.parent.Some?
    ensures |w.depts| <= |r.depts| && r.depts[..|w.depts|] == w.depts
    ensures |r.depts| - |w.depts| == r.created - w.created <= 1
    ensures r.path in w.cache ==> r.depts == w.depts && r.cache == w.cache && r.created == w.created
  {
    var path := JoinPath(w.path, part);
    if path in w.cache then
      w.(path := path, parent := Some(w.cache[path]))
    else match FindPath(w.depts, path)
      case Some(k) =>
        var id := w.depts[k].id;
        w.(path := path, parent := Some(id), cache := w.cache[path := id])
      case None => Created(w, part, depth)
  }

  /** A level whose path is neither cached nor stored: a new department, appended and cached. */
  function Created(w: Walk, part: string, depth: nat): Walk {
    var path := JoinPath(w.path, part);
    var id := |w.depts| + 1;
    Walk(w.depts + [Department(id, part, path, depth, w.parent)],
         w.cache[path := id], path, Some(id), w.created + 1)
  }

  /** Levels i.. of the walk. */
  function WalkFrom(w: Walk, parts: seq<string>, i: nat): Walk
    requires i <= |parts|
    decreases |parts| - i
  {
    if i == |parts| then w else WalkFrom(Step(w, parts[i], i), parts, i + 1)
  }

  /** Resolution of one department string's pieces, from an empty path and no parent. */
  function Resolve(depts: seq<Department>, cache: map<string, nat>, created: nat, parts: seq<string>): Walk {
    WalkFrom(Walk(depts, cache, "", None, created), parts, 0)
  }

  /** How many entries of xs are not the path of a department in depts. */
  function CountAbsent(xs: seq<string>, depts: seq<Department>): nat {
    if xs == [] then 0
    else CountAbsent(xs[..|xs| - 1], depts) + (if HasPath(depts, xs[|xs| - 1]) then 0 else 1)
  }

  // ---------------------------------------------------------------------------
  // The walk invariant; `paths` stands for LevelPaths(parts)

  /**
   * Department k was created by a walk over `parts` at one of its first
   * `levels` levels: its name is the piece of its level (its depth), its path
   * that level's running path, and its parent the department holding the
   * previous level's path (none at level 0).
   */
  predicate NewLevel(depts: seq<Department>, parts: seq<string>, paths: seq<string>, k: nat, levels: nat)
    requires k < |depts| && |paths| == |parts|
  {
    var d := depts[k];
    && d.depth < levels && d.depth < |parts|
    && d.name == parts[d.depth]
    && d.path == paths[d.depth]
    && (d.depth == 0 ==> d.parentId == None)
    && (d.depth > 0 ==>
          && d.parentId.Some?
          && 1 <= d.parentId.value <= k
          && depts[d.parentId.value - 1].path == paths[d.depth - 1])
  }

  /** The table after the walk's earlier levels: consistent, cached, only appended to. */
  predicate TableInv(depts0: seq<Department>, created0: nat, w: Walk) {
    && DeptsValid(w.depts)
    && CacheAgrees(w.cache, w.depts)
    && |depts0| <= |w.depts| && w.depts[..|depts0|] == depts0
    && w.created == created0 + (|w.depts| - |depts0|)
  }

  /** The walk's parent, when it has one, is a stored department holding the running path. */
  predicate Anchored(w: Walk) {
    && (w.parent.None? ==> w.path == "")
    && (w.parent.Some? ==> 1 <= w.parent.value <= |w.depts| && w.depts[w.parent.value - 1].path == w.path)
  }

  /** Where the walk stands before level i: the previous level's path and department. */
  predicate PositionInv(paths: seq<string>, w: Walk, i: nat)
    requires i <= |paths|
  {
    && Anchored(w)
    && (i == 0 <==> w.parent.None?)
    && (i > 0 ==> w.path == paths[i - 1])
  }

  /** The levels before i are cached, and each appended row belongs to one of them. */
  predicate LevelsInv(depts0: seq<Department>, parts: seq<string>, paths: seq<string>, w: Walk, i: nat)
    requires i <= |paths| && |paths| == |parts|
  {
    && (forall j :: 0 <= j < i ==> paths[j] in w.cache)
    && (forall k :: |depts0| <= k < |w.depts| ==> NewLevel(w.depts, parts, paths, k, i))
  }

  predicate WalkInv(depts0: seq<Department>, created0: nat, parts: seq<string>, paths: seq<string>, w: Walk, i: nat)
    requires i <= |paths| && |paths| == |parts|
  {
    && TableInv(depts0, created0, w)
    && PositionInv(paths, w, i)
    && LevelsInv(depts0, parts, paths, w, i)
    && w.created == created0 + CountAbsent(paths[..i], depts0)
  }

  /** A level's path is stored after the earlier levels exactly when it was stored before the walk. */
  lemma StoredBefore(depts0: seq<Department>, parts: seq<string>, paths: seq<string>, w: Walk, i: nat)
    requires i < |paths| && |paths| == |parts|
    requires |depts0| <= |w.depts| && w.depts[..|depts0|] == depts0
    requires forall k :: |depts0| <= k < |w.depts| ==> NewLevel(w.depts, parts, paths, k, i)
    requires forall j :: 0 <= j < i ==> paths[j] != paths[i]
    ensures HasPath(w.depts, paths[i]) <==> HasPath(depts0, paths[i])
  {
    var p := paths[i];
    forall k | |depts0| <= k < |w.depts| ensures w.depts[k].path != p {
      assert NewLevel(w.depts, parts, paths, k, i);
    }
    if HasPath(w.depts, p) {
      var k := FindPath(w.depts, p).value;
      assert depts0[k] == w.depts[k];
    }
    if HasPath(depts0, p) {
      var k := FindPath(depts0, p).value;
      assert w.depts[k] == depts0[k];
    }
  }

  lemma CountAbsentStep(xs: seq<string>, i: nat, depts: seq<Department>)
    requires i < |xs|
    ensures CountAbsent(xs[..i + 1], depts) == CountAbsent(xs[..i], depts) + (if HasPath(depts, xs[i]) then 0 else 1)
  {
    assert xs[..i + 1][..i] == xs[..i];
  }

  /** Appending a department that extends an existing one keeps the table consistent. */
  lemma AppendKeepsValid(depts: seq<Department>, d: Department)
    requires DeptsValid(depts)
    requires d.id == |depts| + 1
    requires forall k :: 0 <= k < |depts| ==> depts[k].path != d.path
    requires Linked(depts + [d], |depts|)
    ensures DeptsValid(depts + [d])
  {
    var ds := depts + [d];
    forall k | 0 <= k < |ds| ensures Linked(ds, k) {
      if k < |depts| {
        assert Linked(depts, k);
        assert ds[k] == depts[k];
        if depts[k].parentId.Some? {
          assert ds[depts[k].parentId.value - 1] == depts[depts[k].parentId.value - 1];
        }
      }
    }
  }

  lemma AppendKeepsCache(cache: map<string, nat>, depts: seq<Department>, d: Department)
    requires CacheAgrees(cache, depts) && d.path !in cache
    ensures CacheAgrees(cache[d.path := |depts| + 1], depts + [d])
  {
    var ds := depts + [d];
    forall p | p in cache ensures ds[cache[p] - 1] == depts[cache[p] - 1] {
    }
  }

  /** Rows created at the first lo levels were created at the first hi levels. */
  lemma LevelsWiden(depts: seq<Department>, parts: seq<string>, paths: seq<string>, from: nat, lo: nat, hi: nat)
    requires |paths| == |parts| && lo <= hi
    requires forall k :: from <= k < |depts| ==> NewLevel(depts, parts, paths, k, lo)
    ensures forall k :: from <= k < |depts| ==> NewLevel(depts, parts, paths, k, hi)
  {
    forall k | from <= k < |depts| ensures NewLevel(depts, parts, paths, k, hi) {
      assert NewLevel(depts, parts, paths, k, lo);
    }
  }

  lemma AppendKeepsLevels(depts: seq<Department>, parts: seq<string>, paths: seq<string>, d: Department, from: nat, lo: nat, hi: nat)
    requires |paths| == |parts| && from <= |depts| && lo <= hi
    requires forall k :: from <= k < |depts| ==> NewLevel(depts, parts, paths, k, lo)
    requires NewLevel(depts + [d], parts, paths, |depts|, hi)
    ensures forall k :: from <= k < |depts| + 1 ==> NewLevel(depts + [d], parts, paths, k, hi)
  {
    var ds := depts + [d];
    forall k | from <= k < |depts| ensures NewLevel(ds, parts, paths, k, hi) {
      assert NewLevel(depts, parts, paths, k, lo);
      assert ds[k] == depts[k];
      var q := depts[k].parentId;
      if q.Some? && depts[k].depth > 0 {
        assert ds[q.value - 1] == depts[q.value - 1];
      }
    }
  }

  lemma PrefixOfAppend<T>(xs: seq<T>, x: T, n: nat)
    requires n <= |xs|
    ensures (xs + [x])[..n] == xs[..n]
  {
  }

  /** Creating a level's department keeps the table consistent and the walk anchored. */
  lemma CreateTable(depts0: seq<Department>, created0: nat, w: Walk, part: string, depth: nat)
    requires TableInv(depts0, created0, w) && Anchored(w) && (depth == 0 <==> w.parent.None?)
    requires JoinPath(w.path, part) !in w.cache && FindPath(w.depts, JoinPath(w.path, part)).None?
    ensures TableInv(depts0, created0, Created(w, part, depth)) && Anchored(Created(w, part, depth))
  {
    var path := JoinPath(w.path, part);
    var d := Department(|w.depts| + 1, part, path, depth, w.parent);
    var ds := w.depts + [d];
    if w.parent.Some? {
      assert ds[w.parent.value - 1] == w.depts[w.parent.value - 1];
    }
    assert Linked(ds, |w.depts|);
    AppendKeepsValid(w.depts, d);
    AppendKeepsCache(w.cache, w.depts, d);
    PrefixOfAppend(w.depts, d, |depts0|);
  }

  /** Finding a level's department in the table keeps the table consistent and the walk anchored. */
  lemma StepFoundTable(depts0: seq<Department>, created0: nat, w: Walk, part: string, depth: nat)
    requires TableInv(depts0, created0, w)
    requires JoinPath(w.path, part) !in w.cache && FindPath(w.depts, JoinPath(w.path, part)).Some?
    ensures TableInv(depts0, created0, Step(w, part, depth)) && Anchored(Step(w, part, depth))
  {
    var path := JoinPath(w.path, part);
    var k := FindPath(w.depts, path).value;
    CacheAddStored(w.cache, w.depts, k);
    assert Step(w, part, depth) == w.(path := path, parent := Some(k + 1), cache := w.cache[path := k + 1]);
  }

  /** Caching a stored department's path under its id keeps the cache in agreement. */
  lemma CacheAddStored(cache: map<string, nat>, depts: seq<Department>, k: nat)
    requires CacheAgrees(cache, depts) && k < |depts| && depts[k].id == k + 1
    ensures CacheAgrees(cache[depts[k].path := depts[k].id], depts)
  {
  }

  /** One level keeps the table consistent and the walk anchored. */
  lemma StepTable(depts0: seq<Department>, created0: nat, w: Walk, part: string, depth: nat)
    requires TableInv(depts0, created0, w) && Anchored(w) && (depth == 0 <==> w.parent.None?)
    ensures TableInv(depts0, created0, Step(w, part, depth)) && Anchored(Step(w, part, depth))
  {
    var path := JoinPath(w.path, part);
    if path in w.cache {
      assert Step(w, part, depth) == w.(path := path, parent := Some(w.cache[path]));
    } else if FindPath(w.depts, path).Some? {
      StepFoundTable(depts0, created0, w, part, depth);
    } else {
      CreateTable(depts0, created0, w, part, depth);
    }
  }

  /** One level caches its path, keeps earlier cache entries, and counts a creation exactly when its path was not stored. */
  lemma StepStores(w: Walk, part: string, depth: nat)
    requires DeptsValid(w.depts) && CacheAgrees(w.cache, w.depts)
    ensures var r := Step(w, part, depth);
      && r.created == w.created + (if HasPath(w.depts, r.path) then 0 else 1)
      && r.path in r.cache
      && (forall p :: p in w.cache ==> p in r.cache)
  {
    var path := JoinPath(w.path, part);
    if path in w.cache {
      assert w.depts[w.cache[path] - 1].path == path;
    } else if FindPath(w.depts, path).Some? {
      var k := FindPath(w.depts, path).value;
      assert w.depts[k].path == path;
    } else {
      assert !HasPath(w.depts, path);
    }
  }

  /** One level keeps every earlier level cached and records the row it creates, if any. */
  lemma StepLevels(depts0: seq<Department>, created0: nat, parts: seq<string>, paths: seq<string>, w: Walk, i: nat)
    requires i < |paths| && |paths| == |parts|
    requires paths[i] == JoinPath(if i == 0 then "" else paths[i - 1], parts[i])
    requires TableInv(depts0, created0, w) && PositionInv(paths, w, i)
    requires LevelsInv(depts0, parts, paths, w, i)
    ensures LevelsInv(depts0, parts, paths, Step(w, parts[i], i), i + 1)
  {
    var path := paths[i];
    var w' := Step(w, parts[i], i);
    StepStores(w, parts[i], i);
    assert w'.path == path;
    if path in w.cache || FindPath(w.depts, path).Some? {
      assert w'.depts == w.depts;
      LevelsWiden(w.depts, parts, paths, |depts0|, i, i + 1);
    } else {
      assert w' == Created(w, parts[i], i);
      CreateLevels(depts0, parts, paths, w, i, i + 1);
    }
  }

  /** The department created at level i belongs to that level, and earlier rows keep theirs. */
  lemma CreateLevels(depts0: seq<Department>, parts: seq<string>, paths: seq<string>, w: Walk, i: nat, levels: nat)
    requires i < |paths| && |paths| == |parts| && levels == i + 1
    requires paths[i] == JoinPath(w.path, parts[i])
    requires PositionInv(paths, w, i) && |depts0| <= |w.depts|
    requires forall k :: |depts0| <= k < |w.depts| ==> NewLevel(w.depts, parts, paths, k, i)
    ensures forall k :: |depts0| <= k < |w.depts| + 1 ==> NewLevel(Created(w, parts[i], i).depts, parts, paths, k, levels)
  {
    var d := Department(|w.depts| + 1, parts[i], paths[i], i, w.parent);
    var ds := w.depts + [d];
    assert Created(w, parts[i], i).depts == ds;
    if i > 0 {
      assert ds[w.parent.value - 1] == w.depts[w.parent.value - 1];
    }
    assert NewLevel(ds, parts, paths, |w.depts|, levels);
    AppendKeepsLevels(w.depts, parts, paths, d, |depts0|, i, levels);
  }

  lemma StepInv(depts0: seq<Department>, created0: nat, parts: seq<string>, paths: seq<string>, w: Walk, i: nat)
    requires i < |paths| && |paths| == |parts|
    requires paths[i] == JoinPath(if i == 0 then "" else paths[i - 1], parts[i])
    requires forall j :: 0 <= j < i ==> paths[j] != paths[i]
    requires WalkInv(depts0, created0, parts, paths, w, i)
    ensures WalkInv(depts0, created0, parts, paths, Step(w, parts[i], i), i + 1)
  {
    var w' := Step(w, parts[i], i);
    StepTable(depts0, created0, w, parts[i], i);
    StepStores(w, parts[i], i);
    StepLevels(depts0, created0, parts, paths, w, i);
    StoredBefore(depts0, parts, paths, w, i);
    CountAbsentStep(paths, i, depts0);
    assert w'.path == paths[i];
  }

  lemma {:induction false} WalkFromInv(depts0: seq<Department>, created0: nat, parts: seq<string>, w: Walk, i: nat)
    requires Segments(parts) && i <= |parts|
    requires WalkInv(depts0, created0, parts, LevelPaths(parts), w, i)
    ensures WalkInv(depts0, created0, parts, LevelPaths(parts), WalkFrom(w, parts, i), |parts|)
    decreases |parts| - i
  {
    if i < |parts| {
      LevelPathsStep(parts, i);
      LevelPathsDistinct(parts, i);
      StepInv(depts0, created0, parts, LevelPaths(parts), w, i);
      WalkFromInv(depts0, created0, parts, Step(w, parts[i], i), i + 1);
    }
  }

  // ---------------------------------------------------------------------------
  // What a resolution guarantees

  /**
   * Resolving the pieces of a department cell against a consistent table and
   * an agreeing cache:
   * - keeps the table consistent and the cache in agreement with it, and only
   *   appends rows;
   * - ends with a leaf id whose department holds the last level's path;
   * - caches every level's path;
   * - gives each new row the name, path, depth and parent of its level;
   * - adds to `createdDepts` exactly the number of levels whose path was not
   *   stored before, which is also the number of rows appended.
   */
  lemma ResolveSound(depts: seq<Department>, cache: map<string, nat>, created: nat, parts: seq<string>)
    requires DeptsValid(depts) && CacheAgrees(cache, depts) && Segments(parts)
    ensures var w := Resolve(depts, cache, created, parts);
      var paths := LevelPaths(parts);
      && DeptsValid(w.depts) && CacheAgrees(w.cache, w.depts)
      && |depts| <= |w.depts| && w.depts[..|depts|] == depts
      && w.path == paths[|parts| - 1]
      && w.parent.Some? && 1 <= w.parent.value <= |w.depts|
      && w.depts[w.parent.value - 1].path == paths[|parts| - 1]
      && (forall j :: 0 <= j < |parts| ==> paths[j] in w.cache)
      && (forall k :: |depts| <= k < |w.depts| ==> NewLevel(w.depts, parts, paths, k, |parts|))
      && w.created == created + CountAbsent(paths, depts)
      && |w.depts| == |depts| + CountAbsent(paths, depts)
  {
    var w0 := Walk(depts, cache, "", None, created);
    var paths := LevelPaths(parts);
    WalkStart(depts, cache, created, parts);
    WalkFromInv(depts, created, parts, w0, 0);
    var w := Resolve(depts, cache, created, parts);
    assert paths[..|parts|] == paths;
    assert TableInv(depts, created, w);
    assert PositionInv(paths, w, |parts|);
    assert LevelsInv(depts, parts, paths, w, |parts|);
  }

  /** The invariant holds before the first level. */
  lemma WalkStart(depts: seq<Department>, cache: map<string, nat>, created: nat, parts: seq<string>)
    requires DeptsValid(depts) && CacheAgrees(cache, depts)
    ensures WalkInv(depts, created, parts, LevelPaths(parts), Walk(depts, cache, "", None, created), 0)
  {
    assert depts[..|depts|] == depts;
    assert LevelPaths(parts)[..0] == [];
  }

  lemma {:induction false} CountAbsentNone(xs: seq<string>, depts: seq<Department>)
    requires forall j :: 0 <= j < |xs| ==> HasPath(depts, xs[j])
    ensures CountAbsent(xs, depts) == 0
    decreases |xs|
  {
    if xs != [] {
      CountAbsentNone(xs[..|xs| - 1], depts);
    }
  }

  /** After a resolution every level's path is stored. */
  lemma ResolveStored(depts: seq<Department>, cache: map<string, nat>, created: nat, parts: seq<string>)
    requires DeptsValid(depts) && CacheAgrees(cache, depts) && Segments(parts)
    ensures var w := Resolve(depts, cache, created, parts);
      && DeptsValid(w.depts) && CacheAgrees(w.cache, w.depts)
      && forall j :: 0 <= j < |parts| ==> HasPath(w.depts, LevelPaths(parts)[j])
  {
    var w := Resolve(depts, cache, created, parts);
    var paths := LevelPaths(parts);
    ResolveSound(depts, cache, created, parts);
    forall j | 0 <= j < |parts| ensures HasPath(w.depts, paths[j]) {
      var id := w.cache[paths[j]];
      assert w.depts[id - 1].path == paths[j];
    }
  }

  /** A resolution appends exactly one row per level whose path was not stored. */
  lemma ResolveCount(depts: seq<Department>, cache: map<string, nat>, created: nat, parts: seq<string>)
    requires DeptsValid(depts) && CacheAgrees(cache, depts) && Segments(parts)
    ensures var w := Resolve(depts, cache, created, parts);
      && |depts| <= |w.depts| && w.depts[..|depts|] == depts
      && |w.depts| == |depts| + CountAbsent(LevelPaths(parts), depts)
      && w.created == created + CountAbsent(LevelPaths(parts), depts)
  {
    ResolveSound(depts, cache, created, parts);
  }

  /** A resolution ends at the department holding the last level's path. */
  lemma ResolveLeaf(depts: seq<Department>, cache: map<string, nat>, created: nat, parts: seq<string>)
    requires DeptsValid(depts) && CacheAgrees(cache, depts) && Segments(parts)
    ensures var w := Resolve(depts, cache, created, parts);
      && DeptsValid(w.depts)
      && w.parent.Some? && 1 <= w.parent.value <= |w.depts|
      && w.depts[w.parent.value - 1].path == LevelPaths(parts)[|parts| - 1]
  {
    ResolveSound(depts, cache, created, parts);
  }

  /** Resolving pieces whose every level is already stored changes nothing in the table. */
  lemma ResolveStoredNoop(depts: seq<Department>, cache: map<string, nat>, created: nat, parts: seq<string>)
    requires DeptsValid(depts) && CacheAgrees(cache, depts) && Segments(parts)
    requires CountAbsent(LevelPaths(parts), depts) == 0
    ensures var w := Resolve(depts, cache, created, parts);
      w.depts == depts && w.created == created
  {
    var w := Resolve(depts, cache, created, parts);
    ResolveCount(depts, cache, created, parts);
    assert w.depts == w.depts[..|depts|];
  }

  /** In a consistent table a path names one row. */
  lemma PathNamesOneRow(depts: seq<Department>, a: nat, b: nat)
    requires DeptsValid(depts) && a < |depts| && b < |depts|
    requires depts[a].path == depts[b].path
    ensures a == b
  {
  }

  /**
   * Resolving a department string a second time (with any cache that agrees
   * with the table) creates nothing and ends at the same leaf id.
   */
  lemma ResolveIdempotent(depts: seq<Department>, cache: map<string, nat>, created: nat,
                          cache2: map<string, nat>, created2: nat, parts: seq<string>)
    requires DeptsValid(depts) && CacheAgrees(cache, depts) && Segments(parts)
    requires CacheAgrees(cache2, Resolve(depts, cache, created, parts).depts)
    ensures var w := Resolve(depts, cache, created, parts);
      var w2 := Resolve(w.depts, cache2, created2, parts);
      && w2.depts == w.depts
      && w2.created == created2
      && w2.parent == w.parent
  {
    var w := Resolve(depts, cache, created, parts);
    ResolveStored(depts, cache, created, parts);
    CountAbsentNone(LevelPaths(parts), w.depts);
    ResolveStoredNoop(w.depts, cache2, created2, parts);
    var w2 := Resolve(w.depts, cache2, created2, parts);
    ResolveLeaf(depts, cache, created, parts);
    ResolveLeaf(w.depts, cache2, created2, parts);
    PathNamesOneRow(w.depts, w.parent.value - 1, w2.parent.value - 1);
  }

  /** Runs of pieces that agree on their first m entries have the same first m running paths. */
  lemma LevelPathsShared(p: seq<string>, q: seq<string>, m: nat)
    requires m <= |p| && m <= |q| && p[..m] == q[..m]
    ensures LevelPaths(p)[..m] == LevelPaths(q)[..m]
  {
    LevelPathsPrefix(p, m);
    LevelPathsPrefix(q, m);
  }

  lemma {:induction false} CountAbsentSuffix(xs: seq<string>, m: nat, depts: seq<Department>)
    requires m <= |xs|
    requires forall j :: 0 <= j < m ==> HasPath(depts, xs[j])
    ensures CountAbsent(xs, depts) == CountAbsent(xs[m..], depts)
    ensures CountAbsent(xs, depts) <= |xs| - m
    decreases |xs|
  {
    if |xs| == m {
      CountAbsentNone(xs, depts);
      assert xs[m..] == [];
    } else {
      var init := xs[..|xs| - 1];
      CountAbsentSuffix(init, m, depts);
      assert xs[m..][..|xs[m..]| - 1] == init[m..];
    }
  }

  /** When every level of p is stored, so is every level q shares with p. */
  lemma SharedLevelsStored(depts: seq<Department>, p: seq<string>, q: seq<string>, m: nat)
    requires m <= |p| && m <= |q| && p[..m] == q[..m]
    requires forall j :: 0 <= j < |p| ==> HasPath(depts, LevelPaths(p)[j])
    ensures forall j :: 0 <= j < m ==> HasPath(depts, LevelPaths(q)[j])
  {
    var pp, qp := LevelPaths(p), LevelPaths(q);
    LevelPathsShared(p, q, m);
    forall j | 0 <= j < m ensures HasPath(depts, qp[j]) {
      assert qp[j] == qp[..m][j] == pp[..m][j] == pp[j];
    }
  }

  /**
   * Resolving pieces whose first m levels are already stored creates only
   * rows for the later levels that are not stored, so at most |parts| - m.
   */
  lemma ResolveStoredPrefix(depts: seq<Department>, cache: map<string, nat>, created: nat,
                            parts: seq<string>, m: nat)
    requires DeptsValid(depts) && CacheAgrees(cache, depts) && Segments(parts) && m <= |parts|
    requires forall j :: 0 <= j < m ==> HasPath(depts, LevelPaths(parts)[j])
    ensures var w := Resolve(depts, cache, created, parts);
      && w.created - created == CountAbsent(LevelPaths(parts)[m..], depts)
      && w.created - created <= |parts| - m
  {
    CountAbsentSuffix(LevelPaths(parts), m, depts);
    ResolveCount(depts, cache, created, parts);
  }

  /**
   * After resolving one department string, resolving another that shares its
   * first m pieces creates only rows for the levels past the shared prefix
   * that are not stored yet, so at most |q| - m.
   */
  lemma ResolveSharedPrefix(depts: seq<Department>, cache: map<string, nat>, created: nat,
                            p: seq<string>, q: seq<string>, m: nat)
    requires DeptsValid(depts) && CacheAgrees(cache, depts) && Segments(p) && Segments(q)
    requires m <= |p| && m <= |q| && p[..m] == q[..m]
    ensures var w := Resolve(depts, cache, created, p);
      var w2 := Resolve(w.depts, w.cache, w.created, q);
      && w2.created - w.created == CountAbsent(LevelPaths(q)[m..], w.depts)
      && w2.created - w.created <= |q| - m
  {
    var w := Resolve(depts, cache, created, p);
    ResolveStored(depts, cache, created, p);
    SharedLevelsStored(w.depts, p, q, m);
    ResolveStoredPrefix(w.depts, w.cache, w.created, q, m);
  }
}
