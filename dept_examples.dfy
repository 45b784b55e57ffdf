/**
 * Worked examples of department resolution on the cells
 * "본사 경영지원본부 인사팀" and "본사 경영지원본부 재무팀": the first, on an
 * empty table, creates the three levels with depths 0, 1, 2, each one the
 * parent of the next; the second, right after, reuses the first two levels
 * and creates only its own leaf. Two more examples: a cell whose words are
 * separated by a tab and by two spaces splits like one with single spaces,
 * and a piece that holds "/" leaves a department two levels below a root
 * that is its direct parent.
 */
module DeptExamples {
  import opened Text
  import opened Records
  import opened DeptResolve
  import opened ImportActions

  const HQ := "본사"
  const SUPPORT := "경영지원본부"
  const HR := "인사팀"
  const FINANCE := "재무팀"

  /** The three departments the first cell creates. */
  const ROOT := Department(1, HQ, HQ, 0, None)
  const MIDDLE := Department(2, SUPPORT, "본사/경영지원본부", 1, Some(1))
  const LEAF := Department(3, HR, "본사/경영지원본부/인사팀", 2, Some(2))

  /** The walk after the first one, two and three levels of the cell, from an empty table. */
  const W1 := Walk([ROOT], map[ROOT.path := 1], ROOT.path, Some(1), 1)
  const W2 := Walk([ROOT, MIDDLE], map[ROOT.path := 1, MIDDLE.path := 2], MIDDLE.path, Some(2), 2)
  const W3 := Walk([ROOT, MIDDLE, LEAF], map[ROOT.path := 1, MIDDLE.path := 2, LEAF.path := 3], LEAF.path, Some(3), 3)

  /** A level whose path is neither cached nor stored creates its department. */
  lemma StepCreates(w: Walk, part: string, depth: nat)
    requires JoinPath(w.path, part) !in w.cache
    requires forall k :: 0 <= k < |w.depts| ==> w.depts[k].path != JoinPath(w.path, part)
    ensures Step(w, part, depth) == Created(w, part, depth)
  {
  }

  /** Each level of the first cell creates its department under the previous one. */
  lemma FirstLevel()
    ensures Step(Walk([], map[], "", None, 0), HQ, 0) == W1
  {
    StepCreates(Walk([], map[], "", None, 0), HQ, 0);
  }

  lemma SecondLevel()
    ensures Step(W1, SUPPORT, 1) == W2
  {
    assert |ROOT.path| == 2 && |MIDDLE.path| == 9;
    assert JoinPath(W1.path, SUPPORT) == MIDDLE.path;
    StepCreates(W1, SUPPORT, 1);
  }

  lemma ThirdLevel()
    ensures Step(W2, HR, 2) == W3
  {
    assert |ROOT.path| == 2 && |MIDDLE.path| == 9 && |LEAF.path| == 13;
    assert JoinPath(W2.path, HR) == LEAF.path;
    StepCreates(W2, HR, 2);
  }

  /** The first cell's pieces, resolved against an empty table. */
  lemma HierarchyExample()
    ensures Resolve([], map[], 0, [HQ, SUPPORT, HR]) == W3
  {
    var parts := [HQ, SUPPORT, HR];
    FirstLevel();
    SecondLevel();
    ThirdLevel();
    assert WalkFrom(W2, parts, 2) == WalkFrom(W3, parts, 3) == W3;
    assert WalkFrom(W1, parts, 1) == WalkFrom(W2, parts, 2);
    assert WalkFrom(Walk([], map[], "", None, 0), parts, 0) == WalkFrom(W1, parts, 1);
  }

  /** The leaf the second cell creates, under the same parent as `LEAF`. */
  const SIBLING := Department(4, FINANCE, "본사/경영지원본부/재무팀", 2, Some(2))

  /** The second cell's first two levels are cache hits. */
  lemma SiblingLevels()
    ensures Step(Walk(W3.depts, W3.cache, "", None, 3), HQ, 0) == Walk(W3.depts, W3.cache, HQ, Some(1), 3)
    ensures Step(Walk(W3.depts, W3.cache, HQ, Some(1), 3), SUPPORT, 1) == Walk(W3.depts, W3.cache, MIDDLE.path, Some(2), 3)
  {
    assert JoinPath(HQ, SUPPORT) == MIDDLE.path;
  }

  /** Its third level is new and is created. */
  lemma SiblingLeaf()
    ensures Step(Walk(W3.depts, W3.cache, MIDDLE.path, Some(2), 3), FINANCE, 2)
         == Walk(W3.depts + [SIBLING], W3.cache[SIBLING.path := 4], SIBLING.path, Some(4), 4)
  {
    assert |ROOT.path| == 2 && |MIDDLE.path| == 9 && |LEAF.path| == 13 && |SIBLING.path| == 13;
    assert JoinPath(MIDDLE.path, FINANCE) == SIBLING.path;
    assert LEAF.path[10] != SIBLING.path[10];
    StepCreates(Walk(W3.depts, W3.cache, MIDDLE.path, Some(2), 3), FINANCE, 2);
  }

  /** The second cell's pieces, resolved with the table and cache the first one left. */
  lemma ReuseExample()
    ensures var w := Resolve(W3.depts, W3.cache, 3, [HQ, SUPPORT, FINANCE]);
      && w.depts == W3.depts + [SIBLING]
      && w.created == 4 && w.parent == Some(4)
  {
    var parts := [HQ, SUPPORT, FINANCE];
    var r0 := Walk(W3.depts, W3.cache, "", None, 3);
    var r1 := Walk(W3.depts, W3.cache, HQ, Some(1), 3);
    var r2 := Walk(W3.depts, W3.cache, MIDDLE.path, Some(2), 3);
    var r3 := Walk(W3.depts + [SIBLING], W3.cache[SIBLING.path := 4], SIBLING.path, Some(4), 4);
    SiblingLevels();
    SiblingLeaf();
    assert WalkFrom(r2, parts, 2) == WalkFrom(r3, parts, 3) == r3;
    assert WalkFrom(r1, parts, 1) == WalkFrom(r2, parts, 2);
    assert WalkFrom(r0, parts, 0) == WalkFrom(r1, parts, 1);
  }

  /** Text with no white space at either end is its own trim. */
  lemma TrimKeeps(s: string)
    requires s != [] && !IsSpace(s[0]) && !IsSpace(s[|s| - 1])
    ensures Trim(s) == s
  {
    assert TrimStart(s) == s;
  }

  /** Two words joined by a run of white space split into those words. */
  lemma TwoWords(b: string, v: string, c: string)
    requires c != "" && NoSpace(b) && NoSpace(c) && v != [] && NonSpace(v) == ""
    ensures SplitWs(b + v + c) == [b, c]
  {
    SplitWsWord(c);
    SplitWsSpace(b, v, c);
  }

  /** Three words separated by runs of white space split into those words. */
  lemma ThreeWords(a: string, u: string, b: string, v: string, c: string)
    requires b != "" && c != "" && NoSpace(a) && NoSpace(b) && NoSpace(c)
    requires u != [] && NonSpace(u) == "" && v != [] && NonSpace(v) == ""
    ensures SplitWs(a + u + (b + v + c)) == [a, b, c]
  {
    TwoWords(b, v, c);
    assert (b + v + c)[0] == b[0];
    SplitWsSpace(a, u, b + v + c);
  }

  /** A cell of three words separated by runs of white space is split into those words. */
  lemma ThreeWordCell(a: string, u: string, b: string, v: string, c: string)
    requires a != "" && b != "" && c != "" && NoSpace(a) && NoSpace(b) && NoSpace(c)
    requires u != [] && NonSpace(u) == "" && v != [] && NonSpace(v) == ""
    ensures DeptParts(a + u + b + v + c) == [a, b, c]
  {
    var s := a + u + (b + v + c);
    assert a + u + b + v + c == s;
    assert s[0] == a[0] && s[|s| - 1] == c[|c| - 1];
    TrimKeeps(s);
    ThreeWords(a, u, b, v, c);
  }

  /** Tabs and repeated spaces between the words split the same way as single spaces. */
  lemma MixedSpacingCell()
    ensures DeptParts(HQ + "\t" + SUPPORT + "  " + HR) == [HQ, SUPPORT, HR]
  {
    assert NonSpace("\t") == "" && NonSpace("  ") == "";
    ThreeWordCell(HQ, "\t", SUPPORT, "  ", HR);
  }

  /** The first cell, imported into an empty table, creates the three levels. */
  lemma HierarchyCellExample()
    ensures DeptWalk([], map[], 0, "본사 경영지원본부 인사팀") == W3
  {
    assert "본사 경영지원본부 인사팀" == HQ + " " + SUPPORT + " " + HR;
    assert NonSpace(" ") == "";
    ThreeWordCell(HQ, " ", SUPPORT, " ", HR);
    HierarchyExample();
  }

  /** The second cell, imported next, creates only its leaf. */
  lemma ReuseCellExample()
    ensures var w := DeptWalk(W3.depts, W3.cache, 3, "본사 경영지원본부 재무팀");
      && w.depts == W3.depts + [SIBLING]
      && w.created == 4 && w.parent == Some(4)
  {
    assert "본사 경영지원본부 재무팀" == HQ + " " + SUPPORT + " " + FINANCE;
    assert NonSpace(" ") == "";
    ThreeWordCell(HQ, " ", SUPPORT, " ", FINANCE);
    ReuseExample();
  }

  // A piece that holds "/" breaks "depth = number of ancestors": the cell
  // "A/B" makes a root whose path is "A/B", and a later cell "A B C" finds
  // that root as its second level, so its third level sits at depth 2 under
  // a parent at depth 0.

  /** The root the cell "A/B" creates, and the two rows the cell "A B C" adds after it. */
  const SLASHED := Department(1, "A/B", "A/B", 0, None)
  const LONE := Department(2, "A", "A", 0, None)
  const UNDER := Department(3, "C", "A/B/C", 2, Some(1))

  /** The walk after "A/B", then after each level of "A B C" with the cache the first cell left. */
  const S1 := Walk([SLASHED], map["A/B" := 1], "A/B", Some(1), 1)
  const T1 := Walk([SLASHED, LONE], map["A/B" := 1, "A" := 2], "A", Some(2), 2)
  const T2 := Walk([SLASHED, LONE], map["A/B" := 1, "A" := 2], "A/B", Some(1), 2)
  const T3 := Walk([SLASHED, LONE, UNDER], map["A/B" := 1, "A" := 2, "A/B/C" := 3], "A/B/C", Some(3), 3)

  lemma SlashedRoot()
    ensures Step(Walk([], map[], "", None, 0), "A/B", 0) == S1
  {
    StepCreates(Walk([], map[], "", None, 0), "A/B", 0);
  }

  lemma LoneLevel()
    ensures Step(Walk(S1.depts, S1.cache, "", None, 1), "A", 0) == T1
  {
    assert "A" != "A/B";
    StepCreates(Walk(S1.depts, S1.cache, "", None, 1), "A", 0);
  }

  lemma SlashedHit()
    ensures Step(T1, "B", 1) == T2
  {
    assert JoinPath("A", "B") == "A/B";
  }

  lemma UnderLevel()
    ensures Step(T2, "C", 2) == T3
  {
    assert JoinPath("A/B", "C") == "A/B/C";
    assert "A/B/C" != "A/B" && "A/B/C" != "A";
    StepCreates(T2, "C", 2);
  }

  lemma SlashedParts()
    ensures DeptParts("A/B") == ["A/B"]
  {
    assert NoSpace("A/B");
    TrimKeeps("A/B");
    SplitWsWord("A/B");
  }

  lemma UnderParts()
    ensures DeptParts("A B C") == ["A", "B", "C"]
  {
    assert NoSpace("A") && NoSpace("B") && NoSpace("C") && NonSpace(" ") == "";
    ThreeWordCell("A", " ", "B", " ", "C");
    assert "A B C" == "A" + " " + "B" + " " + "C";
  }

  /** The cell "A/B" is one piece, and on an empty table it creates one root. */
  lemma SlashedCell()
    ensures DeptWalk([], map[], 0, "A/B") == S1
  {
    SlashedParts();
    SlashedRoot();
    assert WalkFrom(S1, ["A/B"], 1) == S1;
    assert WalkFrom(Walk([], map[], "", None, 0), ["A/B"], 0) == S1;
  }

  /** The cell "A B C" after it: its second level is that root, at depth 0, and its third is created at depth 2. */
  lemma UnderSlashedCell()
    ensures DeptWalk(S1.depts, S1.cache, S1.created, "A B C") == T3
  {
    UnderParts();
    var parts := ["A", "B", "C"];
    LoneLevel();
    SlashedHit();
    UnderLevel();
    assert WalkFrom(T2, parts, 2) == WalkFrom(T3, parts, 3) == T3;
    assert WalkFrom(T1, parts, 1) == WalkFrom(T2, parts, 2);
    assert WalkFrom(Walk(S1.depts, S1.cache, "", None, 1), parts, 0) == WalkFrom(T1, parts, 1);
  }

  /**
   * The two cells imported one after the other in one batch: the department
   * for "C" has depth 2, but its parent is the root "A/B" at depth 0, so its
   * depth is not one more than its parent's.
   */
  lemma SlashedPieceExample()
    ensures var w := DeptWalk(DeptWalk([], map[], 0, "A/B").depts, DeptWalk([], map[], 0, "A/B").cache,
                              DeptWalk([], map[], 0, "A/B").created, "A B C");
      && |w.depts| == 3
      && w.depts[2].path == "A/B/C" && w.depts[2].parentId == Some(1)
      && w.depts[2].depth == 2 && w.depts[0].depth == 0
      && w.depts[2].depth != w.depts[0].depth + 1
  {
    SlashedCell();
    UnderSlashedCell();
  }
}
