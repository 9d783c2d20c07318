/** When the program's distance of two tables depends on their order. */
module TableSymmetry {
  import opened TreeEdit
  import opened Postorder
  import opened KeyrootTables
  import opened KeyrootCorrect
  import opened FinalTables
  import opened BelowRoot
  import opened TableScore
  import opened TableWalks
  import opened TopTables
  import opened TableSeparation

  // ----- a longer table against one cell -----

  /** The first table has two rows or more, the second one row of one cell, and that row
      is not the first table's first row. */
  ghost predicate LongAgainstCell(r: Run) {
    && Compared(r) && |r.r1| >= 2 && |r.r2| == 1 && r.K2() == 1 && r.r1[0] != r.r2[0]
  }

  lemma LongParts(r: Run)
    requires LongAgainstCell(r)
    ensures Scored(r) && Running(r) && Framed(r) && 1 <= r.H() && 1 <= r.W()
    ensures TableWalk(r.w1, r.v1, r.r1) && TableWalk(r.w2, r.v2, r.r2) && Walks(r.w1, r.w2)
    ensures |r.w1.first| == |r.w1.nodes| && |r.w2.first| == |r.w2.nodes|
    ensures |r.r1| >= 2 && |r.r2| == 1 && r.K2() == 1 && r.r1[0] != r.r2[0]
  {
    hide Scored;
    ScoredParts(r);
    hide TableWalk, Running;
    RunWalks(r);
  }

  lemma CellTable(r: Run)
    requires LongAgainstCell(r)
    ensures r.N2() == 3 && r.W() == 2 && Framed(r) && 1 < r.H()
    ensures |r.w1.first| == |r.w1.nodes| && |r.w2.first| == |r.w2.nodes|
    ensures Ref(r.w2, 1, 1) == 2 && Ref(r.w2, 1, 2) == 0
    ensures !OnEdge(r.w2, 1, 1) && OnEdge(r.w2, 1, 2)
    ensures NodeAt(r.w2.nodes, 2) == r.r2[0] && Size([r.r2[0]]) == 2
  {
    hide LongAgainstCell, Running, Framed, TableWalk, Start, Size, Ref, OnEdge;
    LongParts(r);
    FirstRowWidth(r.w2, r.v2, r.r2);
    FirstPlace(r.w2, r.v2, r.r2);
    RowPositions(r.w1, r.v1, r.r1, 0);
    RowPositions(r.w2, r.v2, r.r2, 0);
    StartStep(r.r2, 0);
    EdgeOfRange(r.w2, 1);
  }

  lemma EdgeOfRange(w: Walk, k: nat)
    requires |w.first| == |w.nodes| && 1 <= |w.nodes| - k
    ensures OnEdge(w, k, |w.nodes| - k) && Ref(w, k, |w.nodes| - k) == 0
  {
  }

  /** The distance of two nodes below the roots is at least the difference of their sizes. */
  lemma NodeSizes(r: Run, x: int, y: int)
    requires Running(r) && Framed(r) && 1 <= x < r.N1() && 1 <= y < r.N2()
    ensures r.td[x][y] >= Size([NodeAt(r.w1.nodes, x)]) as real - Size([NodeAt(r.w2.nodes, y)]) as real
    ensures r.td[x][y] >= Size([NodeAt(r.w2.nodes, y)]) as real - Size([NodeAt(r.w1.nodes, x)]) as real
  {
    BelowIsDist(r, x, y);
    hide TableWalk, Finished, Solves, Running, Framed, Size, Dist;
    DistBounds([NodeAt(r.w1.nodes, x)], [NodeAt(r.w2.nodes, y)]);
  }

  lemma FirstColumnPositive(r: Run, a: int)
    requires LongAgainstCell(r) && 1 <= a < r.H()
    ensures r.W() == 2 && r.fd[a][1] > 0.0
  {
    hide LongAgainstCell, TableWalk, Running, Pos, Start, Size;
    LongParts(r);
    CellTable(r);
    CellEquation(r, a, 1);
    Geometry(r.w1, r.v1, r.r1, a);
    FirstPlace(r.w1, r.v1, r.r1);
    RowPositions(r.w1, r.v1, r.r1, 0);
    if r.K1() >= 1 && a == 1 {
      ZeroIsEqual(r, r.K1() + 1, 2);
    } else {
      var q := Ref(r.w1, r.K1(), a);
      SeenEarlier(r, a, 1, q, 2);
      if q > 0 {
        RootColumnPositive(r, q);
      }
    }
  }

  /** The last row's place, its cell count, and the place before its cells. */
  lemma LastRow(r: Run)
    requires LongAgainstCell(r)
    ensures var i := |r.r1| - 1;
      && Pos(r.r1, i) == r.H() - 1 && 1 <= Pos(r.r1, i - 1)
      && Pos(r.r1, i - 1) + |r.r1[i].children| + 1 == r.H() - 1
      && NodeAt(r.w1.nodes, r.N1() - 1) == r.r1[i] && Size([r.r1[i]]) == |r.r1[i].children| + 1
      && Ref(r.w1, r.K1(), r.H() - 1) == Pos(r.r1, i - 1) && !OnEdge(r.w1, r.K1(), r.H() - 1)
      && |r.w1.first| == |r.w1.nodes|
  {
    hide LongAgainstCell, Running, Framed, TableWalk, Start, Size, Ref, OnEdge;
    LongParts(r);
    var i := |r.r1| - 1;
    RowPositions(r.w1, r.v1, r.r1, i - 1);
    RowPositions(r.w1, r.v1, r.r1, i);
    StartStep(r.r1, i);
  }

  function Before(r: Run): int {
    if |r.r1| >= 2 then Pos(r.r1, |r.r1| - 2) else 0
  }

  function LastWidth(r: Run): nat {
    if |r.r1| >= 2 then |r.r1[|r.r1| - 1].children| else 0
  }

  predicate AtLeastOneOf(v: real, x: real, y: real, z: real) {
    v >= x || v >= y || v >= z
  }

  lemma LeafSize(t: Tree)
    requires t.children == []
    ensures Size([t]) == 1
  {
    SizeOfTree(t);
  }

  lemma LastCellNode(r: Run, s: nat)
    requires LongAgainstCell(r) && 1 <= s <= LastWidth(r)
    ensures var a := Before(r) + s;
      && 2 <= a < r.H() && |r.w1.first| == |r.w1.nodes|
      && !OnEdge(r.w1, r.K1(), a) && Ref(r.w1, r.K1(), a) == a - 1
      && Size([NodeAt(r.w1.nodes, r.K1() + a)]) == 1
  {
    var i := |r.r1| - 1;
    CellPlace(r.w1, r.v1, r.r1, i, s);
    assert r.r1[i] in r.r1 && r.r1[i].children[s - 1] in r.r1[i].children;
    LeafSize(r.r1[i].children[s - 1]);
  }

  lemma LastCellStep(r: Run, s: nat)
    requires LongAgainstCell(r) && 1 <= s <= LastWidth(r)
    ensures var a := Before(r) + s;
      && 2 <= a < r.H() && Framed(r) && r.W() == 2
      && AtLeastOneOf(r.fd[a][1], r.fd[a - 1][1] + 1.0, a as real, r.fd[a - 1][2] + 1.0)
      && AtLeastOneOf(r.fd[a][2], r.fd[a - 1][2] + 1.0, r.fd[a][1] + 1.0, a as real)
  {
    hide LongAgainstCell, TableWalk, Running, Seen, Size, Ref, OnEdge, Before, LastWidth;
    LongParts(r);
    CellTable(r);
    LastCellNode(r, s);
    var a := Before(r) + s;
    CellEquation(r, a, 1);
    CellEquation(r, a, 2);
    NodeSizes(r, r.K1() + a, 2);
    RootPairs(r, r.K1() + a, 3);
    SeenEarlier(r, a, 1, a - 1, 2);
    SeenEarlier(r, a, 2, a - 1, 0);
  }

  /** Along the last row's cells both columns grow by more than the cells deleted. */
  lemma {:induction false} LastCellsCost(r: Run, s: nat)
    requires LongAgainstCell(r) && s <= LastWidth(r)
    ensures Framed(r) && r.W() == 2 && 1 <= Before(r) && Before(r) + s < r.H()
    ensures r.fd[Before(r) + s][1] > s as real && r.fd[Before(r) + s][2] > s as real
  {
    hide LongAgainstCell, Running, Framed, Before, LastWidth;
    LongParts(r);
    CellTable(r);
    LastPlaceBefore(r);
    if s == 0 {
      FirstColumnPositive(r, Before(r));
      RootColumnPositive(r, Before(r));
    } else {
      LastCellsCost(r, s - 1);
      LastCellStep(r, s);
    }
  }

  // ----- the last row against the other root -----

  /** A table that holds the pair of the last row and the other root. */
  ghost predicate SideTable(r: Run, job: Job, fd: Table) {
    && LongAgainstCell(r) && r.N2() == 3 && Spans(r.w1, r.w2, r.td, r.N1() - 1, 3, job, fd)
  }

  /** Node s of the last row, its cells first: its number, its index, its size. */
  lemma LastRowNode(r: Run, s: nat)
    requires LongAgainstCell(r) && 1 <= s <= LastWidth(r) + 1
    ensures |r.w1.first| == r.N1() && LastWidth(r) + 1 < r.N1() - r.K1()
    ensures var x := r.N1() - 2 - LastWidth(r) + s;
      && r.K1() + 2 <= r.N1() - 1 - LastWidth(r) <= x < r.N1()
      && IndexAt(r.w1.first, x) == (if s <= LastWidth(r) then x else r.N1() - 1 - LastWidth(r))
      && Size([NodeAt(r.w1.nodes, x)]) == (if s <= LastWidth(r) then 1 else s)
      && NodeAt(r.w1.nodes, x).tag != TreeEdit.Table
  {
    hide LongAgainstCell, Running, Framed, TableWalk, Size, Ref, OnEdge, CellAt;
    var i := |r.r1| - 1;
    LongParts(r);
    LastRow(r);
    FirstRowWidth(r.w1, r.v1, r.r1);
    RowOf(r.w1, r.v1, r.r1, i);
    StartsGrow(r.r1, 1, i);
    if s <= LastWidth(r) {
      LastCellNode(r, s);
      CellIndex(r.w1, r.r1, i, s);
    }
    NodeTag(r.w1, r.v1, r.r1, Start(r.r1, i) + s, i);
  }

  lemma CellIndex(w: Walk, rows: Forest, i: nat, s: nat)
    requires |w.nodes| == |w.first| && i < |rows| && RowAt(w, rows, i) && 1 <= s <= |rows[i].children|
    ensures 1 <= Start(rows, i) + s <= |w.first| && IndexAt(w.first, Start(rows, i) + s) == Start(rows, i) + s
  {
    hide Start;
    assert CellAt(w, rows[i], Start(rows, i), Start(rows, i) + s);
  }

  lemma SideJob(r: Run, job: Job, fd: Table)
    requires SideTable(r, job, fd)
    ensures job.Valid() && job.Fits(State(fd, r.td)) && job.w1 == r.w1 && job.w2 == r.w2
    ensures job.Left1() == r.N1() - 1 - LastWidth(r) && job.Left2() == 2 && job.Width() == 2 && job.j == 3
    ensures LastWidth(r) + 1 <= job.Height()
    ensures Back(job.w2, 3, 2) == 2 && Back(job.w2, 3, 3) == 0
    ensures !OnEdge2(job, 2) && OnEdge2(job, 3)
    ensures forall a :: 0 <= a <= job.Height() ==> fd[a][0] == a as real
    ensures fd[0][1] == 1.0 && fd[0][2] == 2.0
    ensures forall a, b :: 0 <= a <= job.Height() && 0 <= b <= 2 ==> fd[a][b] >= 0.0
    ensures forall a, b :: 1 <= a <= job.Height() && 1 <= b <= 2 ==> Obeys(job, r.td, fd, a, b)
  {
    hide LongAgainstCell, TableWalk, Running, Framed, Obeys, Size, LastWidth;
    LongParts(r);
    CellTable(r);
    LastRowNode(r, LastWidth(r) + 1);
    Geometry(r.w2, r.v2, r.r2, 1);
    Geometry(r.w2, r.v2, r.r2, 2);
  }

  lemma SideParts(r: Run, job: Job, fd: Table)
    requires SideTable(r, job, fd)
    ensures LongAgainstCell(r) && r.N2() == 3 && Spans(r.w1, r.w2, r.td, r.N1() - 1, 3, job, fd)
  {
    hide LongAgainstCell, Spans;
  }

  lemma SideStep(r: Run, job: Job, fd: Table, s: nat)
    requires SideTable(r, job, fd) && 1 <= s <= LastWidth(r)
    ensures s < |fd| && |fd[s]| == 3 && |fd[s - 1]| == 3
    ensures AtLeastOneOf(fd[s][1], fd[s - 1][1] + 1.0, s as real, fd[s - 1][2] + 1.0)
    ensures AtLeastOneOf(fd[s][2], fd[s - 1][2] + 1.0, fd[s][1] + 1.0, s as real)
  {
    hide TableWalk, Running, Framed, Size, SideTable, LongAgainstCell, Rename, LastWidth;
    SideParts(r, job, fd);
    LongParts(r);
    CellTable(r);
    SideJob(r, job, fd);
    LastRowNode(r, s);
    var x := job.Left1() + s - 1;
    NodeSizes(r, x, 2);
    RootPairs(r, x, 3);
    RootTags(r, x);
    assert Obeys(job, r.td, fd, s, 1) && Obeys(job, r.td, fd, s, 2);
    assert Back(job.w1, job.i, x) == s - 1;
  }

  lemma {:induction false} SideCells(r: Run, job: Job, fd: Table, s: nat)
    requires SideTable(r, job, fd) && s <= LastWidth(r)
    ensures s < |fd| && |fd[s]| == 3 && fd[s][1] >= s as real && fd[s][2] >= s as real
    decreases s
  {
    SideJob(r, job, fd);
    if s > 0 {
      SideCells(r, job, fd, s - 1);
      SideStep(r, job, fd, s);
    }
  }

  lemma SideLastStep(r: Run, job: Job, fd: Table)
    requires SideTable(r, job, fd)
    ensures var s := LastWidth(r) + 1;
      && s < |fd| && |fd[s]| == 3 && |fd[s - 1]| == 3
      && AtLeastOneOf(fd[s][1], fd[s - 1][1] + 1.0, s as real, s as real)
      && AtLeastOneOf(fd[s][2], fd[s - 1][2] + 1.0, fd[s][1] + 1.0, fd[s - 1][1] + 1.0)
  {
    hide TableWalk, Running, Framed, Size, SideTable, LongAgainstCell, Rename, LastWidth;
    var s := LastWidth(r) + 1;
    SideParts(r, job, fd);
    LongParts(r);
    CellTable(r);
    SideJob(r, job, fd);
    LastRowNode(r, s);
    var x := job.Left1() + s - 1;
    NodeSizes(r, x, 2);
    RootTags(r, x);
    assert Obeys(job, r.td, fd, s, 1) && Obeys(job, r.td, fd, s, 2);
    assert Back(job.w1, job.i, x) == 0;
    MatchedEarlier(job, r.td, fd, s, 1, 0, 2);
  }

  lemma SideLast(r: Run, job: Job, fd: Table)
    requires SideTable(r, job, fd)
    ensures Framed(r) && r.td[r.N1() - 1][3] >= LastWidth(r) as real + 1.0
  {
    hide TableWalk, Running, Framed, Size, SideTable, LongAgainstCell, Obeys, LastWidth, Spans;
    SideParts(r, job, fd);
    LongParts(r);
    CellTable(r);
    SideJob(r, job, fd);
    SideCells(r, job, fd, LastWidth(r));
    SideLastStep(r, job, fd);
    SpansValue(job, r.td, fd, r.N1() - 1, 3);
  }

  /** The last row against the other root costs at least the whole row. */
  lemma LastRowAgainstRoot(r: Run)
    requires LongAgainstCell(r)
    ensures Framed(r) && r.N2() == 3 && r.td[r.N1() - 1][3] >= LastWidth(r) as real + 1.0
  {
    hide LongAgainstCell, TableWalk, Framed, Finished, Solves, Spans, LastWidth;
    LongParts(r);
    CellTable(r);
    var job, fd := TableOf(r.w1, r.w2, r.td, r.N1() - 1, 3);
    SideLast(r, job, fd);
  }

  // ----- the root against the other row -----

  /** A table that holds the pair of the root and the other table's row. */
  ghost predicate FootTable(r: Run, job: Job, fd: Table) {
    && LongAgainstCell(r) && r.N2() == 3 && Spans(r.w1, r.w2, r.td, r.N1(), 2, job, fd)
  }

  lemma CellIndices(r: Run)
    requires LongAgainstCell(r)
    ensures r.N2() == 3 == |r.w2.first| && IndexAt(r.w2.first, 1) == 1 && IndexAt(r.w2.first, 2) == 1
    ensures Size([NodeAt(r.w2.nodes, 1)]) == 1 && Size([NodeAt(r.w2.nodes, 2)]) == 2
    ensures NodeAt(r.w2.nodes, 1).tag != TreeEdit.Table && NodeAt(r.w2.nodes, 2).tag != TreeEdit.Table
  {
    CellTable(r);
    FirstRowWidth(r.w2, r.v2, r.r2);
    assert RowAt(r.w2, r.r2, 0);
    assert CellAt(r.w2, r.r2[0], 0, 1);
    assert r.r2[0] in r.r2 && r.r2[0].children[0] in r.r2[0].children;
    LeafSize(r.r2[0].children[0]);
    NodeTag(r.w2, r.v2, r.r2, 1, 0);
    NodeTag(r.w2, r.v2, r.r2, 2, 0);
  }

  lemma FootParts(r: Run, job: Job, fd: Table)
    requires FootTable(r, job, fd)
    ensures LongAgainstCell(r) && r.N2() == 3 && Spans(r.w1, r.w2, r.td, r.N1(), 2, job, fd)
  {
    hide LongAgainstCell, Spans;
  }

  lemma FootJob(r: Run, job: Job, fd: Table)
    requires FootTable(r, job, fd)
    ensures job.Valid() && job.Fits(State(fd, r.td)) && job.w1 == r.w1 && job.w2 == r.w2
    ensures job.i == r.N1() && job.Left1() == r.K1() + 1 && job.Height() == r.H()
    ensures job.Left2() == 1 && job.Width() >= 2
  {
    hide FootTable, LongAgainstCell, TableWalk, Running, Framed, Solves, Size;
    FootParts(r, job, fd);
    LongParts(r);
    CellIndices(r);
    RootRow(r);
    SpansValue(job, r.td, fd, r.N1(), 2);
  }

  lemma FootCell(r: Run, job: Job, fd: Table, a: int, b: int)
    requires FootTable(r, job, fd) && 1 <= a <= r.H() && 1 <= b <= 2
    ensures job.Valid() && job.Fits(State(fd, r.td)) && a <= job.Height() && b <= job.Width()
    ensures Obeys(job, r.td, fd, a, b) && Back(job.w2, job.j, b) == 0 && OnEdge2(job, b)
    ensures fd[a][0] == a as real && fd[a - 1][0] == a as real - 1.0 && fd[a][b] >= 0.0
  {
    hide FootTable, LongAgainstCell, TableWalk, Running, Framed, Obeys, Size;
    FootParts(r, job, fd);
    LongParts(r);
    FootJob(r, job, fd);
    CellIndices(r);
    SpansValue(job, r.td, fd, r.N1(), 2);
  }

  lemma LastPlaceBefore(r: Run)
    requires LongAgainstCell(r)
    ensures TableWalk(r.w1, r.v1, r.r1) && Framed(r) && |r.w1.first| == |r.w1.nodes|
    ensures 1 <= Before(r) && Before(r) + LastWidth(r) + 1 == r.H() - 1
  {
    CellTable(r);
    LastRow(r);
  }

  /** In the root's range the last row's nodes refer to the place before them, or before the row. */
  lemma FootBack(r: Run, s: nat)
    requires LongAgainstCell(r) && 1 <= s <= LastWidth(r) + 1
    ensures Framed(r) && |r.w1.first| == |r.w1.nodes|
    ensures var a := Before(r) + s;
      && 2 <= a < r.H() && a == r.H() - 2 - LastWidth(r) + s
      && IndexAt(r.w1.first, r.K1() + a) != r.K1() + 1
      && Back(r.w1, r.N1(), r.K1() + a) == (if s <= LastWidth(r) then a - 1 else Before(r))
      && Size([NodeAt(r.w1.nodes, r.K1() + a)]) == (if s <= LastWidth(r) then 1 else s)
  {
    hide Size, TableWalk, LongAgainstCell, Before, LastWidth, Framed, Running, FirstWidth;
    LongParts(r);
    LastPlaceBefore(r);
    LastRowNode(r, s);
    Geometry(r.w1, r.v1, r.r1, Before(r) + s);
  }

  lemma FootPositive(r: Run, job: Job, fd: Table, a: int, b: int)
    requires FootTable(r, job, fd) && 0 <= a <= r.H() && 0 <= b <= 2
    ensures a < |fd| && b < |fd[a]| && fd[a][b] >= 0.0 && fd[a][0] == a as real
  {
    hide FootTable, LongAgainstCell, Obeys;
    FootParts(r, job, fd);
    FootJob(r, job, fd);
    SpansValue(job, r.td, fd, r.N1(), 2);
  }

  /** Row or cell, matching a node of the last row saves at most the column's nodes. */
  lemma FootPairCost(r: Run, s: nat, b: nat)
    requires LongAgainstCell(r) && 1 <= s <= LastWidth(r) + 1 && 1 <= b <= 2
    ensures var q := if s <= LastWidth(r) then Before(r) + s - 1 else Before(r);
            q as real + Get(r.td, r.K1() + Before(r) + s, b) >= s as real - b as real
  {
    hide *;
    FootSizes(r, s, b);
  }

  lemma FootSizes(r: Run, s: nat, b: nat)
    requires LongAgainstCell(r) && 1 <= s <= LastWidth(r) + 1 && 1 <= b <= 2
    ensures 1 <= Before(r)
    ensures Get(r.td, r.K1() + Before(r) + s, b) >= if s <= LastWidth(r) then 1.0 - b as real else s as real - b as real
  {
    hide Running, LongAgainstCell, TableWalk, Size, Before, LastWidth;
    LongParts(r);
    LastPlaceBefore(r);
    CellIndices(r);
    FootBack(r, s);
    NodeSizes(r, r.K1() + Before(r) + s, b);
  }

  lemma FootThird(r: Run, job: Job, fd: Table, s: nat, b: nat)
    requires FootTable(r, job, fd) && 1 <= s <= LastWidth(r) + 1 && 1 <= b <= 2
    ensures job.Valid() && job.Fits(State(fd, r.td)) && 1 <= Before(r) + s <= job.Height() && b <= job.Width()
    ensures Matched(job, r.td, fd, Before(r) + s, b) >= s as real - b as real
  {
    hide Matched, FootTable, LongAgainstCell, Running, Framed, Before, LastWidth;
    var a := Before(r) + s;
    FootParts(r, job, fd);
    FootJob(r, job, fd);
    FootBack(r, s);
    FootCell(r, job, fd, a, b);
    FootPairCost(r, s, b);
    var q := if s <= LastWidth(r) then a - 1 else Before(r);
    LastPlaceBefore(r);
    FootPositive(r, job, fd, q, 0);
    MatchedEarlier(job, r.td, fd, a, b, q, 0);
  }

  /** A cell is at least a whole edit above a neighbour, or its third option. */
  lemma ObeysBound(job: Job, td: Table, fd: Table, a: int, b: int, third: real)
    requires job.Valid() && job.Fits(State(fd, td))
    requires 1 <= a <= job.Height() && 1 <= b <= job.Width() && Obeys(job, td, fd, a, b)
    requires Matched(job, td, fd, a, b) >= third
    ensures AtLeastOneOf(Get(fd, a, b), Get(fd, a - 1, b) + 1.0, Get(fd, a, b - 1) + 1.0, third)
  {
    hide Matched;
  }

  lemma FootRange(r: Run, s: nat)
    requires LongAgainstCell(r) && 1 <= s <= LastWidth(r) + 1
    ensures 1 <= Before(r) + s <= r.H()
  {
    hide LongAgainstCell, Running, Framed, Before, LastWidth;
    LastPlaceBefore(r);
  }

  lemma FootStep(r: Run, job: Job, fd: Table, s: nat, b: nat)
    requires FootTable(r, job, fd) && 1 <= s <= LastWidth(r) + 1 && 1 <= b <= 2
    ensures var a := Before(r) + s;
      AtLeastOneOf(Get(fd, a, b), Get(fd, a - 1, b) + 1.0, Get(fd, a, b - 1) + 1.0, s as real - b as real)
  {
    hide *;
    FootParts(r, job, fd);
    FootBack(r, s);
    FootRange(r, s);
    FootCell(r, job, fd, Before(r) + s, b);
    FootThird(r, job, fd, s, b);
    ObeysBound(job, r.td, fd, Before(r) + s, b, s as real - b as real);
  }

  lemma FootStart(r: Run, job: Job, fd: Table, s: nat, b: nat)
    requires FootTable(r, job, fd) && s <= LastWidth(r) + 1 && b <= 2 && (s == 0 || b == 0)
    ensures Get(fd, Before(r) + s, b) >= s as real - b as real
  {
    hide Running, LongAgainstCell, Framed, FootTable, Before, LastWidth;
    FootParts(r, job, fd);
    LastPlaceBefore(r);
    FootPositive(r, job, fd, Before(r) + s, b);
  }

  lemma {:induction false} FootCells(r: Run, job: Job, fd: Table, s: nat, b: nat)
    requires FootTable(r, job, fd) && s <= LastWidth(r) + 1 && b <= 2
    ensures Get(fd, Before(r) + s, b) >= s as real - b as real
    decreases s, b
  {
    hide FootTable, Get, Before, LastWidth;
    if s == 0 || b == 0 {
      FootStart(r, job, fd, s, b);
    } else {
      FootCells(r, job, fd, s - 1, b);
      FootCells(r, job, fd, s, b - 1);
      FootStep(r, job, fd, s, b);
    }
  }

  lemma RootTag(w: Walk, v: Walk, rows: Forest)
    requires TableWalk(w, v, rows)
    ensures NodeAt(w.nodes, |w.nodes|).tag == TreeEdit.Table
  {
  }

  lemma FootCorner(r: Run, job: Job, fd: Table, b: int)
    requires FootTable(r, job, fd) && 1 <= b <= 2
    ensures job.Valid() && job.Fits(State(fd, r.td)) && job.Height() == r.H() && b <= job.Width()
    ensures Matched(job, r.td, fd, r.H(), b) >= Get(fd, r.H() - 1, b - 1) + 1.0
  {
    hide TableWalk, Running, LongAgainstCell, Framed, Size, FootTable, Obeys, Seen;
    FootParts(r, job, fd);
    LongParts(r);
    FootJob(r, job, fd);
    FootCell(r, job, fd, r.H(), b);
    CellIndices(r);
    RootTag(r.w1, r.v1, r.r1);
    assert OnEdge1(job, r.N1()) && OnEdge2(job, b);
  }

  lemma FootCornerStep(r: Run, job: Job, fd: Table, b: int)
    requires FootTable(r, job, fd) && 1 <= b <= 2
    ensures AtLeastOneOf(Get(fd, r.H(), b), Get(fd, r.H() - 1, b) + 1.0, Get(fd, r.H(), b - 1) + 1.0,
                         Get(fd, r.H() - 1, b - 1) + 1.0)
  {
    assert 1 <= r.H();
    hide Obeys, FootTable, Matched, Get, Running, LongAgainstCell;
    FootCell(r, job, fd, r.H(), b);
    FootCorner(r, job, fd, b);
    ObeysBound(job, r.td, fd, r.H(), b, Get(fd, r.H() - 1, b - 1) + 1.0);
  }

  lemma FootValue(r: Run, job: Job, fd: Table)
    requires FootTable(r, job, fd)
    ensures Get(r.td, r.N1(), 2) == Get(fd, r.H(), 2)
    ensures Before(r) + LastWidth(r) + 1 == r.H() - 1 && 1 <= Before(r)
    ensures Get(fd, r.H() - 1, 0) == r.H() as real - 1.0 && Get(fd, r.H(), 0) == r.H() as real
  {
    hide Running, LongAgainstCell, FootTable, Before, LastWidth, Spans;
    FootParts(r, job, fd);
    LastPlaceBefore(r);
    FootJob(r, job, fd);
    CellIndices(r);
    FootPositive(r, job, fd, r.H(), 2);
    FootPositive(r, job, fd, r.H() - 1, 0);
    SpansValue(job, r.td, fd, r.N1(), 2);
  }

  /** The root against the other table's row costs at least the last row's cells. */
  lemma FootLast(r: Run, job: Job, fd: Table)
    requires FootTable(r, job, fd)
    ensures Get(r.td, r.N1(), 2) >= LastWidth(r) as real
  {
    hide FootTable, Get, Before, LastWidth;
    FootValue(r, job, fd);
    FootCells(r, job, fd, LastWidth(r) + 1, 1);
    FootCells(r, job, fd, LastWidth(r) + 1, 2);
    FootCornerStep(r, job, fd, 1);
    FootCornerStep(r, job, fd, 2);
  }

  lemma RootAgainstRow(r: Run)
    requires LongAgainstCell(r)
    ensures r.N2() == 3 && Get(r.td, r.N1(), 2) >= LastWidth(r) as real
  {
    CellTable(r);
    LastRow(r);
    hide TableWalk, Finished, Solves, Spans;
    var job, fd := TableOf(r.w1, r.w2, r.td, r.N1(), 2);
    FootLast(r, job, fd);
  }

  // ----- the corner of the longer table's run -----

  lemma TopBound(r: Run, a: int, b: int, third: real)
    requires CellHolds(r, a, b) && Third(r, a, b) >= third
    ensures AtLeastOneOf(Get(r.fd, a, b), Get(r.fd, a - 1, b) + 1.0, Get(r.fd, a, b - 1) + 1.0, third)
  {
    hide Third;
  }

  /** The cost of the last row against the one-cell row. */
  function Price(r: Run): real {
    Get(r.td, r.N1() - 1, 2)
  }

  lemma LastRowKinds(r: Run)
    requires LongAgainstCell(r)
    ensures r.r1[|r.r1| - 1].tag == Row && r.r2[0].tag == Row
  {
    assert r.r1[|r.r1| - 1] in r.r1 && r.r2[0] in r.r2;
  }

  lemma PriceIsDist(r: Run)
    requires LongAgainstCell(r)
    ensures Price(r) == Dist([r.r1[|r.r1| - 1]], [r.r2[0]]) <= LastWidth(r) as real + 1.0
    ensures 0.0 <= Price(r)
  {
    hide TableWalk, Running, LongAgainstCell, Dist, Size;
    LongParts(r);
    CellTable(r);
    LastRow(r);
    LastRowKinds(r);
    BelowIsDist(r, r.N1() - 1, 2);
    var t, u := r.r1[|r.r1| - 1], r.r2[0];
    RootsFree(t, u);
    DistBounds([t], [u]);
  }

  lemma LastRowCells(r: Run)
    requires LongAgainstCell(r)
    ensures AtLeastOneOf(Get(r.fd, r.H() - 1, 1), Get(r.fd, r.H() - 2, 1) + 1.0, r.H() as real, Get(r.fd, Before(r), 2) + Price(r))
    ensures AtLeastOneOf(Get(r.fd, r.H() - 1, 2), Get(r.fd, r.H() - 2, 2) + 1.0, Get(r.fd, r.H() - 1, 1) + 1.0,
                         Before(r) as real + LastWidth(r) as real + 1.0)
  {
    var a := r.H() - 1;
    hide LongAgainstCell, TableWalk, Running, Seen, Size, Ref, OnEdge;
    LongParts(r);
    CellTable(r);
    LastRow(r);
    CellEquation(r, a, 1);
    CellEquation(r, a, 2);
    LastRowAgainstRoot(r);
    SeenEarlier(r, a, 1, Before(r), 2);
    SeenEarlier(r, a, 2, Before(r), 0);
    TopBound(r, a, 1, Get(r.fd, Before(r), 2) + Price(r));
    TopBound(r, a, 2, Before(r) as real + LastWidth(r) as real + 1.0);
  }

  lemma CornerCells(r: Run)
    requires LongAgainstCell(r)
    ensures AtLeastOneOf(Get(r.fd, r.H(), 1), Get(r.fd, r.H() - 1, 1) + 1.0, r.H() as real + 1.0, 2.0 + LastWidth(r) as real)
    ensures AtLeastOneOf(Get(r.fd, r.H(), 2), Get(r.fd, r.H() - 1, 2) + 1.0, Get(r.fd, r.H(), 1) + 1.0, Get(r.fd, r.H() - 1, 1))
  {
    var a := r.H();
    hide LongAgainstCell, TableWalk, Running, Seen, Size, Rename, Ref, OnEdge, LastWidth;
    LongParts(r);
    CellTable(r);
    EdgeOfRange(r.w1, r.K1());
    CellEquation(r, a, 1);
    CellEquation(r, a, 2);
    RootAgainstRow(r);
    SeenEarlier(r, a, 1, 0, 2);
    TopBound(r, a, 1, 2.0 + LastWidth(r) as real);
    TopBound(r, a, 2, Get(r.fd, a - 1, 1));
  }

  lemma CostsSeen(r: Run)
    requires LongAgainstCell(r)
    ensures Get(r.fd, Before(r), 2) > 0.0
    ensures Get(r.fd, r.H() - 2, 1) > LastWidth(r) as real && Get(r.fd, r.H() - 2, 2) > LastWidth(r) as real
  {
    hide LongAgainstCell, Before, LastWidth;
    LastPlaceBefore(r);
    LastCellsCost(r, 0);
    LastCellsCost(r, LastWidth(r));
  }

  /** Against the one cell the longer table costs more than its last row alone. */
  lemma CornerCost(r: Run)
    requires LongAgainstCell(r)
    ensures Get(r.fd, r.H(), 2) > Price(r)
  {
    hide LongAgainstCell, TableWalk, Framed, Price, Dist, Before, LastWidth;
    LastPlaceBefore(r);
    PriceIsDist(r);
    CostsSeen(r);
    LastRowCells(r);
    CornerCells(r);
  }

  // ----- the same two tables the other way round -----

  /** The one-cell table first: its row's reference wraps beyond its line. */
  ghost predicate CellAgainstLong(r: Run) {
    Scored(r) && |r.r1| == 1 && r.K1() == 1 && |r.r2| >= 2
  }

  lemma TopAtMost(r: Run, a: int, b: int)
    requires CellHolds(r, a, b)
    ensures Get(r.fd, a, b) <= Third(r, a, b)
  {
    hide Third;
  }

  /** Roots match for free, so the answer is at most the cell before the corner. */
  lemma CornerAtMost(r: Run)
    requires Scored(r)
    ensures Get(r.fd, r.H(), r.W()) <= Get(r.fd, r.H() - 1, r.W() - 1)
  {
    hide Scored, Running, Framed, Third, Rename, Get;
    ScoredParts(r);
    CellEquation(r, r.H(), r.W());
    TopAtMost(r, r.H(), r.W());
    RootsMatch(r);
    RootThird(r);
  }

  lemma CellFirstPlaces(r: Run)
    requires CellAgainstLong(r)
    ensures r.N1() == 3 && r.H() == 2 && NodeAt(r.w1.nodes, 2) == r.r1[0]
    ensures |r.w1.first| == |r.w1.nodes| && |r.w2.first| == |r.w2.nodes|
    ensures Ref(r.w1, 1, 1) == 2 && !OnEdge(r.w1, 1, 1)
    ensures var b := r.W() - 1;
      && 2 <= b && NodeAt(r.w2.nodes, r.K2() + b) == r.r2[|r.r2| - 1] && 1 <= Ref(r.w2, r.K2(), b)
  {
    hide Scored, TableWalk, Running, Framed, Size, Start, Ref, OnEdge;
    ScoredParts(r);
    FirstRowWidth(r.w1, r.v1, r.r1);
    FirstPlace(r.w1, r.v1, r.r1);
    RowPositions(r.w1, r.v1, r.r1, 0);
    RowPositions(r.w2, r.v2, r.r2, |r.r2| - 1);
    RowPositions(r.w2, r.v2, r.r2, |r.r2| - 2);
  }

  lemma CellFirstThird(r: Run)
    requires CellAgainstLong(r)
    ensures r.H() == 2 && CellHolds(r, 1, r.W() - 1)
    ensures Third(r, 1, r.W() - 1) == Dist([r.r1[0]], [r.r2[|r.r2| - 1]])
  {
    hide Scored, Running, Framed, Rename, Dist, Ref, OnEdge, Seen;
    var b := r.W() - 1;
    ScoredParts(r);
    CellFirstPlaces(r);
    CellEquation(r, 1, b);
    BelowIsDist(r, 2, r.N2() - 1);
    SeenLater(r, 1, b, 2, Ref(r.w2, r.K2(), b));
  }

  /** The last row alone is matched; the rows before it are free. */
  lemma CellFirst(r: Run)
    requires CellAgainstLong(r)
    ensures Get(r.fd, r.H(), r.W()) <= Dist([r.r1[0]], [r.r2[|r.r2| - 1]])
  {
    CornerAtMost(r);
    CellFirstThird(r);
    hide Scored, CellAgainstLong, Third, CellHolds, Get;
    TopAtMost(r, 1, r.W() - 1);
  }

  // ----- for grids -----

  /** The corner of one order's run against the corner of the other's. */
  lemma CornersDiffer(r: Run, s: Run)
    requires LongAgainstCell(r) && CellAgainstLong(s) && s.r1 == r.r2 && s.r2 == r.r1
    ensures Get(r.fd, r.H(), r.W()) > Get(s.fd, s.H(), s.W())
  {
    hide LongAgainstCell, CellAgainstLong, Scored, Running, Framed, Dist, Get, Price, TableWalk, Size;
    LongParts(r);
    CellTable(r);
    CornerCost(r);
    PriceIsDist(r);
    CellFirst(s);
    DistSymmetric([r.r1[|r.r1| - 1]], [r.r2[0]]);
  }

  /** Two rows or more against one cell that is not the first row: the order matters. */
  lemma OrderMatters(norm: string -> string, g: Grid, b: Grid)
    requires Size([BuildTree(norm, g)]) + 1 >= 2 * |FirstRow(g)| && |FirstRow(b)| == 1
    requires |BuildTree(norm, g).children| >= 2 && |BuildTree(norm, b).children| == 1
    requires BuildTree(norm, g).children[0] != BuildTree(norm, b).children[0]
    ensures var t, u := BuildTree(norm, g), BuildTree(norm, b);
      CodeDistance(t, u).Some? && CodeDistance(u, t).Some? && CodeDistance(t, u).value > CodeDistance(u, t).value
  {
    hide BuildTree, CodeDistance, Size, FirstRow, Scored, HasHeader, DataBelow, Tabular, Get;
    OneCellScored(norm, b);
    CodeDistanceDefined(norm, g, b);
    CodeDistanceDefined(norm, b, g);
    var r := GridRun(norm, g, b);
    var s := GridRun(norm, b, g);
    CornersDiffer(r, s);
    CornerValue(r);
    CornerValue(s);
  }

  lemma OneCellScored(norm: string -> string, b: Grid)
    requires |FirstRow(b)| == 1
    ensures Size([BuildTree(norm, b)]) + 1 >= 2
  {
    SizeOfTree(BuildTree(norm, b));
  }

  lemma CornerValue(r: Run)
    requires Scored(r)
    ensures r.H() < |r.fd| && r.W() < |r.fd[r.H()]| && Get(r.fd, r.H(), r.W()) == r.fd[r.H()][r.W()]
  {
    hide Running;
  }

  /** A partner against which the order matters. */
  function OddPartner(g: Grid): Grid {
    if RowCount(g) <= 1 then Grid([], [[], []])
    else if g.headers == [] then Grid([""], []) else Grid([], [[""]])
  }

  lemma FirstRowsDiffer(norm: string -> string, g: Grid)
    requires RowCount(g) >= 2
    ensures BuildTree(norm, g).children[0] != BuildTree(norm, OddPartner(g)).children[0]
  {
    GridRows(norm, g);
    GridRows(norm, OddPartner(g));
    TableTabular(norm, OddPartner(g));
  }

  /** A table of two rows or more, or of one cell, has a partner that shows the order. */
  lemma SymmetryLost(norm: string -> string, g: Grid)
    requires Size([BuildTree(norm, g)]) + 1 >= 2 * |FirstRow(g)|
    requires RowCount(g) >= 2 || |FirstRow(g)| == 1
    ensures CodeDistance(BuildTree(norm, g), BuildTree(norm, OddPartner(g)))
         != CodeDistance(BuildTree(norm, OddPartner(g)), BuildTree(norm, g))
  {
    var b := OddPartner(g);
    hide CodeDistance, Size;
    if RowCount(g) >= 2 {
      FirstRowsDiffer(norm, g);
      OrderMatters(norm, g, b);
    } else {
      TableTabular(norm, g);
      TableTabular(norm, b);
      OrderMatters(norm, b, g);
    }
  }
}
