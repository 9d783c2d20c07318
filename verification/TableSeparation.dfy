/** Which laws of an edit distance the program's own distance keeps on tables: for every
    table some partner breaks the lower bound, and a different table is at distance zero
    from it exactly when a condition on its first row holds. */
module TableSeparation {
  import opened Sequences
  import opened Options
  import opened TreeEdit
  import opened Postorder
  import opened ForestSlices
  import opened KeyrootTables
  import opened KeyrootLaws
  import opened FinalTables
  import opened TableScore
  import opened TableWalks
  import opened TopTables

  // ----- the lower bound -----

  /** One row of n cells over n blank rows. */
  function WideGrid(n: nat): Grid {
    Grid([], [seq(n, i => "")] + seq(n, i => []))
  }

  lemma WideGridRows(norm: string -> string, n: nat)
    ensures var c := BuildTree(norm, WideGrid(n)).children;
      && |c| == n + 1 && |c[0].children| == n
      && (forall r :: r in c[0].children ==> r.children == [])
      && (forall i :: 1 <= i <= n ==> c[i].children == [])
  {
    TableTabular(norm, WideGrid(n));
  }

  lemma WideGridSize(norm: string -> string, n: nat)
    ensures |FirstRow(WideGrid(n))| == n
    ensures Size([BuildTree(norm, WideGrid(n))]) == 2 * n + 2
  {
    hide Size, BuildTree;
    assert FirstRow(WideGrid(n)) == WideGrid(n).rows[0];
    WideGridRows(norm, n);
    var t := BuildTree(norm, WideGrid(n));
    var c := t.children;
    SizeOfTree(t);
    assert c == [c[0]] + c[1..];
    SizeConcat([c[0]], c[1..]);
    SizeOfTree(c[0]);
    SizeOfLeaves(c[0].children);
    SizeOfLeaves(c[1..]);
  }

  /** The program's distance never exceeds what lies in the two last ranges. */
  lemma WithinRanges(norm: string -> string, a: Grid, b: Grid)
    ensures var t, u := BuildTree(norm, a), BuildTree(norm, b);
      CodeDistance(t, u).Some? ==>
        CodeDistance(t, u).value <= (Size([t]) + Size([u]) - |FirstRow(a)| - |FirstRow(b)| - 2) as real
  {
    var t, u := BuildTree(norm, a), BuildTree(norm, b);
    TableTabular(norm, a);
    TableTabular(norm, b);
    CodeWalkBounded(t);
    CodeWalkBounded(u);
    RootIndex(t);
    RootIndex(u);
    assert Rename(t, u) == 0.0;
    hide BuildTree, Distance, Size, Rename, Nodes, Firsts;
    DistanceInRange(CodeWalk(t), CodeWalk(u));
  }

  /** For every table the program scores, some table is scored below the difference of the
      node counts, in either order. So no table's distances are all edit distances. */
  lemma LowerBoundAlwaysFails(norm: string -> string, g: Grid)
    requires Size([BuildTree(norm, g)]) + 1 >= 2 * |FirstRow(g)|
    ensures exists b: Grid ::
      var t, u := BuildTree(norm, g), BuildTree(norm, b);
      && CodeDistance(t, u).Some? && CodeDistance(u, t).Some?
      && CodeDistance(t, u).value < (Size([u]) - Size([t])) as real <= Dist([t], [u])
      && CodeDistance(u, t).value < (Size([u]) - Size([t])) as real <= Dist([u], [t])
  {
    var n := Size([BuildTree(norm, g)]);
    var b := WideGrid(2 * n);
    WideGridSize(norm, 2 * n);
    CodeDistanceDefined(norm, g, b);
    CodeDistanceDefined(norm, b, g);
    WithinRanges(norm, g, b);
    WithinRanges(norm, b, g);
    TableDistanceLaws(norm, g, b);
    hide BuildTree, CodeDistance, Size, Dist, FirstRow, WideGrid;
    var t, u := BuildTree(norm, g), BuildTree(norm, b);
    assert CodeDistance(t, u).Some? && CodeDistance(u, t).Some?;
  }

  // ----- distance zero: from the last row back to the first -----

  /** The wrapped references stay inside their lists: no index error. */
  ghost predicate Scored(r: Run) {
    Running(r) && Framed(r) && r.N1() + 1 >= 2 * r.K1() && r.N2() + 1 >= 2 * r.K2()
  }

  predicate HasHeader(rows: Forest) {
    rows != [] && rows[0].children != [] && rows[0].children[0].tag == Header
  }

  /** Only the first row of a table may hold header cells. */
  predicate DataBelow(rows: Forest) {
    forall i, c :: 1 <= i < |rows| && c in rows[i].children ==> c.tag == Data
  }

  /** No other row can stand for the first one: it is a header, or blank, or its wrapped
      reference is the start of the list. */
  predicate Sealed(r: Run) {
    HasHeader(r.r1) || r.K1() == 0 || r.N1() + 1 == 2 * r.K1()
  }

  /** What a zero chain that ends at both first rows says of the second table. */
  predicate Anchored(r: Run) {
    if HasHeader(r.r1) then HasHeader(r.r2)
    else if r.K1() >= 1 then r.K2() >= 1 && r.N2() + 1 == 2 * r.K2()
    else r.K2() == 0
  }

  lemma PlainNode(w: Walk, v: Walk, rows: Forest, x: int)
    requires TableWalk(w, v, rows) && 1 <= x < |w.nodes|
    ensures Plain([NodeAt(w.nodes, x)])
  {
    var i := NodeKinds(w, v, rows, x);
    NodeTag(w, v, rows, x, i);
    assert rows[i] in rows;
    hide Sound, Size, RowAt;
    var t := NodeAt(w.nodes, x);
    assert Init([t]) == [] && Last([t]) == t;
    if x == Start(rows, i + 1) {
      assert t == rows[i] by {
        PlainRowNode(w, v, rows, i);
      }
      RowsPlain(t.children);
    } else {
      PlainCellNode(w, v, rows, x, i);
    }
  }

  lemma PlainRowNode(w: Walk, v: Walk, rows: Forest, i: nat)
    requires TableWalk(w, v, rows) && i < |rows|
    ensures Start(rows, i + 1) >= 1 && Start(rows, i + 1) <= |w.nodes| && NodeAt(w.nodes, Start(rows, i + 1)) == rows[i]
  {
    assert RowAt(w, rows, i);
  }

  lemma PlainCellNode(w: Walk, v: Walk, rows: Forest, x: int, i: nat)
    requires TableWalk(w, v, rows) && 1 <= x < |w.nodes| && i < |rows|
    requires RowAt(w, rows, i) && Start(rows, i) < x < Start(rows, i + 1)
    ensures NodeAt(w.nodes, x).children == [] && NodeAt(w.nodes, x).tag in {Header, Data}
  {
    assert rows[i] in rows;
    assert CellAt(w, rows[i], Start(rows, i), x);
    assert NodeAt(w.nodes, x) in rows[i].children;
  }

  /** Below the roots the tree table is zero only between equal trees. */
  lemma ZeroIsEqual(r: Run, x: int, y: int)
    requires Running(r) && Framed(r) && 1 <= x < r.N1() && 1 <= y < r.N2()
    ensures r.td[x][y] == 0.0 <==> NodeAt(r.w1.nodes, x) == NodeAt(r.w2.nodes, y)
  {
    BelowIsDist(r, x, y);
    PlainNode(r.w1, r.v1, r.r1, x);
    PlainNode(r.w2, r.v2, r.r2, y);
    hide TableWalk, Finished, Solves, Dist, Plain, Alike, Framed;
    var t, u := NodeAt(r.w1.nodes, x), NodeAt(r.w2.nodes, y);
    ZeroIffAlike([t], [u]);
    AlikePlainEqual([t], [u]);
    assert [t] == [u] <==> t == u;
  }

  /** A zero cell has a zero third option. */
  lemma ZeroThird(r: Run, a: int, b: int)
    requires CellHolds(r, a, b) && r.fd[a][b] == 0.0
    ensures Third(r, a, b) == 0.0
  {
    hide Seen, Ref, Rename;
  }

  /** A zero cell below the roots joins two equal subtrees, and what it refers back to was
      zero as well. */
  lemma ZeroCell(r: Run, a: int, b: int)
    requires Scored(r) && 1 <= a < r.H() && 1 <= b < r.W() && r.fd[a][b] == 0.0
    requires !(OnEdge(r.w1, r.K1(), a) && OnEdge(r.w2, r.K2(), b))
    ensures NodeAt(r.w1.nodes, r.K1() + a) == NodeAt(r.w2.nodes, r.K2() + b)
    ensures |r.w1.first| == |r.w1.nodes| && |r.w2.first| == |r.w2.nodes|
    ensures Seen(r.fd, a, b, Ref(r.w1, r.K1(), a), Ref(r.w2, r.K2(), b)) == 0.0
  {
    CellEquation(r, a, b);
    ZeroThird(r, a, b);
    ZeroIsEqual(r, r.K1() + a, r.K2() + b);
    hide TableWalk, Finished, Solves, Ref, Running;
  }

  /** No cell in a root's column or row, outside the corner, is zero. */
  lemma RootColumnPositive(r: Run, a: int)
    requires Scored(r) && 1 <= a < r.H()
    ensures r.fd[a][r.W()] > 0.0
  {
    CellEquation(r, a, r.W());
    RootPairs(r, r.K1() + a, r.N2());
    Geometry(r.w1, r.v1, r.r1, a);
    RootTags(r, r.K1() + a);
    hide TableWalk, Finished, Solves, Ref, Running, Seen;
    if r.fd[a][r.W()] == 0.0 {
      ZeroThird(r, a, r.W());
    }
  }

  lemma RootTags(r: Run, x: int)
    requires Running(r) && 1 <= x < r.N1()
    ensures Rename(NodeAt(r.w1.nodes, x), NodeAt(r.w2.nodes, r.N2())) == 1.0
  {
    var i := NodeKinds(r.w1, r.v1, r.r1, x);
    NodeTag(r.w1, r.v1, r.r1, x, i);
  }

  /** Tables as this section compares them. */
  ghost predicate Compared(r: Run) {
    Scored(r) && DataBelow(r.r1) && DataBelow(r.r2)
  }

  lemma ScoredParts(r: Run)
    requires Scored(r)
    ensures Running(r) && Framed(r) && 1 <= r.H() && 1 <= r.W()
    ensures TableWalk(r.w1, r.v1, r.r1) && TableWalk(r.w2, r.v2, r.r2)
    ensures |r.w1.first| == |r.w1.nodes| && |r.w2.first| == |r.w2.nodes|
    ensures r.N1() + 1 >= 2 * r.K1() && r.N2() + 1 >= 2 * r.K2()
  {
    RunFramed(r);
  }

  lemma ComparedParts(r: Run)
    requires Compared(r)
    ensures Scored(r) && DataBelow(r.r1) && DataBelow(r.r2)
  {
  }

  /** The cell over row i of one table and row j of the other is zero. */
  ghost predicate ZeroOver(r: Run, i: int, j: int) {
    && Framed(r) && 0 <= i < |r.r1| && 0 <= j < |r.r2|
    && 1 <= Pos(r.r1, i) < r.H() && 1 <= Pos(r.r2, j) < r.W()
    && r.fd[Pos(r.r1, i)][Pos(r.r2, j)] == 0.0
  }

  lemma FirstRowsMatch(r: Run)
    requires Scored(r) && ZeroOver(r, 0, 0)
    ensures r.r1[0] == r.r2[0]
    ensures r.K1() >= 1 && r.N1() + 1 == 2 * r.K1() && r.K2() >= 1 ==> r.N2() + 1 == 2 * r.K2()
  {
    hide Scored, Running, Framed, TableWalk, Ref, OnEdge, Pos, Start, Seen;
    ScoredParts(r);
    FirstPlace(r.w1, r.v1, r.r1);
    FirstPlace(r.w2, r.v2, r.r2);
    RowPositions(r.w1, r.v1, r.r1, 0);
    RowPositions(r.w2, r.v2, r.r2, 0);
    if r.K1() == 0 && r.K2() == 0 {
      FirstRowsBlank(r);
    } else {
      ZeroCell(r, 1, 1);
      SeenAtStart(r);
    }
  }

  lemma BothFirst(r: Run)
    requires Compared(r) && Sealed(r) && ZeroOver(r, 0, 0)
    ensures r.r1[0] == r.r2[0] && Anchored(r)
  {
    hide Scored, DataBelow;
    FirstRowsMatch(r);
    SealedScored(r);
  }

  lemma SealedScored(r: Run)
    requires Scored(r)
    ensures r.N1() + 1 >= 2 * r.K1()
  {
  }

  /** Between two first rows, a reference to the left border sees what stands there. */
  lemma SeenAtStart(r: Run)
    requires Framed(r) && |r.w1.first| == |r.w1.nodes| && |r.w2.first| == |r.w2.nodes|
    requires 1 < r.H() && 1 < r.W() && r.N2() + 1 >= 2 * r.K2()
    requires Seen(r.fd, 1, 1, Ref(r.w1, r.K1(), 1), Ref(r.w2, r.K2(), 1)) == 0.0
    ensures r.K1() >= 1 && r.N1() + 1 == 2 * r.K1() && r.K2() >= 1 ==> r.N2() + 1 == 2 * r.K2()
  {
  }

  lemma FirstRowsBlank(r: Run)
    requires Running(r) && r.r1 != [] && r.r2 != [] && r.K1() == 0 && r.K2() == 0
    ensures r.r1[0] == r.r2[0]
  {
    assert r.r1[0] in r.r1 && r.r2[0] in r.r2;
  }

  lemma HeaderIsFirst(rows: Forest, other: Forest, j: nat)
    requires DataBelow(other) && 1 <= j < |other| && rows != [] && rows[0] == other[j]
    ensures !HasHeader(rows)
  {
    if rows[0].children != [] {
      assert other[j].children[0] in other[j].children;
    }
  }

  lemma FirstAgainstLater(r: Run, j: nat)
    requires Compared(r) && Sealed(r) && 1 <= j
    ensures !ZeroOver(r, 0, j)
  {
    hide Compared, Scored, Running, Framed, TableWalk, Ref, OnEdge, Pos, Start, HasHeader, DataBelow, Seen;
    if ZeroOver(r, 0, j) {
      ComparedParts(r);
      ScoredParts(r);
      FirstPlace(r.w1, r.v1, r.r1);
      RowPositions(r.w1, r.v1, r.r1, 0);
      RowPositions(r.w2, r.v2, r.r2, j);
      RowPositions(r.w2, r.v2, r.r2, j - 1);
      ZeroCell(r, 1, Pos(r.r2, j));
      HeaderIsFirst(r.r1, r.r2, j);
      SeenEarlier(r, 1, Pos(r.r2, j), 0, Pos(r.r2, j - 1));
      BorderIsPositive(r, Pos(r.r2, j - 1));
      assert false;
    }
  }

  lemma LaterAgainstFirst(r: Run, i: nat) returns (j: nat)
    requires Compared(r) && 1 <= i && ZeroOver(r, i, 0)
    ensures !HasHeader(r.r2) && r.K2() >= 1 && r.N2() + 1 > 2 * r.K2()
    ensures ZeroOver(r, i - 1, j) && Pos(r.r2, j) == r.N2() + 1 - 2 * r.K2()
  {
    hide Compared, Scored, Running, Framed, TableWalk, Ref, OnEdge, Pos, Start, HasHeader, DataBelow, Seen;
    ComparedParts(r);
    ScoredParts(r);
    var p := FirstRefersTo(r, i);
    HeaderIsFirst(r.r2, r.r1, i);
    RowPositions(r.w1, r.v1, r.r1, i - 1);
    RootColumnPositive(r, Pos(r.r1, i - 1));
    BackToRow(r, i - 1, p);
    j := RowByTag(r.w2, r.v2, r.r2, p);
  }

  /** A later row against the other table's first row refers to the wrapped place. */
  lemma FirstRefersTo(r: Run, i: nat) returns (p: int)
    requires Compared(r) && 1 <= i && ZeroOver(r, i, 0)
    ensures r.r1[i] == r.r2[0] && r.K2() >= 1 && p == r.N2() + 1 - 2 * r.K2() && 1 <= p <= r.W()
    ensures 1 <= Pos(r.r1, i - 1) < r.H() && r.fd[Pos(r.r1, i - 1)][p] == 0.0
  {
    hide Compared, Scored, Running, Framed, TableWalk, Ref, OnEdge, Pos, Start, HasHeader, DataBelow, Seen;
    ComparedParts(r);
    ScoredParts(r);
    FirstPlace(r.w2, r.v2, r.r2);
    RowPositions(r.w2, r.v2, r.r2, 0);
    RowPositions(r.w1, r.v1, r.r1, i);
    RowPositions(r.w1, r.v1, r.r1, i - 1);
    p := if r.K2() == 0 then 0 else r.N2() + 1 - 2 * r.K2();
    ZeroCell(r, Pos(r.r1, i), 1);
    SeenEarlier(r, Pos(r.r1, i), 1, Pos(r.r1, i - 1), p);
    BorderIsPositive(r, Pos(r.r1, i - 1));
  }

  lemma BorderIsPositive(r: Run, d: int)
    requires Framed(r) && 1 <= d
    ensures d <= r.H() ==> r.fd[d][0] > 0.0
    ensures d <= r.W() ==> r.fd[0][d] > 0.0
  {
  }

  /** A zero cell in a row's line, off the first row's place, stands over a row. */
  lemma BackToRow(r: Run, i: nat, p: int)
    requires Scored(r) && i < |r.r1| && 1 <= Pos(r.r1, i) < r.H() && 1 <= p < r.W()
    requires r.fd[Pos(r.r1, i)][p] == 0.0
    ensures |r.w2.nodes| == r.N2() && NodeAt(r.w2.nodes, r.K2() + p).tag == Row
  {
    RowPositions(r.w1, r.v1, r.r1, i);
    assert r.r1[i] in r.r1 && r.r1[i].tag == Row;
    if OnEdge(r.w1, r.K1(), Pos(r.r1, i)) && OnEdge(r.w2, r.K2(), p) {
      assert p == 1 && r.K2() == 0;
      FirstNodeIsRow(r);
    } else {
      hide TableWalk, Finished, Solves, Ref, Running, OnEdge, Pos, Start;
      ZeroCell(r, Pos(r.r1, i), p);
    }
  }

  lemma FirstNodeIsRow(r: Run)
    requires Running(r) && r.K2() == 0 && 1 < r.W()
    ensures NodeAt(r.w2.nodes, 1).tag == Row
  {
    FirstRowWidth(r.w2, r.v2, r.r2);
    RowPositions(r.w2, r.v2, r.r2, 0);
    assert r.r2[0] in r.r2;
  }

  lemma LaterAgainstLater(r: Run, i: nat, j: nat)
    requires Compared(r) && 1 <= i && 1 <= j && ZeroOver(r, i, j)
    ensures r.r1[i] == r.r2[j] && ZeroOver(r, i - 1, j - 1)
  {
    hide Compared, Scored, Running, Framed, TableWalk, Ref, OnEdge, Pos, Start, HasHeader, DataBelow, Seen;
    ComparedParts(r);
    ScoredParts(r);
    RowPositions(r.w1, r.v1, r.r1, i);
    RowPositions(r.w1, r.v1, r.r1, i - 1);
    RowPositions(r.w2, r.v2, r.r2, j);
    RowPositions(r.w2, r.v2, r.r2, j - 1);
    ZeroCell(r, Pos(r.r1, i), Pos(r.r2, j));
    SeenEarlier(r, Pos(r.r1, i), Pos(r.r2, j), Pos(r.r1, i - 1), Pos(r.r2, j - 1));
  }

  /** A chain that meets the second table's first row too early cannot end anchored. */
  lemma NotAnchored(r: Run)
    requires Sealed(r) && !HasHeader(r.r2) && r.K2() >= 1 && r.N2() + 1 > 2 * r.K2()
    ensures !Anchored(r)
  {
  }

  /** The rows down to i of one table are those down to j of the other. */
  ghost predicate SameDownTo(r: Run, i: int, j: int) {
    0 <= i == j < |r.r1| && j < |r.r2| && r.r1[..i + 1] == r.r2[..j + 1]
  }

  lemma SameStart(r: Run)
    requires ZeroOver(r, 0, 0) && r.r1[0] == r.r2[0]
    ensures SameDownTo(r, 0, 0)
  {
    hide Framed;
  }

  lemma SameNext(r: Run, i: int, j: int)
    requires ZeroOver(r, i, j) && r.r1[i] == r.r2[j] && SameDownTo(r, i - 1, j - 1)
    ensures SameDownTo(r, i, j)
  {
    hide Framed;
    assert r.r1[..i + 1] == r.r1[..i] + [r.r1[i]] && r.r2[..j + 1] == r.r2[..j] + [r.r2[j]];
  }

  /** From a zero over two rows everything above them agrees, row by row. */
  lemma {:induction false} ZeroChain(r: Run, i: nat, j: nat)
    requires Compared(r) && Sealed(r) && ZeroOver(r, i, j)
    ensures SameDownTo(r, i, j) && Anchored(r)
    decreases i
  {
    hide *;
    if i == 0 && j == 0 {
      BothFirst(r);
      SameStart(r);
    } else if i == 0 {
      FirstAgainstLater(r, j);
    } else if j == 0 {
      var k := LaterAgainstFirst(r, i);
      ZeroChain(r, i - 1, k);
      NotAnchored(r);
    } else {
      LaterAgainstLater(r, i, j);
      ZeroChain(r, i - 1, j - 1);
      SameNext(r, i, j);
    }
  }

  lemma CornerIsZero(r: Run)
    requires Scored(r) && r.fd[r.H()][r.W()] == 0.0
    ensures r.fd[r.H() - 1][r.W() - 1] == 0.0
  {
    CellEquation(r, r.H(), r.W());
    ZeroThird(r, r.H(), r.W());
  }

  /** Without rows the range is the root alone, with rows it ends with the last one. */
  lemma LastPlaces(r: Run)
    requires Running(r)
    ensures r.r1 == [] ==> r.H() == 1
    ensures r.r2 == [] ==> r.W() == 1
    ensures r.r1 != [] ==> 1 <= Pos(r.r1, |r.r1| - 1) == r.H() - 1
    ensures r.r2 != [] ==> 1 <= Pos(r.r2, |r.r2| - 1) == r.W() - 1
  {
    if r.r1 == [] {
      EmptySize(r.r1);
    } else {
      RowPositions(r.w1, r.v1, r.r1, |r.r1| - 1);
    }
    if r.r2 == [] {
      EmptySize(r.r2);
    } else {
      RowPositions(r.w2, r.v2, r.r2, |r.r2| - 1);
    }
  }

  /** Distance zero from a sealed table: the rows are the same. */
  lemma ZeroMeansEqual(r: Run)
    requires Compared(r) && Sealed(r) && r.fd[r.H()][r.W()] == 0.0
    ensures r.r1 == r.r2
  {
    hide Compared, Scored, Sealed, Pos, Running, Framed;
    ComparedParts(r);
    ScoredParts(r);
    CornerIsZero(r);
    LastPlaces(r);
    if r.r1 != [] && r.r2 != [] {
      ZeroChain(r, |r.r1| - 1, |r.r2| - 1);
      assert r.r1[..|r.r1|] == r.r1 && r.r2[..|r.r2|] == r.r2;
    }
  }

  lemma EmptySize(rows: Forest)
    requires rows == []
    ensures Size(rows) == 0 && FirstWidth(rows) == 0
  {
  }

  // ----- distance zero although the tables differ -----

  /** The second table is the first with rows in front, and the first row's reference
      wraps beyond the line it is filled in, or to that line when the front repeats it. */
  ghost predicate Fronted(r: Run, front: Forest) {
    && Scored(r) && front != [] && r.r1 != [] && r.r2 == front + r.r1 && r.K1() >= 1
    && (r.N1() > 2 * r.K1() || (r.N1() == 2 * r.K1() && front == [r.r1[0]]))
  }

  lemma ZeroByThird(r: Run, a: int, b: int)
    requires CellHolds(r, a, b) && Third(r, a, b) == 0.0
    ensures r.fd[a][b] == 0.0
  {
    hide Third;
  }

  /** Off the corner, an equal pair of rows costs what its reference shows. */
  lemma EqualRows(r: Run, i: nat, j: nat)
    requires Scored(r) && i < |r.r1| && j < |r.r2| && r.r1[i] == r.r2[j]
    requires 1 <= Pos(r.r1, i) < r.H() && 1 <= Pos(r.r2, j) < r.W()
    requires !OnEdge(r.w1, r.K1(), Pos(r.r1, i))
    ensures |r.w1.first| == |r.w1.nodes| && |r.w2.first| == |r.w2.nodes|
    ensures Seen(r.fd, Pos(r.r1, i), Pos(r.r2, j), Ref(r.w1, r.K1(), Pos(r.r1, i)), Ref(r.w2, r.K2(), Pos(r.r2, j))) == 0.0
            ==> r.fd[Pos(r.r1, i)][Pos(r.r2, j)] == 0.0
  {
    hide Scored, Running, Framed, TableWalk, Ref, OnEdge, Pos, Start, Seen;
    ScoredParts(r);
    RowPositions(r.w1, r.v1, r.r1, i);
    RowPositions(r.w2, r.v2, r.r2, j);
    CellEquation(r, Pos(r.r1, i), Pos(r.r2, j));
    ZeroIsEqual(r, r.K1() + Pos(r.r1, i), r.K2() + Pos(r.r2, j));
    if Seen(r.fd, Pos(r.r1, i), Pos(r.r2, j), Ref(r.w1, r.K1(), Pos(r.r1, i)), Ref(r.w2, r.K2(), Pos(r.r2, j))) == 0.0 {
      ZeroByThird(r, Pos(r.r1, i), Pos(r.r2, j));
    }
  }

  lemma FrontedParts(r: Run, front: Forest)
    requires Fronted(r, front)
    ensures Scored(r) && r.K1() >= 1 && r.N1() >= 2 * r.K1() && r.r1 != [] && r.r2 != []
    ensures |r.r2| == |front| + |r.r1| && |front| >= 1 && r.r2[0] == front[0]
    ensures forall i :: 0 <= i < |r.r1| ==> r.r2[|front| + i] == r.r1[i]
    ensures r.N1() == 2 * r.K1() ==> front[0] == r.r1[0] && |front| == 1
  {
    hide Scored;
  }

  lemma FrontStart(r: Run, front: Forest)
    requires Fronted(r, front)
    ensures ZeroOver(r, 0, |front|)
  {
    hide Fronted, Scored, Running, Framed, TableWalk, Ref, OnEdge, Pos, Start, Seen;
    var x := |front|;
    FrontedParts(r, front);
    ScoredParts(r);
    FirstPlace(r.w1, r.v1, r.r1);
    RowPositions(r.w1, r.v1, r.r1, 0);
    RowPositions(r.w2, r.v2, r.r2, x);
    RowPositions(r.w2, r.v2, r.r2, x - 1);
    EqualRows(r, 0, x);
    FirstIsFree(r, front);
  }

  /** What the first row refers to, when the front's last row stands before the other end. */
  lemma FirstIsFree(r: Run, front: Forest)
    requires Fronted(r, front) && |r.w2.nodes| == |r.w2.first|
    ensures Seen(r.fd, 1, Pos(r.r2, |front|), r.N1() + 1 - 2 * r.K1(), Pos(r.r2, |front| - 1)) == 0.0
  {
    hide Fronted, Scored, Running, Framed, TableWalk, Ref, OnEdge, Pos, Start, Seen;
    var x, q := |front|, r.N1() + 1 - 2 * r.K1();
    FrontedParts(r, front);
    ScoredParts(r);
    RowPositions(r.w2, r.v2, r.r2, x);
    RowPositions(r.w2, r.v2, r.r2, x - 1);
    if q > 1 {
      SeenLater(r, 1, Pos(r.r2, x), q, Pos(r.r2, x - 1));
    } else {
      RepeatedRow(r, front);
      SeenBefore(r, 1, Pos(r.r2, x), Pos(r.r2, x - 1));
    }
  }

  lemma SeenBefore(r: Run, a: int, b: int, p: int)
    requires Framed(r) && 1 <= a <= r.H() && 0 <= p < b <= r.W()
    ensures Seen(r.fd, a, b, a, p) == r.fd[a][p]
  {
  }

  /** A repeated first row is free as well: its reference is still zero. */
  lemma RepeatedRow(r: Run, front: Forest)
    requires Fronted(r, front) && r.N1() == 2 * r.K1()
    ensures 1 < r.H() && 1 < r.W() && r.fd[1][1] == 0.0
  {
    FirstPlace(r.w1, r.v1, r.r1);
    FirstPlace(r.w2, r.v2, r.r2);
    RowPositions(r.w1, r.v1, r.r1, 0);
    RowPositions(r.w2, r.v2, r.r2, 0);
    assert r.r2[0] == r.r1[0] && r.K2() == r.K1();
    RowPositions(r.w2, r.v2, r.r2, 1);
    SizesOfFronted(r, front);
    hide TableWalk, Finished, Solves, Ref, Running, OnEdge, Pos, Start;
    EqualRows(r, 0, 0);
  }

  lemma SizesOfFronted(r: Run, front: Forest)
    requires Fronted(r, front)
    ensures r.N2() > r.N1()
  {
    SizeConcat(front, r.r1);
    assert front == [front[0]] + front[1..];
    SizeConcat([front[0]], front[1..]);
    SizeOfTree(front[0]);
  }

  /** Below a zero over two rows, the next two rows, if equal, are free again. */
  lemma ZeroNext(r: Run, i: nat, j: nat)
    requires Scored(r) && 1 <= i < |r.r1| && 1 <= j < |r.r2| && r.r1[i] == r.r2[j] && ZeroOver(r, i - 1, j - 1)
    ensures ZeroOver(r, i, j)
  {
    hide Scored, Running, Framed, TableWalk, Ref, OnEdge, Pos, Start, Seen;
    ScoredParts(r);
    RowPositions(r.w1, r.v1, r.r1, i);
    RowPositions(r.w2, r.v2, r.r2, j);
    EqualRows(r, i, j);
    SeenEarlier(r, Pos(r.r1, i), Pos(r.r2, j), Pos(r.r1, i - 1), Pos(r.r2, j - 1));
  }

  lemma {:induction false} FrontChain(r: Run, front: Forest, i: nat)
    requires Fronted(r, front) && i < |r.r1|
    ensures ZeroOver(r, i, |front| + i)
  {
    hide Fronted, Scored, Running, Framed, TableWalk, Ref, OnEdge, Pos, Start, Seen;
    if i == 0 {
      FrontStart(r, front);
    } else {
      var j := |front| + i;
      FrontedParts(r, front);
      FrontChain(r, front, i - 1);
      ZeroNext(r, i, j);
    }
  }

  /** A zero over the two last rows is the answer. */
  lemma LastZero(r: Run)
    requires Scored(r) && ZeroOver(r, |r.r1| - 1, |r.r2| - 1)
    ensures Framed(r) && r.fd[r.H()][r.W()] == 0.0
  {
    hide Scored, Running, Framed, Pos, Third, Rename;
    ScoredParts(r);
    LastPlaces(r);
    CellEquation(r, r.H(), r.W());
    RootsMatch(r);
    RootThird(r);
    ZeroByThird(r, r.H(), r.W());
  }

  lemma RootThird(r: Run)
    requires Framed(r) && |r.w1.first| == |r.w1.nodes| && |r.w2.first| == |r.w2.nodes|
    requires Rename(NodeAt(r.w1.nodes, r.N1()), NodeAt(r.w2.nodes, r.N2())) == 0.0
    ensures Third(r, r.H(), r.W()) == r.fd[r.H() - 1][r.W() - 1] == Get(r.fd, r.H() - 1, r.W() - 1)
  {
    hide Rename;
  }

  /** Rows put in front of the first table's are free. */
  lemma FrontIsFree(r: Run, front: Forest)
    requires Fronted(r, front)
    ensures Framed(r) && r.fd[r.H()][r.W()] == 0.0
  {
    hide Fronted, Scored, ZeroOver, Framed;
    FrontedParts(r, front);
    FrontChain(r, front, |r.r1| - 1);
    LastZero(r);
  }

  lemma RootsMatch(r: Run)
    requires Running(r)
    ensures Rename(NodeAt(r.w1.nodes, r.N1()), NodeAt(r.w2.nodes, r.N2())) == 0.0
  {
  }

  // ----- for grids -----

  lemma GridRows(norm: string -> string, g: Grid)
    ensures var c := BuildTree(norm, g).children;
      && c == HeaderTrees(norm, g.headers) + RowTrees(norm, g.rows)
      && DataBelow(c) && (HasHeader(c) <==> g.headers != [])
      && FirstWidth(c) == |FirstRow(g)|
  {
    TableTabular(norm, g);
    var h, rs := HeaderTrees(norm, g.headers), RowTrees(norm, g.rows);
    var c: Forest := h + rs;
    forall i: int, x: Tree | 1 <= i < |c| && x in c[i].children ensures x.tag == Data {
      assert c[i] == rs[i - |h|];
    }
  }

  function HeaderRows(g: Grid): nat {
    if g.headers != [] then 1 else 0
  }

  /** How many rows the tree of a grid has. */
  function RowCount(g: Grid): nat {
    HeaderRows(g) + |g.rows|
  }

  lemma RowsOf(norm: string -> string, g: Grid)
    ensures |BuildTree(norm, g).children| == RowCount(g)
  {
  }

  /** A scored pair of grids as a run. */
  lemma GridRun(norm: string -> string, a: Grid, b: Grid) returns (r: Run)
    requires CodeDistance(BuildTree(norm, a), BuildTree(norm, b)).Some?
    ensures Compared(r)
    ensures r.r1 == BuildTree(norm, a).children && r.r2 == BuildTree(norm, b).children
    ensures r.w1 == CodeWalk(BuildTree(norm, a)) && r.w2 == CodeWalk(BuildTree(norm, b))
    ensures r.v1 == TrueWalk(BuildTree(norm, a)) && r.v2 == TrueWalk(BuildTree(norm, b))
    ensures r.N1() == Size([BuildTree(norm, a)]) && r.N2() == Size([BuildTree(norm, b)])
    ensures r.K1() == |FirstRow(a)| && r.K2() == |FirstRow(b)|
    ensures HasHeader(r.r1) <==> a.headers != []
    ensures CodeDistance(BuildTree(norm, a), BuildTree(norm, b)) == Some(r.fd[r.H()][r.W()])
  {
    TableTabular(norm, a);
    TableTabular(norm, b);
    GridRows(norm, a);
    GridRows(norm, b);
    CodeDistanceDefined(norm, a, b);
    hide BuildTree, CodeDistance, Size, DataBelow, HasHeader, Tabular, Running, Framed, FirstRow, FirstWidth;
    r := TableRun(BuildTree(norm, a), BuildTree(norm, b));
  }

  /** The same grid with its first row, which is not a header, written twice. */
  function Doubled(g: Grid): Grid
    requires g.rows != []
  {
    Grid([], [g.rows[0]] + g.rows)
  }

  lemma DoubledRows(norm: string -> string, g: Grid)
    requires g.headers == [] && FirstRow(g) != []
    ensures var c := BuildTree(norm, g).children; c != [] && BuildTree(norm, Doubled(g)).children == [c[0]] + c
    ensures BuildTree(norm, g) != BuildTree(norm, Doubled(g)) && FirstRow(Doubled(g)) == FirstRow(g)
    ensures Size([BuildTree(norm, Doubled(g))]) > Size([BuildTree(norm, g)])
  {
    var t, u := BuildTree(norm, g), BuildTree(norm, Doubled(g));
    var c := t.children;
    assert c != [] && u.children == [c[0]] + c;
    hide Size, BuildTree;
    SizeOfTree(t);
    SizeOfTree(u);
    SizeConcat([c[0]], c);
    SizeOfTree(c[0]);
  }

  lemma DoubledIsFree(norm: string -> string, g: Grid)
    requires g.headers == [] && FirstRow(g) != [] && Size([BuildTree(norm, g)]) >= 2 * |FirstRow(g)|
    ensures CodeDistance(BuildTree(norm, g), BuildTree(norm, Doubled(g))) == Some(0.0)
    ensures BuildTree(norm, g) != BuildTree(norm, Doubled(g))
  {
    var b := Doubled(g);
    DoubledRows(norm, g);
    CodeDistanceDefined(norm, g, b);
    hide BuildTree, CodeDistance, Size, FirstRow, Doubled, Running, Framed;
    var r := GridRun(norm, g, b);
    assert Fronted(r, [r.r1[0]]);
    hide Fronted;
    FrontIsFree(r, [r.r1[0]]);
  }

  /** Some different table is at distance zero from this one, and so scores 1 against it,
      exactly when the table has no header row, its first row is not blank, and its tree
      has at least twice as many nodes as that row has cells. */
  lemma SeparationFailsIff(norm: string -> string, g: Grid)
    ensures (exists b: Grid ::
               && CodeDistance(BuildTree(norm, g), BuildTree(norm, b)) == Some(0.0)
               && BuildTree(norm, b) != BuildTree(norm, g))
       <==> g.headers == [] && FirstRow(g) != [] && Size([BuildTree(norm, g)]) >= 2 * |FirstRow(g)|
  {
    if g.headers == [] && FirstRow(g) != [] && Size([BuildTree(norm, g)]) >= 2 * |FirstRow(g)| {
      DoubledIsFree(norm, g);
    } else {
      forall b: Grid | CodeDistance(BuildTree(norm, g), BuildTree(norm, b)) == Some(0.0)
        ensures BuildTree(norm, b) == BuildTree(norm, g)
      {
        SealedSeparates(norm, g, b);
      }
    }
  }

  lemma SealedSeparates(norm: string -> string, g: Grid, b: Grid)
    requires !(g.headers == [] && FirstRow(g) != [] && Size([BuildTree(norm, g)]) >= 2 * |FirstRow(g)|)
    requires CodeDistance(BuildTree(norm, g), BuildTree(norm, b)) == Some(0.0)
    ensures BuildTree(norm, b) == BuildTree(norm, g)
  {
    CodeDistanceDefined(norm, g, b);
    assert BuildTree(norm, b) == Node(TreeEdit.Table, "", BuildTree(norm, b).children);
    assert BuildTree(norm, g) == Node(TreeEdit.Table, "", BuildTree(norm, g).children);
    hide BuildTree, CodeDistance, Size, FirstRow, HasHeader, Running, Framed, DataBelow;
    var r := GridRun(norm, g, b);
    assert Sealed(r);
    ZeroMeansEqual(r);
  }

  lemma LostHeaderSizes(norm: string -> string, headers: seq<string>, rows: seq<seq<string>>)
    requires headers != [] && rows != []
    ensures var t, u, h := BuildTree(norm, Grid([], rows)), BuildTree(norm, Grid(headers, rows)), HeaderTrees(norm, headers);
      && h != [] && t.children != [] && u.children == h + t.children
      && Size([u]) == Size([t]) + |headers| + 1
  {
    var t, u, h := BuildTree(norm, Grid([], rows)), BuildTree(norm, Grid(headers, rows)), HeaderTrees(norm, headers);
    assert u.children == h + t.children && h == [h[0]];
    SizeOfLeaves(h[0].children);
    hide Size;
    SizeOfTree(t);
    SizeOfTree(u);
    SizeConcat(h, t.children);
    SizeOfTree(h[0]);
  }

  /** The run of a table against itself with a header in front. */
  lemma LostHeaderRun(norm: string -> string, headers: seq<string>, rows: seq<seq<string>>)
    requires headers != [] && rows != [] && rows[0] != []
    requires Size([BuildTree(norm, Grid([], rows))]) > 2 * |rows[0]|
    requires CodeDistance(BuildTree(norm, Grid([], rows)), BuildTree(norm, Grid(headers, rows))).Some?
    ensures CodeDistance(BuildTree(norm, Grid([], rows)), BuildTree(norm, Grid(headers, rows))) == Some(0.0)
  {
    assert FirstRow(Grid([], rows)) == rows[0];
    LostHeaderSizes(norm, headers, rows);
    hide BuildTree, CodeDistance, Size, FirstRow, HeaderTrees, Running, Framed;
    var r := GridRun(norm, Grid([], rows), Grid(headers, rows));
    assert Fronted(r, HeaderTrees(norm, headers));
    hide Fronted;
    FrontIsFree(r, HeaderTrees(norm, headers));
  }

  /** A prediction that lost its header row is at distance zero from the table that has it,
      though the tables differ by the whole header; the other way round it is not. */
  lemma LostHeaderIsFree(norm: string -> string, headers: seq<string>, rows: seq<seq<string>>)
    requires headers != [] && rows != [] && rows[0] != []
    requires Size([BuildTree(norm, Grid([], rows))]) > 2 * |rows[0]|
    requires Size([BuildTree(norm, Grid(headers, rows))]) + 1 >= 2 * |headers|
    ensures var t, u := BuildTree(norm, Grid([], rows)), BuildTree(norm, Grid(headers, rows));
      && CodeDistance(t, u) == Some(0.0)
      && CodeDistance(u, t).Some? && CodeDistance(u, t).value > 0.0
      && Dist([t], [u]) >= |headers| as real + 1.0
      && Size([u]) == Size([t]) + |headers| + 1
  {
    var a, b := Grid([], rows), Grid(headers, rows);
    assert FirstRow(a) == rows[0] && FirstRow(b) == headers && a.headers == [] && b.headers != [];
    hide BuildTree, CodeDistance, Size, FirstRow, Dist;
    var t, u := BuildTree(norm, a), BuildTree(norm, b);
    LostHeaderSizes(norm, headers, rows);
    CodeDistanceDefined(norm, a, b);
    CodeDistanceDefined(norm, b, a);
    TableDistanceLaws(norm, a, b);
    CodeDistanceRange(norm, b, a);
    LostHeaderRun(norm, headers, rows);
    if CodeDistance(u, t) == Some(0.0) {
      SealedSeparates(norm, b, a);
    }
  }

  /** The smallest case: one cell, with and without a one-cell header. */
  lemma LostHeaderExample(norm: string -> string)
    ensures var t, u := BuildTree(norm, Grid([], [["x"]])), BuildTree(norm, Grid(["h"], [["x"]]));
      && Size([t]) == 3 && Size([u]) == 5 && t != u
      && CodeDistance(t, u) == Some(0.0)
      && CodeDistance(u, t).Some? && CodeDistance(u, t).value > 0.0
      && Dist([t], [u]) >= (Size([u]) - Size([t])) as real > 0.0
  {
    OneCellSizes(norm);
    hide BuildTree, CodeDistance, Size, Dist;
    LostHeaderIsFree(norm, ["h"], [["x"]]);
  }

  lemma OneCellSizes(norm: string -> string)
    ensures Size([BuildTree(norm, Grid([], [["x"]]))]) == 3
    ensures Size([BuildTree(norm, Grid(["h"], [["x"]]))]) == 5
  {
    hide BuildTree, Size;
    OneRowTree(norm, ["x"]);
    LostHeaderSizes(norm, ["h"], [["x"]]);
  }

  // ----- the program's distance can also be too large -----

  const THREE := Grid([], [["a", "b", "c"]])
  const TWO := Grid([], [["a", "b"]])

  lemma OneRowTree(norm: string -> string, row: seq<string>)
    ensures var t := BuildTree(norm, Grid([], [row]));
      t.children == [Node(Row, "", Cells(norm, Data, row))] && Size([t]) == |row| + 2
  {
    var t, x := BuildTree(norm, Grid([], [row])), Node(Row, "", Cells(norm, Data, row));
    assert t.children == [x];
    SizeOfLeaves(x.children);
    hide Size, BuildTree, Cells;
    SizeOfTree(t);
    SizeOfTree(x);
  }

  /** Two roots that rename for free cost no more than what is below them. */
  lemma RootsCostBelow(t: Tree, u: Tree)
    requires Rename(t, u) == 0.0
    ensures Dist([t], [u]) <= Dist(t.children, u.children)
  {
    hide Dist, Rename;
    DistOfTrees(t, u);
  }

  lemma ThreeAndTwoAreClose(norm: string -> string)
    ensures Dist([BuildTree(norm, THREE)], [BuildTree(norm, TWO)]) <= 1.0
  {
    var t, u := BuildTree(norm, THREE), BuildTree(norm, TWO);
    OneRowTree(norm, ["a", "b", "c"]);
    OneRowTree(norm, ["a", "b"]);
    var x, y := t.children[0], u.children[0];
    var c := x.children[2];
    assert x.children == y.children + [c] && y.children == y.children + [];
    RootsCostBelow(t, u);
    RootsCostBelow(x, y);
    ZeroIffAlike(y.children, y.children);
    CellsPlain(norm, ["a", "b"]);
    AlikePlainEqual(y.children, y.children);
    SizeOfTree(c);
    hide Dist, BuildTree, Alike, Plain;
    Subadditive(y.children, y.children, [c], []);
    DistEmpty([], [c]);
  }

  lemma CellsPlain(norm: string -> string, row: seq<string>)
    ensures Plain(Cells(norm, Data, row))
  {
    RowsPlain(Cells(norm, Data, row));
  }

  lemma ThreeAgainstTwo(r: Run)
    requires Scored(r) && r.N1() == 5 && r.K1() == 3 && r.N2() == 4 && r.K2() == 2 && |r.r1| == 1 && |r.r2| == 1
    ensures r.fd[2][2] >= 2.0
  {
    FirstPlace(r.w1, r.v1, r.r1);
    FirstPlace(r.w2, r.v2, r.r2);
    RowPositions(r.w1, r.v1, r.r1, 0);
    RowPositions(r.w2, r.v2, r.r2, 0);
    StartStep(r.r1, 0);
    StartStep(r.r2, 0);
    FirstRowWidth(r.w1, r.v1, r.r1);
    FirstRowWidth(r.w2, r.v2, r.r2);
    BelowIsDist(r, 4, 3);
    DistBounds([NodeAt(r.w1.nodes, 4)], [NodeAt(r.w2.nodes, 3)]);
    RootPairs(r, 4, 4);
    RootPairs(r, 5, 3);
    CellEquation(r, 1, 1);
    CellEquation(r, 1, 2);
    CellEquation(r, 2, 1);
    CellEquation(r, 2, 2);
    hide TableWalk, Finished, Solves, Dist, Size, Running, Rename, Pos, Start;
  }

  /** Three cells against their first two: one deletion, yet the program charges two. */
  lemma OverestimateExample(norm: string -> string)
    ensures var t, u := BuildTree(norm, THREE), BuildTree(norm, TWO);
      CodeDistance(t, u).Some? && CodeDistance(t, u).value >= 2.0 && Dist([t], [u]) <= 1.0
  {
    OneRowTree(norm, ["a", "b", "c"]);
    OneRowTree(norm, ["a", "b"]);
    CodeDistanceDefined(norm, THREE, TWO);
    ThreeAndTwoAreClose(norm);
    assert |BuildTree(norm, THREE).children| == 1 && |BuildTree(norm, TWO).children| == 1;
    assert |FirstRow(THREE)| == 3 && |FirstRow(TWO)| == 2;
    hide CodeDistance, Dist, Size, BuildTree, FirstRow;
    var r := GridRun(norm, THREE, TWO);
    ThreeAgainstTwo(r);
  }
}
