/** When a table given second, the truth, is at distance zero from some different table:
    the chain of equal rows read upwards may end early in the other table, or come back
    down where the first row's wrapped reference points. */
module TableEchoes {
  import opened Options
  import opened TreeEdit
  import opened Postorder
  import opened FinalTables
  import opened TableScore
  import opened TableWalks
  import opened TopTables
  import opened TableSeparation

  // ----- the condition on the second table's rows -----

  /** Row j is not blank and, with what follows, has twice as many nodes as it has cells:
      the rows above it may be missing. */
  ghost predicate MayStartAt(rows: Forest, j: int) {
    1 <= j < |rows| && rows[j].children != [] && Size(rows[j..]) >= 2 * |rows[j].children|
  }

  /** The first row stands twice and has just half as many cells as its table without the
      repetition has nodes: one copy may be missing. */
  predicate StandsTwice(rows: Forest) {
    |rows| >= 2 && rows[0] == rows[1] && FirstWidth(rows) >= 1 && Size(rows[1..]) + 1 == 2 * FirstWidth(rows)
  }

  /** The first row is no header and has two cells more than there are nodes from row j on:
      the rows above j may be written twice. */
  predicate MayRepeat(rows: Forest, j: int) {
    1 <= j <= |rows| && !HasHeader(rows) && FirstWidth(rows) >= 1 && Size(rows[j..]) + 2 == FirstWidth(rows)
  }

  ghost predicate Echoes(rows: Forest) {
    StandsTwice(rows) || (exists j :: MayStartAt(rows, j)) || (exists j :: MayRepeat(rows, j))
  }

  // ----- sizes -----

  lemma SizeFrom(rows: Forest, j: nat)
    requires j <= |rows|
    ensures Size(rows[j..]) == Size(rows) - Start(rows, j)
  {
    hide Size;
    assert rows == rows[..j] + rows[j..];
    SizeConcat(rows[..j], rows[j..]);
  }

  lemma SizeOfRow(w: Walk, v: Walk, rows: Forest, i: nat)
    requires TableWalk(w, v, rows) && i < |rows|
    ensures Size([rows[i]]) == |rows[i].children| + 1
  {
    hide TableWalk, Start, Size, CellAt;
    RowOf(w, v, rows, i);
    StartStep(rows, i);
  }

  /** One row more in front. */
  lemma SizeFromStep(w: Walk, v: Walk, rows: Forest, j: nat)
    requires TableWalk(w, v, rows) && j < |rows|
    ensures Size(rows[j..]) == |rows[j].children| + 1 + Size(rows[j + 1..])
  {
    hide TableWalk, Start, Size;
    SizeFrom(rows, j);
    SizeFrom(rows, j + 1);
    StartStep(rows, j);
    SizeOfRow(w, v, rows, j);
  }

  // ----- distance zero: from the last row upwards -----

  /** Below row i and row j the two tables are the same. */
  ghost predicate SameBelow(r: Run, i: int, j: int) {
    0 <= i < |r.r1| && 0 <= j < |r.r2| && r.r1[i + 1..] == r.r2[j + 1..]
  }

  /** The first table's first row over a later row: it is that row, and where its own
      reference is the line it stands in, the row before is the same again. */
  lemma FirstOverLater(r: Run, j: nat)
    requires Compared(r) && 1 <= j && ZeroOver(r, 0, j)
    ensures r.r1[0] == r.r2[j] && r.K1() >= 1 && r.N1() >= 2 * r.K1()
    ensures r.N1() == 2 * r.K1() ==> ZeroOver(r, 0, j - 1)
  {
    hide Compared, Scored, Running, Framed, TableWalk, Ref, OnEdge, Pos, Start, HasHeader, DataBelow, Seen;
    ComparedParts(r);
    ScoredParts(r);
    FirstPlace(r.w1, r.v1, r.r1);
    RowPositions(r.w1, r.v1, r.r1, 0);
    RowPositions(r.w2, r.v2, r.r2, j);
    RowPositions(r.w2, r.v2, r.r2, j - 1);
    ZeroCell(r, 1, Pos(r.r2, j));
    SeenEarlier(r, 1, Pos(r.r2, j), 0, Pos(r.r2, j - 1));
    SeenBefore(r, 1, Pos(r.r2, j), Pos(r.r2, j - 1));
    BorderIsPositive(r, Pos(r.r2, j - 1));
  }

  lemma CutSize(r: Run, j: nat)
    requires Compared(r) && SameBelow(r, 0, j) && r.r1[0] == r.r2[j]
    ensures Size(r.r2[j..]) + 1 == r.N1() && r.K1() == |r.r2[j].children|
  {
    hide Compared, Scored, Running, Framed, TableWalk, Size, Start;
    ComparedParts(r);
    ScoredParts(r);
    FirstRowWidth(r.w1, r.v1, r.r1);
    assert r.r1 == [r.r1[0]] + r.r1[1..] && r.r2[j..] == [r.r2[j]] + r.r2[j + 1..];
  }

  /** The chain ends in the first table's first row while rows of the second are left. */
  lemma EndsEarly(r: Run, j: nat)
    requires Compared(r) && 1 <= j && ZeroOver(r, 0, j) && SameBelow(r, 0, j)
    ensures Echoes(r.r2)
  {
    hide Compared, Scored, ZeroOver, Size;
    FirstOverLater(r, j);
    CutSize(r, j);
    if r.N1() > 2 * r.K1() {
      assert MayStartAt(r.r2, j);
    } else {
      ComparedParts(r);
      RowBefore(r, j);
      if j == 1 {
        FirstRowsMatch(r);
        assert StandsTwice(r.r2);
      } else {
        FirstOverLater(r, j - 1);
        assert MayStartAt(r.r2, j - 1);
      }
    }
  }

  lemma RowBefore(r: Run, j: nat)
    requires Compared(r) && 1 <= j < |r.r2|
    ensures Size(r.r2[j - 1..]) == |r.r2[j - 1].children| + 1 + Size(r.r2[j..])
  {
    hide Compared, Scored, Running, Framed, TableWalk, Size;
    ComparedParts(r);
    ScoredParts(r);
    SizeFromStep(r.w2, r.v2, r.r2, j - 1);
  }

  /** The chain reaches the second table's first row and comes back at a later one. */
  lemma ComesBack(r: Run, i: nat)
    requires Compared(r) && 1 <= i && ZeroOver(r, i, 0)
    ensures Echoes(r.r2)
  {
    hide Compared, Scored, Running, Framed, TableWalk, Size, Start, HasHeader;
    ComparedParts(r);
    ScoredParts(r);
    var j := LaterAgainstFirst(r, i);
    FirstRowWidth(r.w2, r.v2, r.r2);
    SizeFrom(r.r2, j + 1);
    assert MayRepeat(r.r2, j + 1);
  }

  lemma BelowEqualRows(r: Run, i: nat, j: nat)
    requires SameBelow(r, i, j) && r.r1[i] == r.r2[j]
    ensures r.r1[i..] == r.r2[j..]
  {
    assert r.r1[i..] == [r.r1[i]] + r.r1[i + 1..] && r.r2[j..] == [r.r2[j]] + r.r2[j + 1..];
  }

  lemma BothEnd(r: Run)
    requires Compared(r) && ZeroOver(r, 0, 0) && SameBelow(r, 0, 0)
    ensures r.r1 == r.r2
  {
    hide Scored, ZeroOver, DataBelow;
    FirstRowsMatch(r);
    BelowEqualRows(r, 0, 0);
    assert r.r1[0..] == r.r1 && r.r2[0..] == r.r2;
  }

  lemma SameOneUp(r: Run, i: nat, j: nat)
    requires 1 <= i && 1 <= j && SameBelow(r, i, j) && r.r1[i] == r.r2[j]
    ensures SameBelow(r, i - 1, j - 1)
  {
    BelowEqualRows(r, i, j);
  }

  /** From a zero over two rows with equal rows below: either the tables are equal, or the
      second one echoes. */
  lemma {:induction false} EchoChain(r: Run, i: nat, j: nat)
    requires Compared(r) && ZeroOver(r, i, j) && SameBelow(r, i, j)
    ensures r.r1 == r.r2 || Echoes(r.r2)
    decreases i
  {
    hide *;
    if i == 0 && j == 0 {
      BothEnd(r);
    } else if i == 0 {
      EndsEarly(r, j);
    } else if j == 0 {
      ComesBack(r, i);
    } else {
      LaterAgainstLater(r, i, j);
      SameOneUp(r, i, j);
      EchoChain(r, i - 1, j - 1);
    }
  }

  lemma ZeroAtRoots(r: Run)
    requires Compared(r) && r.fd[r.H()][r.W()] == 0.0
    ensures r.r1 == [] <==> r.r2 == []
    ensures r.r1 != [] && r.r2 != [] ==> ZeroOver(r, |r.r1| - 1, |r.r2| - 1)
  {
    hide Compared, Scored, Running, Pos;
    ComparedParts(r);
    ScoredParts(r);
    CornerIsZero(r);
    LastPlaces(r);
  }

  /** A distance of zero comes from an equal table or from an echo. */
  lemma ZeroEchoes(r: Run)
    requires Compared(r) && r.fd[r.H()][r.W()] == 0.0
    ensures r.r1 == r.r2 || Echoes(r.r2)
  {
    hide Compared, Echoes, ZeroOver;
    ZeroAtRoots(r);
    if r.r1 != [] && r.r2 != [] {
      assert SameBelow(r, |r.r1| - 1, |r.r2| - 1);
      EchoChain(r, |r.r1| - 1, |r.r2| - 1);
    }
  }

  // ----- rows written twice -----

  /** The first table is the second with its rows above j written twice. */
  ghost predicate Looped(r: Run, j: int) {
    Scored(r) && MayRepeat(r.r2, j) && r.r1 == r.r2[..j] + r.r2
  }

  lemma LoopRows(r: Run, j: nat)
    requires Looped(r, j)
    ensures Scored(r) && 1 <= j <= |r.r2| && |r.r1| == j + |r.r2| && r.K1() == r.K2() >= 2
    ensures forall i :: 0 <= i < j ==> r.r1[i] == r.r2[i]
    ensures forall i :: 0 <= i < |r.r2| ==> r.r1[j + i] == r.r2[i]
  {
    hide Scored;
  }

  /** The wrapped reference of the second table's first row is the place of row j - 1, and
      that of the first table's lies beyond its first line. */
  lemma LoopPlaces(r: Run, j: nat)
    requires Looped(r, j)
    ensures 1 <= j <= |r.r2| && r.N2() + 1 - 2 * r.K2() == Pos(r.r2, j - 1)
    ensures r.N1() + 1 - 2 * r.K1() >= 2
  {
    hide Scored, Running, Framed, TableWalk, Size;
    LoopRows(r, j);
    ScoredParts(r);
    FirstRowWidth(r.w1, r.v1, r.r1);
    FirstRowWidth(r.w2, r.v2, r.r2);
    SizeFrom(r.r2, j);
    SizeConcat(r.r2[..j], r.r2);
  }

  lemma LoopStart(r: Run, j: nat)
    requires Looped(r, j)
    ensures ZeroOver(r, 0, 0)
  {
    hide Looped, Scored, Running, Framed, TableWalk, Ref, OnEdge, Pos, Start, Seen;
    LoopRows(r, j);
    LoopPlaces(r, j);
    ScoredParts(r);
    FirstPlace(r.w1, r.v1, r.r1);
    FirstPlace(r.w2, r.v2, r.r2);
    RowPositions(r.w1, r.v1, r.r1, 0);
    RowPositions(r.w2, r.v2, r.r2, 0);
    RowPositions(r.w2, r.v2, r.r2, j - 1);
    EqualRows(r, 0, 0);
    SeenLater(r, 1, 1, r.N1() + 1 - 2 * r.K1(), Pos(r.r2, j - 1));
  }

  lemma {:induction false} LoopRise(r: Run, j: nat, i: nat)
    requires Looped(r, j) && i < j
    ensures ZeroOver(r, i, i)
  {
    hide Looped, Scored, ZeroOver;
    LoopRows(r, j);
    if i == 0 {
      LoopStart(r, j);
    } else {
      LoopRise(r, j, i - 1);
      ZeroNext(r, i, i);
    }
  }

  /** The repeated first row refers back to the end of what was repeated. */
  lemma LoopTurn(r: Run, j: nat)
    requires Looped(r, j)
    ensures ZeroOver(r, j, 0)
  {
    hide Looped, Scored, Running, Framed, TableWalk, Ref, OnEdge, Pos, Start, Seen;
    LoopRows(r, j);
    LoopPlaces(r, j);
    LoopRise(r, j, j - 1);
    ScoredParts(r);
    FirstPlace(r.w2, r.v2, r.r2);
    RowPositions(r.w1, r.v1, r.r1, j);
    RowPositions(r.w2, r.v2, r.r2, 0);
    EqualRows(r, j, 0);
    SeenEarlier(r, Pos(r.r1, j), 1, Pos(r.r1, j - 1), Pos(r.r2, j - 1));
  }

  lemma {:induction false} LoopChain(r: Run, j: nat, i: nat)
    requires Looped(r, j) && i < |r.r2|
    ensures ZeroOver(r, j + i, i)
    decreases i
  {
    hide Looped, Scored, ZeroOver;
    LoopRows(r, j);
    if i == 0 {
      LoopTurn(r, j);
    } else {
      LoopChain(r, j, i - 1);
      ZeroNext(r, j + i, i);
    }
  }

  lemma LoopIsFree(r: Run, j: nat)
    requires Looped(r, j)
    ensures Framed(r) && r.fd[r.H()][r.W()] == 0.0
  {
    hide Looped, Scored, ZeroOver, Framed;
    LoopRows(r, j);
    LoopChain(r, j, |r.r2| - 1);
    LastZero(r);
  }

  // ----- for grids -----

  /** The rows of the tree from j on, as a table without a header. */
  function CutAt(g: Grid, j: nat): Grid
    requires HeaderRows(g) <= j <= RowCount(g)
  {
    Grid([], g.rows[j - HeaderRows(g)..])
  }

  lemma RowTreesFrom(norm: string -> string, rows: seq<seq<string>>, k: nat)
    requires k <= |rows|
    ensures RowTrees(norm, rows[k..]) == RowTrees(norm, rows)[k..]
  {
    hide RowTrees, Cells;
    forall i | 0 <= i < |rows| - k ensures RowTrees(norm, rows[k..])[i] == RowTrees(norm, rows)[k + i] {
      assert rows[k..][i] == rows[k + i];
    }
  }

  lemma DropBeyond<T>(a: seq<T>, b: seq<T>, j: nat)
    requires |a| <= j < |a| + |b|
    ensures (a + b)[j..] == b[j - |a|..] && (a + b)[j] == b[j - |a|]
  {
  }

  lemma CutRows(norm: string -> string, g: Grid, j: nat)
    requires 1 <= j < RowCount(g)
    ensures var c := BuildTree(norm, g).children;
      && |c| == RowCount(g) && BuildTree(norm, CutAt(g, j)).children == c[j..]
      && |FirstRow(CutAt(g, j))| == |c[j].children|
  {
    hide RowTrees;
    var h, rs, k := HeaderTrees(norm, g.headers), RowTrees(norm, g.rows), j - HeaderRows(g);
    assert |h| == HeaderRows(g) && CutAt(g, j).rows == g.rows[k..];
    RowTreesFrom(norm, g.rows, k);
    DropBeyond(h, rs, j);
    assert FirstRow(CutAt(g, j)) == g.rows[k];
  }

  /** Cut down to row j the table is at distance zero from the whole. */
  lemma CutIsFree(norm: string -> string, g: Grid, j: nat)
    requires var c := BuildTree(norm, g).children;
      && Size([BuildTree(norm, g)]) + 1 >= 2 * |FirstRow(g)|
      && (MayStartAt(c, j) || (j == 1 && StandsTwice(c)))
    ensures 1 <= j < RowCount(g)
    ensures CodeDistance(BuildTree(norm, CutAt(g, j)), BuildTree(norm, g)) == Some(0.0)
    ensures BuildTree(norm, CutAt(g, j)) != BuildTree(norm, g)
  {
    hide CodeDistance, Size, FirstRow, BuildTree, CutAt;
    RowsOf(norm, g);
    CutRows(norm, g, j);
    var a, c := CutAt(g, j), BuildTree(norm, g).children;
    SizeOfTree(BuildTree(norm, a));
    CodeDistanceDefined(norm, a, g);
    CutRun(norm, g, a, j);
  }

  lemma CutRun(norm: string -> string, g: Grid, a: Grid, j: nat)
    requires CodeDistance(BuildTree(norm, a), BuildTree(norm, g)).Some?
    requires var c := BuildTree(norm, g).children;
      && 1 <= j < |c| && BuildTree(norm, a).children == c[j..] && |FirstRow(a)| == |c[j].children| >= 1
      && (MayStartAt(c, j) || (j == 1 && StandsTwice(c)))
    ensures CodeDistance(BuildTree(norm, a), BuildTree(norm, g)) == Some(0.0)
  {
    hide BuildTree, CodeDistance, Size, FirstRow, Scored, HasHeader, DataBelow;
    SizeOfTree(BuildTree(norm, a));
    var r := GridRun(norm, a, g);
    var front := r.r2[..j];
    assert r.r2 == front + r.r1;
    assert j == 1 ==> front == [r.r2[0]];
    assert Fronted(r, front);
    FrontIsFree(r, front);
  }

  /** The rows above j written twice, as a table without a header. */
  function Again(g: Grid, j: nat): Grid
    requires j <= |g.rows|
  {
    Grid([], g.rows[..j] + g.rows)
  }

  lemma AgainRows(norm: string -> string, g: Grid, j: nat)
    requires MayRepeat(BuildTree(norm, g).children, j)
    ensures g.headers == [] && 1 <= j <= |g.rows|
    ensures var c := BuildTree(norm, g).children; BuildTree(norm, Again(g, j)).children == c[..j] + c
    ensures FirstRow(Again(g, j)) == FirstRow(g)
    ensures Size([BuildTree(norm, Again(g, j))]) >= Size([BuildTree(norm, g)])
  {
    GridRows(norm, g);
    var t, u := BuildTree(norm, g), BuildTree(norm, Again(g, j));
    var c := t.children;
    assert u.children == c[..j] + c;
    hide Size;
    SizeOfTree(t);
    SizeOfTree(u);
    SizeConcat(c[..j], c);
  }

  lemma AgainIsFree(norm: string -> string, g: Grid, j: nat)
    requires Size([BuildTree(norm, g)]) + 1 >= 2 * |FirstRow(g)| && MayRepeat(BuildTree(norm, g).children, j)
    ensures 1 <= j <= |g.rows|
    ensures CodeDistance(BuildTree(norm, Again(g, j)), BuildTree(norm, g)) == Some(0.0)
    ensures BuildTree(norm, Again(g, j)) != BuildTree(norm, g)
  {
    hide BuildTree, CodeDistance, Size, FirstRow, Again, Scored, HasHeader, DataBelow;
    AgainRows(norm, g, j);
    CodeDistanceDefined(norm, Again(g, j), g);
    var r := GridRun(norm, Again(g, j), g);
    assert Looped(r, j);
    hide Looped;
    LoopIsFree(r, j);
  }

  lemma ZeroGridEchoes(norm: string -> string, a: Grid, g: Grid)
    requires CodeDistance(BuildTree(norm, a), BuildTree(norm, g)) == Some(0.0)
    ensures BuildTree(norm, a) == BuildTree(norm, g) || Echoes(BuildTree(norm, g).children)
    ensures Size([BuildTree(norm, g)]) + 1 >= 2 * |FirstRow(g)|
  {
    hide CodeDistance, Size, FirstRow, Scored, HasHeader, DataBelow, Echoes;
    CodeDistanceDefined(norm, a, g);
    var r := GridRun(norm, a, g);
    ZeroEchoes(r);
  }

  /** Some different table given first is at distance zero from this one, and so scores 1
      against it, exactly when the table can be scored and its rows echo: they may start at
      a later row, or with one copy of a doubled first row, or be repeated from the top. */
  lemma SecondSeparationFailsIff(norm: string -> string, g: Grid)
    ensures (exists a: Grid ::
               && CodeDistance(BuildTree(norm, a), BuildTree(norm, g)) == Some(0.0)
               && BuildTree(norm, a) != BuildTree(norm, g))
       <==> Size([BuildTree(norm, g)]) + 1 >= 2 * |FirstRow(g)| && Echoes(BuildTree(norm, g).children)
  {
    hide BuildTree, CodeDistance, Size, FirstRow, MayStartAt, StandsTwice, MayRepeat;
    var c := BuildTree(norm, g).children;
    if Size([BuildTree(norm, g)]) + 1 >= 2 * |FirstRow(g)| && Echoes(c) {
      if StandsTwice(c) {
        CutIsFree(norm, g, 1);
      } else if j :| MayStartAt(c, j) {
        StartIsRow(c, j);
        CutIsFree(norm, g, j);
      } else {
        var j :| MayRepeat(c, j);
        RepeatIsRow(c, j);
        AgainIsFree(norm, g, j);
      }
    }
    if a: Grid :|
        && CodeDistance(BuildTree(norm, a), BuildTree(norm, g)) == Some(0.0)
        && BuildTree(norm, a) != BuildTree(norm, g) {
      ZeroGridEchoes(norm, a, g);
    }
  }

  lemma StartIsRow(rows: Forest, j: int)
    requires MayStartAt(rows, j)
    ensures 1 <= j
  {
  }

  lemma RepeatIsRow(rows: Forest, j: int)
    requires MayRepeat(rows, j)
    ensures 1 <= j
  {
  }

  /** One row of two cells: a prediction that writes it twice is at distance zero. */
  lemma WrittenTwiceExample(norm: string -> string, x: string, y: string)
    ensures var once, twice := BuildTree(norm, Grid([], [[x, y]])), BuildTree(norm, Grid([], [[x, y], [x, y]]));
      twice != once && CodeDistance(twice, once) == Some(0.0)
  {
    var g := Grid([], [[x, y]]);
    OneRowTree(norm, [x, y]);
    EmptySize(BuildTree(norm, g).children[1..]);
    GridRows(norm, g);
    assert MayRepeat(BuildTree(norm, g).children, 1);
    assert Again(g, 1) == Grid([], [[x, y], [x, y]]);
    hide BuildTree, CodeDistance, Size;
    AgainIsFree(norm, g, 1);
  }
}
