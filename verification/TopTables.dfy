/** The last forest table of a run on two tables, the one the answer is read from: its
    equations, and where its references go when the root records its first row. */
module TopTables {
  import opened Options
  import opened TreeEdit
  import opened Postorder
  import opened ForestSlices
  import opened KeyrootTables
  import opened KeyrootCorrect
  import opened KeyrootLaws
  import opened FinalTables
  import opened BelowRoot
  import opened TableScore
  import opened TableWalks

  // ----- positions in one table -----

  lemma StartStep(rows: Forest, i: nat)
    requires i < |rows|
    ensures Start(rows, i + 1) == Start(rows, i) + Size([rows[i]]) && Size([rows[i]]) >= 1
  {
    ThreeParts(rows, i);
    SizeConcat(rows[..i], [rows[i]]);
    SizeOfTree(rows[i]);
  }

  lemma {:induction false} StartsGrow(rows: Forest, i: nat, j: nat)
    requires i <= j <= |rows|
    ensures Start(rows, i) + (j - i) <= Start(rows, j) <= Size(rows)
    decreases |rows| - i
  {
    if i < j {
      StartStep(rows, i);
      hide Size;
      StartsGrow(rows, i + 1, j);
    } else if j < |rows| {
      StartStep(rows, j);
      hide Size;
      StartsGrow(rows, j + 1, |rows|);
    } else {
      assert rows[..j] == rows;
    }
  }

  lemma {:induction false} FindRow(rows: Forest, x: int, m: nat) returns (i: nat)
    requires m <= |rows| && 1 <= x <= Start(rows, m)
    ensures i < m && Start(rows, i) < x <= Start(rows, i + 1)
    decreases m
  {
    if m == 0 {
      assert false;
    } else {
      hide Size;
      if Start(rows, m - 1) < x {
        return m - 1;
      }
      i := FindRow(rows, x, m - 1);
    }
  }

  lemma FirstRowWidth(w: Walk, v: Walk, rows: Forest)
    requires TableWalk(w, v, rows)
    ensures Start(rows, 0) == 0 && Start(rows, |rows|) == Size(rows) == |w.nodes| - 1
    ensures rows != [] ==> Start(rows, 1) == FirstWidth(rows) + 1 && FirstWidth(rows) + 2 <= |w.nodes|
    ensures FirstWidth(rows) < |w.nodes|
  {
    assert rows[..0] == [] && rows[..|rows|] == rows;
    if rows != [] {
      assert RowAt(w, rows, 0);
      hide Size, RowAt, Sound;
      StartsGrow(rows, 1, |rows|);
    }
  }

  /** A node below the root: a row, or a cell of one. */
  lemma NodeKinds(w: Walk, v: Walk, rows: Forest, x: int) returns (i: nat)
    requires TableWalk(w, v, rows) && 1 <= x < |w.nodes|
    ensures i < |rows| && RowAt(w, rows, i) && Start(rows, i) < x <= Start(rows, i + 1)
    ensures x < Start(rows, i + 1) ==> CellAt(w, rows[i], Start(rows, i), x)
  {
    FirstRowWidth(w, v, rows);
    hide Size, Sound, CellAt;
    i := FindRow(rows, x, |rows|);
    assert RowAt(w, rows, i);
  }

  /** Where the root's range starts, which nodes share its index, and where a node of the
      range refers back to. */
  lemma Geometry(w: Walk, v: Walk, rows: Forest, d: int)
    requires TableWalk(w, v, rows) && 1 <= d <= |w.nodes| - FirstWidth(rows)
    ensures var n, k := |w.nodes|, FirstWidth(rows);
      && IndexAt(w.first, n) == k + 1
      && (IndexAt(w.first, k + d) == k + 1 <==> d == n - k || (k == 0 && d == 1))
      && Back(w, n, k + d) == (if d == n - k then 0
                               else if k >= 1 && d == 1 then n + 1 - 2 * k
                               else IndexAt(w.first, k + d) - k - 1)
      && (d < n - k && !(k >= 1 && d == 1) ==> k + 1 <= IndexAt(w.first, k + d) <= k + d)
  {
    var n, k := |w.nodes|, FirstWidth(rows);
    FirstRowWidth(w, v, rows);
    if d < n - k {
      var i := NodeKinds(w, v, rows, k + d);
      hide Size, Sound;
      if i >= 1 {
        StartsGrow(rows, 1, i);
      }
    }
  }

  // ----- the last forest table -----

  /** A finished run on two tables with its last forest table. */
  datatype Run = Run(w1: Walk, v1: Walk, r1: Forest, w2: Walk, v2: Walk, r2: Forest, td: Table, fd: Table) {
    function N1(): nat { |w1.nodes| }
    function N2(): nat { |w2.nodes| }
    function K1(): nat { FirstWidth(r1) }
    function K2(): nat { FirstWidth(r2) }
    function H(): int { N1() - K1() }
    function W(): int { N2() - K2() }
  }

  ghost predicate Running(r: Run) {
    && TableWalk(r.w1, r.v1, r.r1) && TableWalk(r.w2, r.v2, r.r2)
    && Walks(r.w1, r.w2) && Finished(r.w1, r.w2, r.td)
    && 1 <= r.H() && 1 <= r.W()
    && Solves(Job(r.w1, r.w2, r.N1(), r.N2()), r.td, r.fd)
  }

  /** Shapes and borders of the last table. */
  ghost predicate Framed(r: Run) {
    && 1 <= r.H() && 1 <= r.W()
    && Shape(r.fd, r.H() + 1, r.W() + 1) && Shape(r.td, r.N1() + 1, r.N2() + 1)
    && (forall a :: 0 <= a <= r.H() ==> r.fd[a][0] == a as real)
    && (forall b :: 0 <= b <= r.W() ==> r.fd[0][b] == b as real)
    && (forall a, b :: 0 <= a <= r.H() && 0 <= b <= r.W() ==> 0.0 <= r.fd[a][b] <= a as real + b as real)
    && (forall x, y :: 0 <= x <= r.N1() && 0 <= y <= r.N2() ==> r.td[x][y] >= 0.0)
  }

  /** Where row d of a table's range refers back to; the wrapped reference of the first
      row counts from the end. */
  function Ref(w: Walk, k: nat, d: int): int
    requires |w.nodes| == |w.first| && 1 <= d <= |w.nodes| - k
  {
    if d == |w.nodes| - k then 0
    else if k >= 1 && d == 1 then |w.nodes| + 1 - 2 * k
    else IndexAt(w.first, k + d) - k - 1
  }

  predicate OnEdge(w: Walk, k: nat, d: int) {
    d == |w.nodes| - k || (k == 0 && d == 1)
  }

  function Third(r: Run, a: int, b: int): real
    requires |r.w1.nodes| == |r.w1.first| && |r.w2.nodes| == |r.w2.first| && 0 <= r.H() && 0 <= r.W()
    requires Shape(r.fd, r.H() + 1, r.W() + 1) && Shape(r.td, r.N1() + 1, r.N2() + 1)
    requires 1 <= a <= r.H() && 1 <= b <= r.W()
  {
    if OnEdge(r.w1, r.K1(), a) && OnEdge(r.w2, r.K2(), b) then
      r.fd[a - 1][b - 1] + Rename(NodeAt(r.w1.nodes, r.K1() + a), NodeAt(r.w2.nodes, r.K2() + b))
    else
      Seen(r.fd, a, b, Ref(r.w1, r.K1(), a), Ref(r.w2, r.K2(), b)) + r.td[r.K1() + a][r.K2() + b]
  }

  ghost predicate CellHolds(r: Run, a: int, b: int) {
    && Framed(r) && 1 <= a <= r.H() && 1 <= b <= r.W()
    && |r.w1.nodes| == |r.w1.first| && |r.w2.nodes| == |r.w2.first|
    && r.fd[a][b] == Cheapest(r.fd[a - 1][b], r.fd[a][b - 1], Third(r, a, b))
  }

  lemma RunFramed(r: Run)
    requires Running(r)
    ensures Framed(r) && |r.w1.nodes| == |r.w1.first| && |r.w2.nodes| == |r.w2.first|
  {
    hide TableWalk, Finished, Obeys;
    RootRow(r);
  }

  lemma RootRow(r: Run)
    requires Running(r)
    ensures Job(r.w1, r.w2, r.N1(), r.N2()).Valid()
    ensures Job(r.w1, r.w2, r.N1(), r.N2()).Left1() == r.K1() + 1 && Job(r.w1, r.w2, r.N1(), r.N2()).Left2() == r.K2() + 1
    ensures NonNegative(r.td)
  {
    hide RowAt, Sound, Nested, Kept, Solves;
  }

  lemma RunObeys(r: Run, a: int, b: int)
    requires Running(r) && 1 <= a <= r.H() && 1 <= b <= r.W()
    ensures var job := Job(r.w1, r.w2, r.N1(), r.N2());
      && job.Valid() && job.Fits(State(r.fd, r.td)) && a <= job.Height() && b <= job.Width()
      && Obeys(job, r.td, r.fd, a, b)
  {
    hide TableWalk, Finished, Obeys;
    RootRow(r);
  }

  lemma RunWalks(r: Run)
    requires Running(r)
    ensures TableWalk(r.w1, r.v1, r.r1) && TableWalk(r.w2, r.v2, r.r2) && Walks(r.w1, r.w2)
  {
    hide TableWalk, Finished, Solves;
  }

  lemma CellEquation(r: Run, a: int, b: int)
    requires Running(r) && 1 <= a <= r.H() && 1 <= b <= r.W()
    ensures CellHolds(r, a, b)
  {
    hide Running, TableWalk, Framed, Rename, Cheapest, Seen, Bounded;
    RunFramed(r);
    RunWalks(r);
    RootRow(r);
    RunObeys(r, a, b);
    Geometry(r.w1, r.v1, r.r1, a);
    Geometry(r.w2, r.v2, r.r2, b);
  }

  // ----- what the tree table holds -----

  lemma BelowIsDist(r: Run, x: int, y: int)
    requires Running(r) && 1 <= x < r.N1() && 1 <= y < r.N2()
    ensures Framed(r) && r.td[x][y] == TreeCell(r.w1, r.w2, x, y)
  {
    RunFramed(r);
    hide Sound, RowAt, Nested, Finished, Solves, TreeCell, Framed;
    BelowExact(r.w1, r.w2, r.v1, r.v2, r.td, x, y);
  }

  lemma NodeTag(w: Walk, v: Walk, rows: Forest, x: int, i: nat)
    requires TableWalk(w, v, rows) && 1 <= x < |w.nodes| && i < |rows|
    requires RowAt(w, rows, i) && Start(rows, i) < x <= Start(rows, i + 1)
    ensures x == Start(rows, i + 1) ==> NodeAt(w.nodes, x).tag == Row
    ensures x < Start(rows, i + 1) ==> NodeAt(w.nodes, x).tag in {Header, Data}
  {
    assert rows[i] in rows;
    hide Sound, Size;
    if x < Start(rows, i + 1) {
      assert CellAt(w, rows[i], Start(rows, i), x);
      assert rows[i].children[x - Start(rows, i) - 1] in rows[i].children;
    }
  }

  /** Matching a root with anything below the other root costs a whole edit. */
  lemma EdgeOfTags(job: Job, td: Table, fd: Table, x: int, y: int)
    requires Spans(job.w1, job.w2, td, x, y, job, fd)
    requires x <= |job.w1.nodes| && y <= |job.w2.nodes|
    requires NodeAt(job.w1.nodes, x).tag != NodeAt(job.w2.nodes, y).tag
    ensures |td| > x && |td[x]| > y && td[x][y] >= 1.0
  {
    SpansValue(job, td, fd, x, y);
    var a, b := x - job.Left1() + 1, y - job.Left2() + 1;
    assert Obeys(job, td, fd, a, b);
    assert OnEdge1(job, x) && OnEdge2(job, y);
    assert Rename(NodeAt(job.w1.nodes, x), NodeAt(job.w2.nodes, y)) == 1.0;
  }

  lemma RootPairs(r: Run, x: int, y: int)
    requires Running(r) && 1 <= x <= r.N1() && 1 <= y <= r.N2()
    requires x == r.N1() <==> y != r.N2()
    ensures Framed(r) && r.td[x][y] >= 1.0
  {
    RunFramed(r);
    if x < r.N1() {
      var i := NodeKinds(r.w1, r.v1, r.r1, x);
      NodeTag(r.w1, r.v1, r.r1, x, i);
    } else {
      var i := NodeKinds(r.w2, r.v2, r.r2, y);
      NodeTag(r.w2, r.v2, r.r2, y, i);
    }
    hide Sound, RowAt, Nested, Finished, Solves, Framed;
    var job, fd := TableOf(r.w1, r.w2, r.td, x, y);
    hide Spans;
    EdgeOfTags(job, r.td, fd, x, y);
  }

  // ----- running two tables -----

  lemma WalkNests(w: Walk, v: Walk, rows: Forest)
    requires TableWalk(w, v, rows)
    ensures Nested(w)
  {
  }

  /** A run of two tables that does not stop on an index, and the cell it returns. */
  lemma TableRun(t: Tree, u: Tree) returns (r: Run)
    requires Tabular(t) && Tabular(u) && CodeDistance(t, u).Some?
    ensures Running(r) && Framed(r)
    ensures r.w1 == CodeWalk(t) && r.w2 == CodeWalk(u) && r.r1 == t.children && r.r2 == u.children
    ensures r.v1 == TrueWalk(t) && r.v2 == TrueWalk(u)
    ensures r.N1() == Size([t]) && r.N2() == Size([u])
    ensures CodeDistance(t, u) == Some(r.fd[r.H()][r.W()])
  {
    hide CodeWalk, TrueWalk, Distance, Tabular, Size, TableWalk, Finished, Running, Framed, Solves, Spans;
    CodeTableWalk(t);
    CodeTableWalk(u);
    CodeWalkBounded(t);
    CodeWalkBounded(u);
    var w1, w2 := CodeWalk(t), CodeWalk(u);
    WalkNests(w1, TrueWalk(t), t.children);
    WalkNests(w2, TrueWalk(u), u.children);
    var td := RunFinishes(w1, w2);
    var job, fd := TableOf(w1, w2, td, |w1.nodes|, |w2.nodes|);
    r := Run(w1, TrueWalk(t), t.children, w2, TrueWalk(u), u.children, td, fd);
    LastSpans(r, job);
    SpansValue(job, td, fd, |w1.nodes|, |w2.nodes|);
    RunFramed(r);
  }

  lemma LastSpans(r: Run, job: Job)
    requires TableWalk(r.w1, r.v1, r.r1) && TableWalk(r.w2, r.v2, r.r2)
    requires Walks(r.w1, r.w2) && Finished(r.w1, r.w2, r.td)
    requires Spans(r.w1, r.w2, r.td, |r.w1.nodes|, |r.w2.nodes|, job, r.fd)
    ensures Running(r) && job == Job(r.w1, r.w2, r.N1(), r.N2())
    ensures job.Valid() && job.Height() == r.H() && job.Width() == r.W()
  {
    hide Sound, RowAt, Nested, Solves, Finished, Size;
    FirstRowWidth(r.w1, r.v1, r.r1);
    FirstRowWidth(r.w2, r.v2, r.r2);
    assert job == Job(r.w1, r.w2, job.i, job.j);
  }

  // ----- row positions -----

  /** The place of row i's own node in the root's range. */
  function Pos(rows: Forest, i: nat): int
    requires i < |rows|
  {
    Start(rows, i + 1) - FirstWidth(rows)
  }

  lemma RowOf(w: Walk, v: Walk, rows: Forest, i: nat)
    requires TableWalk(w, v, rows) && i < |rows|
    ensures RowAt(w, rows, i) && |w.first| == |w.nodes|
  {
    hide RowAt, Size, Sound;
  }

  lemma RowPositions(w: Walk, v: Walk, rows: Forest, i: nat)
    requires TableWalk(w, v, rows) && i < |rows|
    ensures 1 <= Pos(rows, i) < |w.nodes| - FirstWidth(rows)
    ensures i == 0 ==> Pos(rows, i) == 1
    ensures i >= 1 ==> Pos(rows, i - 1) + |rows[i].children| + 1 == Pos(rows, i)
    ensures NodeAt(w.nodes, FirstWidth(rows) + Pos(rows, i)) == rows[i]
    ensures i >= 1 ==> Ref(w, FirstWidth(rows), Pos(rows, i)) == Pos(rows, i - 1) && !OnEdge(w, FirstWidth(rows), Pos(rows, i))
    ensures i == |rows| - 1 ==> Pos(rows, i) == |w.nodes| - FirstWidth(rows) - 1
  {
    hide TableWalk, Size, CellAt;
    FirstRowWidth(w, v, rows);
    RowOf(w, v, rows, i);
    StartsGrow(rows, 1, i + 1);
    StartsGrow(rows, i + 1, |rows|);
    if i >= 1 {
      RowOf(w, v, rows, i - 1);
      StartsGrow(rows, 1, i);
    }
  }

  /** A node of the root's range that carries the row tag is a row. */
  lemma RowByTag(w: Walk, v: Walk, rows: Forest, d: int) returns (i: nat)
    requires TableWalk(w, v, rows) && 1 <= d < |w.nodes| - FirstWidth(rows)
    requires NodeAt(w.nodes, FirstWidth(rows) + d).tag == Row
    ensures i < |rows| && d == Pos(rows, i)
  {
    i := NodeKinds(w, v, rows, FirstWidth(rows) + d);
    NodeTag(w, v, rows, FirstWidth(rows) + d, i);
  }

  /** The first row's own place, when it is blank and when it is not. */
  lemma FirstPlace(w: Walk, v: Walk, rows: Forest)
    requires TableWalk(w, v, rows) && rows != []
    ensures 2 <= |w.nodes| - FirstWidth(rows) && Pos(rows, 0) == 1
    ensures OnEdge(w, FirstWidth(rows), 1) <==> FirstWidth(rows) == 0
    ensures FirstWidth(rows) == 0 ==> Ref(w, 0, 1) == 0
    ensures FirstWidth(rows) >= 1 ==> Ref(w, FirstWidth(rows), 1) == |w.nodes| + 1 - 2 * FirstWidth(rows)
  {
    RowPositions(w, v, rows, 0);
    assert RowAt(w, rows, 0);
    FirstRowWidth(w, v, rows);
  }

  /** A reference to an earlier line, or to the left border, sees the final cell. */
  lemma SeenEarlier(r: Run, a: int, b: int, q: int, p: int)
    requires Framed(r) && 0 <= q <= r.H() && 0 <= p <= r.W() && 1 <= a && (q < a || p == 0)
    ensures Seen(r.fd, a, b, q, p) == r.fd[q][p]
  {
  }

  /** A reference to a later line, off the left border, sees the initial zero. */
  lemma SeenLater(r: Run, a: int, b: int, q: int, p: int)
    requires 1 <= a < q && 1 <= p
    ensures Seen(r.fd, a, b, q, p) == 0.0
  {
  }

  /** A cell of a later row refers to the place before it. */
  lemma CellPlace(w: Walk, v: Walk, rows: Forest, i: nat, s: int)
    requires TableWalk(w, v, rows) && 1 <= i < |rows| && 1 <= s <= |rows[i].children|
    ensures 1 <= Pos(rows, i - 1) && Pos(rows, i - 1) + s < |w.nodes| - FirstWidth(rows)
    ensures var d := Pos(rows, i - 1) + s;
      && !OnEdge(w, FirstWidth(rows), d) && Ref(w, FirstWidth(rows), d) == d - 1
      && NodeAt(w.nodes, FirstWidth(rows) + d) == rows[i].children[s - 1]
  {
    RowPositions(w, v, rows, i - 1);
    RowPositions(w, v, rows, i);
    assert RowAt(w, rows, i);
    hide Size, Sound;
    assert CellAt(w, rows[i], Start(rows, i), Start(rows, i) + s);
  }
}
