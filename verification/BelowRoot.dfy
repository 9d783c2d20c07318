/** A recorded walk whose indices are the documented ones below the root: the finished
    tree table is exact on every pair of nodes below the roots. */
module BelowRoot {
  import opened TreeEdit
  import opened Postorder
  import opened ForestSlices
  import opened KeyrootTables
  import opened KeyrootCorrect
  import opened FinalTables

  /** v is the documented walk of the same nodes, and w differs from it at the root only. */
  ghost predicate Documented(w: Walk, v: Walk) {
    && Bounded(w) && Sound(v) && w.nodes == v.nodes
    && forall x :: 1 <= x < |w.nodes| ==> IndexAt(w.first, x) == IndexAt(v.first, x)
  }

  lemma NestedBelow(w: Walk, v: Walk, x: int)
    requires Documented(w, v) && 1 <= x < |w.nodes|
    ensures 1 <= IndexAt(w.first, x) <= x
    ensures forall k :: IndexAt(w.first, x) <= k <= x ==> IndexAt(w.first, x) <= IndexAt(w.first, k) <= k
  {
    assert IndexAt(w.first, x) == IndexAt(v.first, x);
    forall k | IndexAt(w.first, x) <= k <= x ensures IndexAt(w.first, x) <= IndexAt(w.first, k) <= k {
      IndexInside(v, x, k);
      assert IndexAt(w.first, k) == IndexAt(v.first, k);
    }
  }

  lemma SizeBelow(w: Walk, v: Walk, x: int)
    requires Documented(w, v) && 1 <= x < |w.nodes|
    ensures Size([NodeAt(w.nodes, x)]) == x - IndexAt(w.first, x) + 1
  {
    NestedBelow(w, v, x);
    assert IndexAt(w.first, x) == IndexAt(v.first, x);
    hide Size;
    SliceOfTree(v, x);
    forall k | IndexAt(v.first, x) <= k <= x ensures IndexAt(v.first, x) <= IndexAt(v.first, k) {
      IndexInside(v, x, k);
    }
    SizeOfSlice(v, IndexAt(v.first, x), x);
  }

  /** A finished forest table that holds the pair (x, y) on its left and top edges. */
  ghost predicate Spans(w1: Walk, w2: Walk, td: Table, x: int, y: int, job: Job, fd: Table) {
    && job.w1 == w1 && job.w2 == w2 && job.Valid() && Solves(job, td, fd)
    && 1 <= x <= job.i && 1 <= y <= job.j
    && job.Left1() == IndexAt(w1.first, x) && job.Left2() == IndexAt(w2.first, y)
  }

  lemma TableOf(w1: Walk, w2: Walk, td: Table, x: int, y: int) returns (job: Job, fd: Table)
    requires Walks(w1, w2) && Finished(w1, w2, td)
    requires 1 <= x <= |w1.nodes| && 1 <= y <= |w2.nodes|
    ensures Spans(w1, w2, td, x, y, job, fd)
  {
    hide Solves;
    var i := KeyrootAbove(w1, x);
    var j := KeyrootAbove(w2, y);
    assert Kept(w1, w2, i, j, td);
    fd :| Solves(Job(w1, w2, i, j), td, fd);
    job := Job(w1, w2, i, j);
    assert SameIndex(w1, i, x) && SameIndex(w2, j, y);
  }

  /** Below the roots a cell's equation uses only earlier cells of the same table. */
  lemma BelowStep(job: Job, td: Table, fd: Table, v1: Walk, v2: Walk, x: int, y: int, a: int, b: int)
    requires Spans(job.w1, job.w2, td, x, y, job, fd)
    requires Documented(job.w1, v1) && Documented(job.w2, v2) && x < |v1.nodes| && y < |v2.nodes|
    requires 1 <= a <= x - job.Left1() + 1 && 1 <= b <= y - job.Left2() + 1
    ensures var ni, nj := job.Left1() + a - 1, job.Left2() + b - 1;
      var pi, pj := IndexAt(job.w1.first, ni) - job.Left1(), IndexAt(job.w2.first, nj) - job.Left2();
      && 0 <= pi < a && 0 <= pj < b && job.Fits(State(fd, td))
      && fd[a][b] == Cheapest(fd[a - 1][b], fd[a][b - 1],
                              if pi == 0 && pj == 0
                              then fd[a - 1][b - 1] + Rename(NodeAt(job.w1.nodes, ni), NodeAt(job.w2.nodes, nj))
                              else fd[pi][pj] + td[ni][nj])
  {
    NestedBelow(job.w1, v1, x);
    NestedBelow(job.w2, v2, y);
    assert job.Fits(State(fd, td));
    hide Solves, Rename, Cheapest, Documented;
    InnerStep(job, td, fd, a, b);
  }

  /** The edges of a covering table are the pair's value in the tree table. */
  lemma SpansValue(job: Job, td: Table, fd: Table, x: int, y: int)
    requires Spans(job.w1, job.w2, td, x, y, job, fd)
    ensures var a, b := x - job.Left1() + 1, y - job.Left2() + 1;
      && 1 <= a <= job.Height() && 1 <= b <= job.Width() && job.Fits(State(fd, td))
      && td[x][y] == fd[a][b]
      && (forall c :: 0 <= c <= job.Height() ==> fd[c][0] == c as real)
      && (forall c :: 0 <= c <= job.Width() ==> fd[0][c] == c as real)
  {
    hide Obeys;
    assert OnEdge1(job, x) && OnEdge2(job, y);
  }

  lemma DocJob(job: Job, v1: Walk, v2: Walk, x: nat, y: nat) returns (v: Job)
    requires job.Valid() && Documented(job.w1, v1) && Documented(job.w2, v2)
    requires 1 <= x < |v1.nodes| && 1 <= y < |v2.nodes|
    requires job.Left1() == IndexAt(job.w1.first, x) && job.Left2() == IndexAt(job.w2.first, y)
    ensures v == Job(v1, v2, x, y) && SoundJob(v)
    ensures v.Left1() == job.Left1() && v.Left2() == job.Left2()
  {
    assert Bounded(v1) && Bounded(v2);
    assert IndexAt(job.w1.first, x) == IndexAt(v1.first, x) && IndexAt(job.w2.first, y) == IndexAt(v2.first, y);
    hide Sound, Bounded;
    v := Job(v1, v2, x, y);
  }

  /** The same recurrence for the documented indices, in distances. */
  lemma BelowDistStep(job: Job, v: Job, a: int, b: int)
    requires job.Valid() && SoundJob(v) && Documented(job.w1, v.w1) && Documented(job.w2, v.w2)
    requires v.i < |v.w1.nodes| && v.j < |v.w2.nodes|
    requires v.Left1() == job.Left1() && v.Left2() == job.Left2()
    requires 1 <= a <= v.Height() && 1 <= b <= v.Width()
    ensures var ni, nj := job.Left1() + a - 1, job.Left2() + b - 1;
      var pi, pj := IndexAt(job.w1.first, ni) - job.Left1(), IndexAt(job.w2.first, nj) - job.Left2();
      && 0 <= pi < a && 0 <= pj < b
      && Dist(Left(v, a), Right(v, b)) ==
           Cheapest(Dist(Left(v, a - 1), Right(v, b)), Dist(Left(v, a), Right(v, b - 1)),
                    if pi == 0 && pj == 0
                    then Dist(Left(v, a - 1), Right(v, b - 1))
                         + Rename(NodeAt(job.w1.nodes, ni), NodeAt(job.w2.nodes, nj))
                    else Dist(Left(v, pi), Right(v, pj)) + TreeCell(job.w1, job.w2, ni, nj))
  {
    hide Dist, Rename, Slice, Sound, Left, Right, Cheapest;
    var ni, nj := job.Left1() + a - 1, job.Left2() + b - 1;
    assert IndexAt(job.w1.first, ni) == IndexAt(v.w1.first, ni) && IndexAt(job.w2.first, nj) == IndexAt(v.w2.first, nj);
    CellIsDistance(v, a, b);
    if OnEdge1(v, ni) && OnEdge2(v, nj) {
      EdgeCellIsDistance(v, a, b);
    }
  }

  lemma BelowBorder(v: Job, a: int, b: int)
    requires SoundJob(v) && 0 <= a <= v.Height() && 0 <= b <= v.Width() && (a == 0 || b == 0)
    ensures Dist(Left(v, a), Right(v, b)) == a as real + b as real
  {
    hide Dist, Left, Right;
    EdgeSizes(v, a, b);
    if a == 0 {
      DistEmpty(Left(v, a), Right(v, b));
    } else {
      DistEmpty(Right(v, b), Left(v, a));
    }
  }

  /** Cell (a, b) holds the distance of its two ranges. */
  ghost predicate Holds(v: Job, fd: Table, a: int, b: int) {
    && SoundJob(v) && 0 <= a <= v.Height() && 0 <= b <= v.Width()
    && a < |fd| && b < |fd[a]| && fd[a][b] == Dist(Left(v, a), Right(v, b))
  }

  /** Job and documented job of one pair of nodes below the roots. */
  ghost predicate Beside(job: Job, v: Job, td: Table, fd: Table) {
    && Walks(job.w1, job.w2) && Finished(job.w1, job.w2, td)
    && Documented(job.w1, v.w1) && Documented(job.w2, v.w2) && SoundJob(v)
    && v.i < |v.w1.nodes| && v.j < |v.w2.nodes|
    && Spans(job.w1, job.w2, td, v.i, v.j, job, fd)
    && v.Left1() == job.Left1() && v.Left2() == job.Left2()
  }

  lemma HoldsBorder(job: Job, v: Job, td: Table, fd: Table, a: int, b: int)
    requires Beside(job, v, td, fd) && 0 <= a <= v.Height() && 0 <= b <= v.Width() && (a == 0 || b == 0)
    ensures Holds(v, fd, a, b)
  {
    SpansValue(job, td, fd, v.i, v.j);
    hide Dist, Left, Right, Sound, Spans, Finished, Documented;
    BelowBorder(v, a, b);
  }

  /** The cells that (a, b) refers back to hold their distances, and so does the tree table. */
  ghost predicate Reads(job: Job, v: Job, td: Table, fd: Table, a: int, b: int, pi: int, pj: int) {
    && job.Valid() && job.Fits(State(fd, td)) && 1 <= a <= job.Height() && 1 <= b <= job.Width()
    && Holds(v, fd, a - 1, b) && Holds(v, fd, a, b - 1) && Holds(v, fd, a - 1, b - 1) && Holds(v, fd, pi, pj)
    && var ni, nj := job.Left1() + a - 1, job.Left2() + b - 1;
    && pi == IndexAt(job.w1.first, ni) - job.Left1() && pj == IndexAt(job.w2.first, nj) - job.Left2()
    && ((pi == 0 && pj == 0) || td[ni][nj] == TreeCell(job.w1, job.w2, ni, nj))
  }

  lemma HoldsStep(job: Job, v: Job, td: Table, fd: Table, a: int, b: int, pi: int, pj: int)
    requires Beside(job, v, td, fd) && 1 <= a <= v.Height() && 1 <= b <= v.Width()
    requires Reads(job, v, td, fd, a, b, pi, pj)
    ensures Holds(v, fd, a, b)
  {
    hide Dist, Slice, Sound, Left, Right, Rename, Cheapest, Finished, Documented, TreeCell, Bounded, Solves, Spans;
    BelowStep(job, td, fd, v.w1, v.w2, v.i, v.j, a, b);
    BelowDistStep(job, v, a, b);
  }

  /** (pi, pj) is what cell (a, b) of a covering table refers back to. */
  ghost predicate RefersTo(job: Job, v: Job, td: Table, fd: Table, a: int, b: int, pi: int, pj: int) {
    && job.Valid() && job.Fits(State(fd, td)) && v.Valid()
    && 1 <= a <= v.Height() && 1 <= b <= v.Width() && a <= job.Height() && b <= job.Width()
    && 0 <= pi < a && 0 <= pj < b
    && var ni, nj := job.Left1() + a - 1, job.Left2() + b - 1;
    && 1 <= ni <= v.i && 1 <= nj <= v.j && ni < |job.w1.nodes| && nj < |job.w2.nodes|
    && pi == IndexAt(job.w1.first, ni) - job.Left1() && pj == IndexAt(job.w2.first, nj) - job.Left2()
    && (ni == v.i && nj == v.j ==> pi == 0 && pj == 0)
  }

  lemma BelowBack(job: Job, v: Job, td: Table, fd: Table, a: int, b: int) returns (pi: int, pj: int)
    requires Beside(job, v, td, fd) && 1 <= a <= v.Height() && 1 <= b <= v.Width()
    ensures RefersTo(job, v, td, fd, a, b, pi, pj)
  {
    assert |job.w1.nodes| == |v.w1.nodes| && |job.w2.nodes| == |v.w2.nodes|;
    hide Sound, Rename, Cheapest, Finished, Documented;
    BelowStep(job, td, fd, v.w1, v.w2, v.i, v.j, a, b);
    pi := IndexAt(job.w1.first, job.Left1() + a - 1) - job.Left1();
    pj := IndexAt(job.w2.first, job.Left2() + b - 1) - job.Left2();
  }

  lemma RefersBack(job: Job, v: Job, td: Table, fd: Table, a: int, b: int, pi: int, pj: int)
    requires RefersTo(job, v, td, fd, a, b, pi, pj)
    ensures v.Valid() && 1 <= a <= v.Height() && 1 <= b <= v.Width() && 0 <= pi < a && 0 <= pj < b
  {
    hide Bounded, Shape;
  }

  lemma AllRead(job: Job, v: Job, td: Table, fd: Table, a: int, b: int, pi: int, pj: int)
    requires RefersTo(job, v, td, fd, a, b, pi, pj)
    requires Holds(v, fd, a - 1, b) && Holds(v, fd, a, b - 1) && Holds(v, fd, a - 1, b - 1) && Holds(v, fd, pi, pj)
    requires TreeRead(job, v, td, fd, a, b, pi, pj)
    ensures Reads(job, v, td, fd, a, b, pi, pj)
  {
    hide Holds, Bounded, Shape, TreeCell;
  }

  /** The tree cell that (a, b) reads, if it reads one, is exact. */
  ghost predicate TreeRead(job: Job, v: Job, td: Table, fd: Table, a: int, b: int, pi: int, pj: int)
    requires RefersTo(job, v, td, fd, a, b, pi, pj)
  {
    var ni, nj := job.Left1() + a - 1, job.Left2() + b - 1;
    (pi == 0 && pj == 0) || td[ni][nj] == TreeCell(job.w1, job.w2, ni, nj)
  }

  lemma {:induction false} BelowCells(job: Job, td: Table, fd: Table, v: Job, a: int, b: int)
    requires Beside(job, v, td, fd) && 0 <= a <= v.Height() && 0 <= b <= v.Width()
    ensures Holds(v, fd, a, b)
    decreases v.i + v.j, 0, a + b, 1
  {
    if a == 0 || b == 0 {
      HoldsBorder(job, v, td, fd, a, b);
    } else {
      hide Holds, Beside, Reads;
      var pi, pj := BelowReads(job, td, fd, v, a, b);
      HoldsStep(job, v, td, fd, a, b, pi, pj);
    }
  }

  lemma {:induction false} BelowReads(job: Job, td: Table, fd: Table, v: Job, a: int, b: int) returns (pi: int, pj: int)
    requires Beside(job, v, td, fd) && 1 <= a <= v.Height() && 1 <= b <= v.Width()
    ensures Reads(job, v, td, fd, a, b, pi, pj)
    decreases v.i + v.j, 0, a + b, 0
  {
    hide Holds, Finished, Documented, TreeCell, Bounded, Shape, Sound, Spans, Beside, Reads, TreeRead, RefersTo;
    pi, pj := BelowBack(job, v, td, fd, a, b);
    RefersBack(job, v, td, fd, a, b, pi, pj);
    BelowTreeRead(job, td, fd, v, a, b, pi, pj);
    BelowCells(job, td, fd, v, a - 1, b);
    BelowCells(job, td, fd, v, a, b - 1);
    BelowCells(job, td, fd, v, a - 1, b - 1);
    BelowCells(job, td, fd, v, pi, pj);
    AllRead(job, v, td, fd, a, b, pi, pj);
  }

  lemma {:induction false} BelowTreeRead(job: Job, td: Table, fd: Table, v: Job, a: int, b: int, pi: int, pj: int)
    requires Beside(job, v, td, fd) && RefersTo(job, v, td, fd, a, b, pi, pj)
    ensures TreeRead(job, v, td, fd, a, b, pi, pj)
    decreases v.i + v.j, 0, 0, 0
  {
    if !(pi == 0 && pj == 0) {
      hide Finished, Documented, TreeCell, Bounded, Shape, Sound, Spans;
      BelowExact(job.w1, job.w2, v.w1, v.w2, td, job.Left1() + a - 1, job.Left2() + b - 1);
    }
  }

  /** Below the two roots the finished table holds tree edit distances. */
  lemma {:induction false} BelowExact(w1: Walk, w2: Walk, v1: Walk, v2: Walk, td: Table, x: int, y: int)
    requires Walks(w1, w2) && Finished(w1, w2, td) && Documented(w1, v1) && Documented(w2, v2)
    requires 1 <= x < |w1.nodes| && 1 <= y < |w2.nodes|
    ensures td[x][y] == TreeCell(w1, w2, x, y)
    decreases x + y, 1, 0, 0
  {
    var job, fd := TableOf(w1, w2, td, x, y);
    SpansValue(job, td, fd, x, y);
    assert w1.nodes == v1.nodes && w2.nodes == v2.nodes;
    var v := DocJob(job, v1, v2, x, y);
    hide Dist, Slice, Sound, Spans, Finished, Documented;
    BelowCells(job, td, fd, v, v.Height(), v.Width());
    SliceOfTree(v1, x);
    SliceOfTree(v2, y);
  }
}
