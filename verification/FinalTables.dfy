/** The finished keyroot tables as a system of equations: every forest cell in terms of
    its neighbours and of what was in the table when it was filled, whatever the
    recorded indices. */
module FinalTables {
  import opened Options
  import opened TreeEdit
  import opened Postorder
  import opened ForestSlices
  import opened KeyrootTables
  import opened KeyrootCorrect
  import opened KeyrootLaws

  /** The row that node x of keyroot i's range sends its cell to; a negative index counts
      from the end of the list. */
  function Back(w: Walk, i: int, x: int): int
    requires Bounded(w) && 1 <= i <= |w.nodes| && 1 <= x <= |w.nodes|
  {
    var d := IndexAt(w.first, x) - IndexAt(w.first, i);
    if d >= 0 then d else d + (i - IndexAt(w.first, i) + 2)
  }

  /** What cell (a, b) held when (di, dj) was filled: its value, or the initial zero. */
  function Seen(fd: Table, di: int, dj: int, a: int, b: int): real {
    if 0 <= a < |fd| && 0 <= b < |fd[a]| && Filled(di, dj - 1, a, b) then fd[a][b] else 0.0
  }

  /** The third way to fill a cell: match the two roots, or two whole subtrees. */
  function Matched(job: Job, td: Table, fd: Table, di: int, dj: int): real
    requires job.Valid() && job.Fits(State(fd, td))
    requires 1 <= di <= job.Height() && 1 <= dj <= job.Width()
  {
    var ni, nj := job.Left1() + di - 1, job.Left2() + dj - 1;
    if OnEdge1(job, ni) && OnEdge2(job, nj) then
      fd[di - 1][dj - 1] + Rename(NodeAt(job.w1.nodes, ni), NodeAt(job.w2.nodes, nj))
    else
      Seen(fd, di, dj, Back(job.w1, job.i, ni), Back(job.w2, job.j, nj)) + td[ni][nj]
  }

  predicate Obeys(job: Job, td: Table, fd: Table, di: int, dj: int)
    requires job.Valid() && job.Fits(State(fd, td))
    requires 1 <= di <= job.Height() && 1 <= dj <= job.Width()
  {
    fd[di][dj] == Cheapest(fd[di - 1][dj], fd[di][dj - 1], Matched(job, td, fd, di, dj))
  }

  predicate Bordered(fd: Table) {
    && (forall a :: 0 <= a < |fd| && 0 < |fd[a]| ==> fd[a][0] == a as real)
    && (forall b :: 0 < |fd| && 0 <= b < |fd[0]| ==> fd[0][b] == b as real)
  }

  /** The forest table while it is filled: equations up to (di, dj), zeros beyond. */
  ghost predicate Partly(job: Job, td: Table, fd: Table, di: int, dj: int)
    requires job.Valid() && job.Fits(State(fd, td))
  {
    && Bordered(fd)
    && (forall a, b :: 1 <= a <= job.Height() && 1 <= b <= job.Width() ==>
          if Filled(di, dj, a, b) then Obeys(job, td, fd, a, b) else fd[a][b] == 0.0)
  }

  /** Tree cells written so far hold their forest cell; the others are as before. */
  ghost predicate Copied(job: Job, td: Table, s: State, di: int, dj: int)
    requires job.Valid() && job.Fits(s) && Shape(td, |job.w1.nodes| + 1, |job.w2.nodes| + 1)
  {
    forall x, y :: 0 <= x <= |job.w1.nodes| && 0 <= y <= |job.w2.nodes| ==>
      s.td[x][y] == if Written(job, di, dj, x, y) then s.fd[x - job.Left1() + 1][y - job.Left2() + 1] else td[x][y]
  }

  lemma ObeysLater(job: Job, td: Table, fd: Table, later: Table, di: int, dj: int, a: int, b: int)
    requires job.Valid() && job.Fits(State(fd, td)) && job.Fits(State(later, td))
    requires 1 <= a <= job.Height() && 1 <= b <= job.Width() && Filled(di, dj, a, b)
    requires forall x, y :: 0 <= x <= job.Height() && 0 <= y <= job.Width() && Filled(di, dj, x, y) ==>
               later[x][y] == fd[x][y]
    requires Obeys(job, td, fd, a, b)
    ensures Obeys(job, td, later, a, b)
  {
    hide Rename;
    var ni, nj := job.Left1() + a - 1, job.Left2() + b - 1;
    assert Filled(di, dj, a - 1, b) && Filled(di, dj, a, b - 1) && Filled(di, dj, a - 1, b - 1);
    var x, y := Back(job.w1, job.i, ni), Back(job.w2, job.j, nj);
    assert Filled(a, b - 1, x, y) ==> Filled(di, dj, x, y);
    assert Matched(job, td, fd, a, b) == Matched(job, td, later, a, b);
  }

  /** Reading a half-filled table: the border, a filled cell, or still zero. */
  lemma SeenIsRead(job: Job, td: Table, fd: Table, di: nat, dj: nat, a: int, b: int)
    requires job.Valid() && job.Fits(State(fd, td))
    requires 1 <= di <= job.Height() && 1 <= dj <= job.Width()
    requires Partly(job, td, fd, di, dj - 1)
    requires 0 <= a <= job.Height() && 0 <= b <= job.Width()
    ensures Seen(fd, di, dj, a, b) == fd[a][b]
  {
    hide Obeys;
  }

  /** A list index that does not fail is the row sent back to. */
  lemma BackIsIndex(w: Walk, i: int, x: int)
    requires Bounded(w) && 1 <= i <= |w.nodes| && 1 <= x <= |w.nodes|
    ensures var r := ListIndex(IndexAt(w.first, x) - IndexAt(w.first, i), i - IndexAt(w.first, i) + 2);
            r.Some? ==> r.value == Back(w, i, x) && 0 <= r.value < i - IndexAt(w.first, i) + 2
  {
  }

  lemma SeenAfterPut(fd: Table, di: nat, dj: nat, v: real, a: int, b: int)
    requires 1 <= di < |fd| && 1 <= dj < |fd[di]|
    ensures Seen(Put(fd, di, dj, v), di, dj, a, b) == Seen(fd, di, dj, a, b)
  {
  }

  lemma CellOnEdgeObeys(job: Job, td: Table, s: State, di: nat, dj: nat)
    requires job.Valid() && job.Fits(s) && Shape(td, |job.w1.nodes| + 1, |job.w2.nodes| + 1)
    requires 1 <= di <= job.Height() && 1 <= dj <= job.Width()
    requires OnEdge1(job, job.Left1() + di - 1) && OnEdge2(job, job.Left2() + dj - 1)
    ensures Cell(job, s, di, dj).Some?
    ensures var v := Cheapest(s.fd[di - 1][dj], s.fd[di][dj - 1], Matched(job, td, s.fd, di, dj));
            Cell(job, s, di, dj).value
            == State(Put(s.fd, di, dj, v), Put(s.td, job.Left1() + di - 1, job.Left2() + dj - 1, v))
  {
    hide Rename, Put;
  }

  lemma CellInsideObeys(job: Job, td: Table, s: State, di: nat, dj: nat)
    requires job.Valid() && job.Fits(s) && Shape(td, |job.w1.nodes| + 1, |job.w2.nodes| + 1)
    requires 1 <= di <= job.Height() && 1 <= dj <= job.Width()
    requires !(OnEdge1(job, job.Left1() + di - 1) && OnEdge2(job, job.Left2() + dj - 1))
    requires Partly(job, td, s.fd, di, dj - 1)
    requires s.td[job.Left1() + di - 1][job.Left2() + dj - 1] == td[job.Left1() + di - 1][job.Left2() + dj - 1]
    requires Cell(job, s, di, dj).Some?
    ensures var v := Cheapest(s.fd[di - 1][dj], s.fd[di][dj - 1], Matched(job, td, s.fd, di, dj));
            Cell(job, s, di, dj).value == State(Put(s.fd, di, dj, v), s.td)
  {
    hide Rename, Put, Partly, Seen, Back, ListIndex;
    var ni, nj := job.Left1() + di - 1, job.Left2() + dj - 1;
    BackIsIndex(job.w1, job.i, ni);
    BackIsIndex(job.w2, job.j, nj);
    var a := ListIndex(IndexAt(job.w1.first, ni) - job.Left1(), |s.fd|);
    var b := ListIndex(IndexAt(job.w2.first, nj) - job.Left2(), job.Width() + 1);
    assert a.Some? && b.Some?;
    SeenIsRead(job, td, s.fd, di, dj, a.value, b.value);
  }

  lemma MatchedAfterPut(job: Job, td: Table, fd: Table, di: nat, dj: nat, v: real)
    requires job.Valid() && job.Fits(State(fd, td))
    requires 1 <= di <= job.Height() && 1 <= dj <= job.Width()
    requires v == Cheapest(fd[di - 1][dj], fd[di][dj - 1], Matched(job, td, fd, di, dj))
    ensures Obeys(job, td, Put(fd, di, dj, v), di, dj)
  {
    hide Rename, Put, Seen;
    var ni, nj := job.Left1() + di - 1, job.Left2() + dj - 1;
    SeenAfterPut(fd, di, dj, v, Back(job.w1, job.i, ni), Back(job.w2, job.j, nj));
  }

  /** One loop body extends the equations by one cell. */
  lemma CellKeepsPartly(job: Job, td: Table, s: State, di: nat, dj: nat)
    requires job.Valid() && job.Fits(s) && Shape(td, |job.w1.nodes| + 1, |job.w2.nodes| + 1)
    requires 1 <= di <= job.Height() && 1 <= dj <= job.Width()
    requires Partly(job, td, s.fd, di, dj - 1) && Copied(job, td, s, di, dj - 1)
    requires Cell(job, s, di, dj).Some?
    ensures var r := Cell(job, s, di, dj).value;
            Partly(job, td, r.fd, di, dj) && Copied(job, td, r, di, dj)
  {
    hide Rename, Put, Matched, Obeys, Cell, Cheapest;
    var ni, nj := job.Left1() + di - 1, job.Left2() + dj - 1;
    var v := Cheapest(s.fd[di - 1][dj], s.fd[di][dj - 1], Matched(job, td, s.fd, di, dj));
    var r := Cell(job, s, di, dj).value;
    if OnEdge1(job, ni) && OnEdge2(job, nj) {
      CellOnEdgeObeys(job, td, s, di, dj);
    } else {
      assert !Written(job, di, dj - 1, ni, nj);
      CellInsideObeys(job, td, s, di, dj);
    }
    MatchedAfterPut(job, td, s.fd, di, dj, v);
    forall a, b | 1 <= a <= job.Height() && 1 <= b <= job.Width()
      ensures if Filled(di, dj, a, b) then Obeys(job, td, r.fd, a, b) else r.fd[a][b] == 0.0
    {
      if Filled(di, dj - 1, a, b) {
        ObeysLater(job, td, s.fd, r.fd, di, dj - 1, a, b);
      }
    }
    CopiedStep(job, td, s, di, dj, v, r);
  }

  lemma CopiedStep(job: Job, td: Table, s: State, di: nat, dj: nat, v: real, r: State)
    requires job.Valid() && job.Fits(s) && job.Fits(r) && Shape(td, |job.w1.nodes| + 1, |job.w2.nodes| + 1)
    requires 1 <= di <= job.Height() && 1 <= dj <= job.Width()
    requires Copied(job, td, s, di, dj - 1)
    requires r.fd == Put(s.fd, di, dj, v)
    requires var ni, nj := job.Left1() + di - 1, job.Left2() + dj - 1;
             r.td == if OnEdge1(job, ni) && OnEdge2(job, nj) then Put(s.td, ni, nj, v) else s.td
    ensures Copied(job, td, r, di, dj)
  {
    hide Put;
  }

  lemma BordersPartly(job: Job, td: Table)
    requires job.Valid() && Shape(td, |job.w1.nodes| + 1, |job.w2.nodes| + 1)
    ensures var s := State(Borders(job.Height() + 1, job.Width() + 1), td);
            Partly(job, td, s.fd, 1, 0) && Copied(job, td, s, 1, 0)
  {
    hide Obeys;
  }

  lemma PartlyNextRow(job: Job, td: Table, s: State, di: nat)
    requires job.Valid() && job.Fits(s) && Shape(td, |job.w1.nodes| + 1, |job.w2.nodes| + 1)
    requires 1 < di <= job.Height()
    requires Partly(job, td, s.fd, di - 1, job.Width()) && Copied(job, td, s, di - 1, job.Width())
    ensures Partly(job, td, s.fd, di, 0) && Copied(job, td, s, di, 0)
  {
    hide Obeys;
    forall x, y | 0 <= x <= |job.w1.nodes| && 0 <= y <= |job.w2.nodes|
      ensures Written(job, di, 0, x, y) == Written(job, di - 1, job.Width(), x, y)
    {
    }
  }

  lemma {:induction false} FillPartly(job: Job, td: Table, di: nat, dj: nat)
    requires job.Valid() && Shape(td, |job.w1.nodes| + 1, |job.w2.nodes| + 1)
    requires 1 <= di <= job.Height() && dj <= job.Width()
    requires Fill(job, td, di, dj).Some?
    ensures var s := Fill(job, td, di, dj).value;
            Partly(job, td, s.fd, di, dj) && Copied(job, td, s, di, dj)
    decreases di, dj
  {
    hide Cell, Partly, Copied, Borders;
    if dj == 0 {
      if di == 1 {
        BordersPartly(job, td);
      } else {
        FillPartly(job, td, di - 1, job.Width());
        PartlyNextRow(job, td, Fill(job, td, di - 1, job.Width()).value, di);
      }
    } else {
      FillPartly(job, td, di, dj - 1);
      CellKeepsPartly(job, td, Fill(job, td, di, dj - 1).value, di, dj);
    }
  }

  // ----- finished tables -----

  /** The forest table of a finished job, against the tree table it reads and writes. */
  ghost predicate Solves(job: Job, td: Table, fd: Table)
    requires job.Valid()
  {
    && job.Fits(State(fd, td)) && InRange(State(fd, td)) && Bordered(fd)
    && (forall a, b :: 1 <= a <= job.Height() && 1 <= b <= job.Width() ==> Obeys(job, td, fd, a, b))
    && (forall x, y :: job.Left1() <= x <= job.i && job.Left2() <= y <= job.j && OnEdge1(job, x) && OnEdge2(job, y) ==>
          td[x][y] == fd[x - job.Left1() + 1][y - job.Left2() + 1])
  }

  /** Where no index lies left of the range a cell refers back to earlier cells only. */
  lemma InnerStep(job: Job, td: Table, fd: Table, a: int, b: int)
    requires job.Valid() && Solves(job, td, fd)
    requires 1 <= a <= job.Height() && 1 <= b <= job.Width()
    requires job.Left1() <= IndexAt(job.w1.first, job.Left1() + a - 1)
    requires job.Left2() <= IndexAt(job.w2.first, job.Left2() + b - 1)
    ensures var ni, nj := job.Left1() + a - 1, job.Left2() + b - 1;
      var pi, pj := IndexAt(job.w1.first, ni) - job.Left1(), IndexAt(job.w2.first, nj) - job.Left2();
      && 0 <= pi < a && 0 <= pj < b
      && fd[a][b] == Cheapest(fd[a - 1][b], fd[a][b - 1],
                              if pi == 0 && pj == 0
                              then fd[a - 1][b - 1] + Rename(NodeAt(job.w1.nodes, ni), NodeAt(job.w2.nodes, nj))
                              else fd[pi][pj] + td[ni][nj])
  {
    hide Rename, InRange, Bordered, Cheapest;
    assert Obeys(job, td, fd, a, b);
  }

  /** A table's entry, zero outside the table. */
  function Get(t: Table, a: int, b: int): real {
    if 0 <= a < |t| && 0 <= b < |t[a]| then t[a][b] else 0.0
  }

  /** A cell's equation when what it refers back to was filled before it. */
  lemma FilledCell(job: Job, td: Table, fd: Table, a: int, b: int, q: int, p: int)
    requires job.Valid() && Solves(job, td, fd)
    requires 1 <= a <= job.Height() && 1 <= b <= job.Width()
    requires Back(job.w1, job.i, job.Left1() + a - 1) == q && Back(job.w2, job.j, job.Left2() + b - 1) == p
    requires 0 <= q <= job.Height() && 0 <= p <= job.Width() && Filled(a, b - 1, q, p)
    ensures var ni, nj := job.Left1() + a - 1, job.Left2() + b - 1;
      Get(fd, a, b) == Cheapest(Get(fd, a - 1, b), Get(fd, a, b - 1),
                                if OnEdge1(job, ni) && OnEdge2(job, nj)
                                then Get(fd, a - 1, b - 1) + Rename(NodeAt(job.w1.nodes, ni), NodeAt(job.w2.nodes, nj))
                                else Get(fd, q, p) + Get(td, ni, nj))
  {
    hide Back, Rename, OnEdge1, OnEdge2, Bounded, InRange, Bordered, Cheapest;
    assert Obeys(job, td, fd, a, b);
  }

  /** Borders and edges of a finished table. */
  lemma BorderCells(job: Job, td: Table, fd: Table, a: int, b: int)
    requires job.Valid() && Solves(job, td, fd) && 0 <= a <= job.Height() && 0 <= b <= job.Width()
    ensures Get(fd, a, 0) == a as real && Get(fd, 0, b) == b as real && 0.0 <= Get(fd, a, b) <= a as real + b as real
  {
    hide Obeys;
  }

  /** Off the edges, a reference to an earlier line sees the final cell. */
  lemma MatchedEarlier(job: Job, td: Table, fd: Table, a: int, b: int, q: int, p: int)
    requires job.Valid() && job.Fits(State(fd, td))
    requires 1 <= a <= job.Height() && 1 <= b <= job.Width()
    requires !(OnEdge1(job, job.Left1() + a - 1) && OnEdge2(job, job.Left2() + b - 1))
    requires Back(job.w1, job.i, job.Left1() + a - 1) == q && Back(job.w2, job.j, job.Left2() + b - 1) == p
    requires 0 <= q < a && 0 <= p <= job.Width()
    ensures Matched(job, td, fd, a, b) == fd[q][p] + td[job.Left1() + a - 1][job.Left2() + b - 1]
  {
    hide Back, Rename, OnEdge1, OnEdge2, Bounded;
  }

  lemma ObeysElsewhere(job: Job, td: Table, td': Table, fd: Table, a: int, b: int)
    requires job.Valid() && job.Fits(State(fd, td)) && job.Fits(State(fd, td'))
    requires 1 <= a <= job.Height() && 1 <= b <= job.Width()
    requires Obeys(job, td, fd, a, b)
    requires var x, y := job.Left1() + a - 1, job.Left2() + b - 1;
             (OnEdge1(job, x) && OnEdge2(job, y)) || td'[x][y] == td[x][y]
    ensures Obeys(job, td', fd, a, b)
  {
    hide Rename, Seen, Back, Cheapest;
  }

  /** A job writes only cells that share both keyroots' indices. */
  ghost predicate ChangedOnEdges(w1: Walk, w2: Walk, i: int, j: int, td: Table, td': Table)
    requires Walks(w1, w2)
    requires Shape(td, |w1.nodes| + 1, |w2.nodes| + 1) && Shape(td', |w1.nodes| + 1, |w2.nodes| + 1)
  {
    forall x, y :: 0 <= x <= |w1.nodes| && 0 <= y <= |w2.nodes| ==> KeptOrOnEdge(w1, w2, i, j, td, td', x, y)
  }

  predicate KeptOrOnEdge(w1: Walk, w2: Walk, i: int, j: int, td: Table, td': Table, x: int, y: int)
    requires Walks(w1, w2) && 0 <= x <= |w1.nodes| && 0 <= y <= |w2.nodes|
    requires Shape(td, |w1.nodes| + 1, |w2.nodes| + 1) && Shape(td', |w1.nodes| + 1, |w2.nodes| + 1)
  {
    td'[x][y] == td[x][y] || (SameIndex(w1, i, x) && SameIndex(w2, j, y))
  }

  lemma FillSolves(job: Job, td: Table)
    requires job.Valid() && Shape(td, |job.w1.nodes| + 1, |job.w2.nodes| + 1) && NonNegative(td)
    requires Fill(job, td, job.Height(), job.Width()).Some?
    ensures var s := Fill(job, td, job.Height(), job.Width()).value;
      Solves(job, s.td, s.fd) && ChangedOnEdges(job.w1, job.w2, job.i, job.j, td, s.td)
  {
    var h, w := job.Height(), job.Width();
    assert h >= 1 && w >= 1;
    hide *;
    FillPartly(job, td, h, w);
    FillInRange(job, td, h, w);
    PartlySolves(job, td, Fill(job, td, h, w).value);
    CopiesChangeEdges(job, td, Fill(job, td, h, w).value);
  }

  lemma EveryCellObeys(job: Job, td: Table, fd: Table)
    requires job.Valid() && job.Fits(State(fd, td)) && Partly(job, td, fd, job.Height(), job.Width())
    ensures Bordered(fd)
    ensures forall a, b :: 1 <= a <= job.Height() && 1 <= b <= job.Width() ==> Obeys(job, td, fd, a, b)
  {
    hide Obeys;
    assert forall a, b :: a <= job.Height() && b <= job.Width() ==> Filled(job.Height(), job.Width(), a, b);
  }

  lemma CopiedAt(job: Job, td: Table, s: State, x: int, y: int)
    requires job.Valid() && Shape(td, |job.w1.nodes| + 1, |job.w2.nodes| + 1) && job.Fits(s)
    requires Copied(job, td, s, job.Height(), job.Width())
    requires 0 <= x <= |job.w1.nodes| && 0 <= y <= |job.w2.nodes|
    ensures s.td[x][y] != td[x][y] ==> SameIndex(job.w1, job.i, x) && SameIndex(job.w2, job.j, y)
    ensures job.Left1() <= x <= job.i && job.Left2() <= y <= job.j ==>
              s.td[x][y] == if OnEdge1(job, x) && OnEdge2(job, y)
                            then s.fd[x - job.Left1() + 1][y - job.Left2() + 1] else td[x][y]
  {
    var h, w := job.Height(), job.Width();
    assert s.td[x][y] == if Written(job, h, w, x, y) then s.fd[x - job.Left1() + 1][y - job.Left2() + 1] else td[x][y];
  }

  lemma CopiesChangeEdges(job: Job, td: Table, s: State)
    requires job.Valid() && Shape(td, |job.w1.nodes| + 1, |job.w2.nodes| + 1) && job.Fits(s)
    requires Copied(job, td, s, job.Height(), job.Width())
    ensures ChangedOnEdges(job.w1, job.w2, job.i, job.j, td, s.td)
  {
    hide Copied, SameIndex, OnEdge1, OnEdge2;
    forall x, y | 0 <= x <= |job.w1.nodes| && 0 <= y <= |job.w2.nodes|
      ensures KeptOrOnEdge(job.w1, job.w2, job.i, job.j, td, s.td, x, y)
    {
      CopiedAt(job, td, s, x, y);
    }
  }

  lemma PartlySolves(job: Job, td: Table, s: State)
    requires job.Valid() && Shape(td, |job.w1.nodes| + 1, |job.w2.nodes| + 1)
    requires job.Fits(s) && InRange(s)
    requires Partly(job, td, s.fd, job.Height(), job.Width()) && Copied(job, td, s, job.Height(), job.Width())
    ensures Solves(job, s.td, s.fd)
  {
    hide Obeys, InRange, Bordered, Partly, Copied, OnEdge1, OnEdge2, SameIndex;
    EveryCellObeys(job, td, s.fd);
    forall x, y | job.Left1() <= x <= job.i && job.Left2() <= y <= job.j && OnEdge1(job, x) && OnEdge2(job, y)
      ensures s.td[x][y] == s.fd[x - job.Left1() + 1][y - job.Left2() + 1]
    {
      CopiedAt(job, td, s, x, y);
    }
    forall a, b | 1 <= a <= job.Height() && 1 <= b <= job.Width() ensures Obeys(job, s.td, s.fd, a, b) {
      CopiedAt(job, td, s, job.Left1() + a - 1, job.Left2() + b - 1);
      ObeysElsewhere(job, td, s.td, s.fd, a, b);
    }
  }

  /** Tree cells outside the ranges do not matter. */
  lemma SolvesAcross(job: Job, td: Table, td': Table, fd: Table)
    requires job.Valid() && Solves(job, td, fd)
    requires Shape(td', |job.w1.nodes| + 1, |job.w2.nodes| + 1) && NonNegative(td')
    requires forall x, y :: job.Left1() <= x <= job.i && job.Left2() <= y <= job.j ==> td'[x][y] == td[x][y]
    ensures Solves(job, td', fd)
  {
    hide Obeys;
    forall a, b | 1 <= a <= job.Height() && 1 <= b <= job.Width() ensures Obeys(job, td', fd, a, b) {
      ObeysElsewhere(job, td, td', fd, a, b);
    }
  }

  /** Every node of a keyroot's range belongs to that keyroot or an earlier one. */
  ghost predicate Nested(w: Walk)
    requires Bounded(w)
  {
    forall i, x :: IsKeyroot(w.first, i) && IndexAt(w.first, i) <= x <= i ==> HasRootUpTo(w, i, x)
  }

  ghost predicate HasRootUpTo(w: Walk, i: int, x: int)
    requires Bounded(w)
  {
    exists k :: IsKeyroot(w.first, k) && k <= i && SameIndex(w, k, x)
  }

  lemma OneRootPerIndex(w: Walk, k: int, r: int, x: int)
    requires Bounded(w) && IsKeyroot(w.first, k) && IsKeyroot(w.first, r)
    requires SameIndex(w, k, x) && SameIndex(w, r, x)
    ensures k == r
  {
  }

  ghost predicate Kept(w1: Walk, w2: Walk, i: int, j: int, td: Table)
    requires Walks(w1, w2)
  {
    && 1 <= i <= |w1.nodes| && 1 <= j <= |w2.nodes|
    && exists fd :: Solves(Job(w1, w2, i, j), td, fd)
  }

  lemma ChangedHere(w1: Walk, w2: Walk, i: int, j: int, td: Table, td': Table, x: int, y: int)
    requires Walks(w1, w2)
    requires Shape(td, |w1.nodes| + 1, |w2.nodes| + 1) && Shape(td', |w1.nodes| + 1, |w2.nodes| + 1)
    requires ChangedOnEdges(w1, w2, i, j, td, td')
    requires 0 <= x <= |w1.nodes| && 0 <= y <= |w2.nodes|
    ensures td'[x][y] != td[x][y] ==> SameIndex(w1, i, x) && SameIndex(w2, j, y)
  {
    hide SameIndex;
    assert KeptOrOnEdge(w1, w2, i, j, td, td', x, y);
  }

  /** A later job leaves an earlier job's ranges alone. */
  lemma KeptAcross(w1: Walk, w2: Walk, i: int, j: int, ip: int, jp: int, td: Table, td': Table)
    requires Walks(w1, w2) && Nested(w1) && Nested(w2)
    requires IsKeyroot(w1.first, i) && IsKeyroot(w2.first, j) && IsKeyroot(w1.first, ip) && IsKeyroot(w2.first, jp)
    requires i < ip || (i == ip && j < jp)
    requires Kept(w1, w2, i, j, td)
    requires Shape(td, |w1.nodes| + 1, |w2.nodes| + 1)
    requires Shape(td', |w1.nodes| + 1, |w2.nodes| + 1) && NonNegative(td')
    requires ChangedOnEdges(w1, w2, ip, jp, td, td')
    ensures Kept(w1, w2, i, j, td')
  {
    hide Solves, IsKeyroot, SameIndex, NonNegative;
    var job := Job(w1, w2, i, j);
    var fd :| Solves(job, td, fd);
    forall x, y | job.Left1() <= x <= job.i && job.Left2() <= y <= job.j ensures td'[x][y] == td[x][y] {
      assert HasRootUpTo(w1, i, x) && HasRootUpTo(w2, j, y);
      var k :| IsKeyroot(w1.first, k) && k <= i && SameIndex(w1, k, x);
      var l :| IsKeyroot(w2.first, l) && l <= j && SameIndex(w2, l, y);
      if SameIndex(w1, ip, x) && SameIndex(w2, jp, y) {
        OneRootPerIndex(w1, k, ip, x);
        OneRootPerIndex(w2, l, jp, y);
      }
      ChangedHere(w1, w2, ip, jp, td, td', x, y);
    }
    SolvesAcross(job, td, td', fd);
  }

  /** Every keyroot pair handled before (p, q) is solved by the tree table. */
  ghost predicate Solved(w1: Walk, w2: Walk, p: nat, q: nat, td: Table)
    requires Walks(w1, w2)
  {
    forall r, c :: 0 <= r < |Roots(w1)| && 0 <= c < |Roots(w2)| && (r < p || (r == p && c < q)) ==>
      Kept(w1, w2, Roots(w1)[r], Roots(w2)[c], td)
  }

  lemma PairSolved(w1: Walk, w2: Walk, p: nat, q: nat, td: Table)
    requires Walks(w1, w2) && Nested(w1) && Nested(w2) && p < |Roots(w1)| && q < |Roots(w2)|
    requires Shape(td, |w1.nodes| + 1, |w2.nodes| + 1) && NonNegative(td)
    requires Roots(w1)[p] in Roots(w1) && Roots(w2)[q] in Roots(w2)
    requires Solved(w1, w2, p, q, td)
    requires TreeDist(Job(w1, w2, Roots(w1)[p], Roots(w2)[q]), td).Some?
    ensures Solved(w1, w2, p, q + 1, TreeDist(Job(w1, w2, Roots(w1)[p], Roots(w2)[q]), td).value)
  {
    hide Fill, Solves, Roots, SameIndex, Nested, ChangedOnEdges;
    var job := Job(w1, w2, Roots(w1)[p], Roots(w2)[q]);
    FillSolves(job, td);
    FillInRange(job, td, job.Height(), job.Width());
    var s := Fill(job, td, job.Height(), job.Width()).value;
    assert Solves(Job(w1, w2, Roots(w1)[p], Roots(w2)[q]), s.td, s.fd);
    forall r, c | 0 <= r < |Roots(w1)| && 0 <= c < |Roots(w2)| && (r < p || (r == p && c < q + 1))
      ensures Kept(w1, w2, Roots(w1)[r], Roots(w2)[c], s.td)
    {
      assert Roots(w1)[r] in Roots(w1) && Roots(w2)[c] in Roots(w2);
      if r < p || c < q {
        KeptAcross(w1, w2, Roots(w1)[r], Roots(w2)[c], job.i, job.j, td, s.td);
      }
    }
  }

  lemma {:induction false} PairsSolved(w1: Walk, w2: Walk, p: nat, q: nat)
    requires Walks(w1, w2) && Nested(w1) && Nested(w2)
    requires p <= |Roots(w1)| && q <= |Roots(w2)| && (q == 0 || p < |Roots(w1)|)
    requires Pairs(w1, w2, p, q).Some?
    ensures Solved(w1, w2, p, q, Pairs(w1, w2, p, q).value)
    decreases p, q
  {
    hide Roots, Kept, Nested, TreeDist;
    if q == 0 {
      if p > 0 {
        PairsSolved(w1, w2, p - 1, |Roots(w2)|);
      }
    } else {
      PairsSolved(w1, w2, p, q - 1);
      PairsNonNegative(w1, w2, p, q - 1);
      assert Roots(w1)[p] in Roots(w1) && Roots(w2)[q - 1] in Roots(w2);
      PairSolved(w1, w2, p, q - 1, Pairs(w1, w2, p, q - 1).value);
    }
  }

  /** A tree table that solves every keyroot pair at once. */
  ghost predicate Finished(w1: Walk, w2: Walk, td: Table)
    requires Walks(w1, w2)
  {
    && Shape(td, |w1.nodes| + 1, |w2.nodes| + 1) && NonNegative(td)
    && forall i, j :: IsKeyroot(w1.first, i) && IsKeyroot(w2.first, j) ==> Kept(w1, w2, i, j, td)
  }

  /** For any recorded indices whose keyroot ranges nest, a run that ends leaves a tree table
      that solves every keyroot pair's equations, and returns its last cell. */
  lemma RunFinishes(w1: Walk, w2: Walk) returns (td: Table)
    requires Walks(w1, w2) && Nested(w1) && Nested(w2) && Distance(w1, w2).Some?
    ensures Finished(w1, w2, td)
    ensures Distance(w1, w2) == Some(td[|w1.nodes|][|w2.nodes|])
  {
    hide Pairs, Kept, Nested, IsKeyroot;
    td := Pairs(w1, w2, |Roots(w1)|, 0).value;
    PairsSolved(w1, w2, |Roots(w1)|, 0);
    PairsNonNegative(w1, w2, |Roots(w1)|, 0);
    hide Roots;
    forall i, j | IsKeyroot(w1.first, i) && IsKeyroot(w2.first, j) ensures Kept(w1, w2, i, j, td) {
      assert i in Roots(w1) && j in Roots(w2);
      var r :| 0 <= r < |Roots(w1)| && Roots(w1)[r] == i;
      var c :| 0 <= c < |Roots(w2)| && Roots(w2)[c] == j;
      assert Kept(w1, w2, Roots(w1)[r], Roots(w2)[c], td);
    }
  }
}
