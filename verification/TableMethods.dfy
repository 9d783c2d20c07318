/** The scoring routine itself: both tables filled in place, loop by loop. */
module TableMethods {
  import opened Options
  import opened TreeEdit
  import opened Postorder
  import opened KeyrootTables
  import opened TableScore

  /** The array's contents are table t. */
  ghost predicate Holds(a: array2<real>, t: Table)
    reads a
  {
    && Shape(t, a.Length0, a.Length1)
    && forall r, c :: 0 <= r < a.Length0 && 0 <= c < a.Length1 ==> a[r, c] == t[r][c]
  }

  /** A fresh forest table: the left and top edges are running counts. */
  method NewForestTable(h: nat, w: nat) returns (fd: array2<real>)
    ensures fresh(fd) && fd.Length0 == h + 1 && fd.Length1 == w + 1
    ensures Holds(fd, Borders(h + 1, w + 1))
  {
    fd := new real[h + 1, w + 1]((r, c) => 0.0);
    for di := 1 to h + 1
      invariant forall r :: 0 <= r < di ==> fd[r, 0] == r as real
      invariant forall r, c :: 0 <= r <= h && 0 <= c <= w && (r >= di || c > 0) ==> fd[r, c] == 0.0
    {
      fd[di, 0] := fd[di - 1, 0] + 1.0;
    }
    for dj := 1 to w + 1
      invariant forall r :: 0 <= r <= h ==> fd[r, 0] == r as real
      invariant forall c :: 0 <= c < dj ==> fd[0, c] == c as real
      invariant forall r, c :: 0 <= r <= h && 0 <= c <= w && c > 0 && (r > 0 || c >= dj) ==> fd[r, c] == 0.0
    {
      fd[0, dj] := fd[0, dj - 1] + 1.0;
    }
  }

  /** The inner loop body: one forest cell, and on the edges the tree cell too. */
  method FillCell(job: Job, fd: array2<real>, td: array2<real>, ghost s: State, di: nat, dj: nat)
    returns (ok: bool)
    requires job.Valid() && job.Fits(s) && fd != td
    requires Holds(fd, s.fd) && Holds(td, s.td)
    requires 1 <= di <= job.Height() && 1 <= dj <= job.Width()
    modifies fd, td
    ensures ok <==> Cell(job, s, di, dj).Some?
    ensures ok ==> Holds(fd, Cell(job, s, di, dj).value.fd) && Holds(td, Cell(job, s, di, dj).value.td)
  {
    hide Rename;
    assert |s.fd[0]| == fd.Length1 == job.Width() + 1;
    assert |s.td[0]| == td.Length1 == |job.w2.nodes| + 1;
    var ni, nj := job.Left1() + di - 1, job.Left2() + dj - 1;
    if IndexAt(job.w1.first, ni) == job.Left1() && IndexAt(job.w2.first, nj) == job.Left2() {
      var cost := Rename(NodeAt(job.w1.nodes, ni), NodeAt(job.w2.nodes, nj));
      fd[di, dj] := Cheapest(fd[di - 1, dj], fd[di, dj - 1], fd[di - 1, dj - 1] + cost);
      td[ni, nj] := fd[di, dj];
    } else {
      var a := ListIndex(IndexAt(job.w1.first, ni) - job.Left1(), fd.Length0);
      var b := ListIndex(IndexAt(job.w2.first, nj) - job.Left2(), fd.Length1);
      if a.None? || b.None? {
        return false;
      }
      fd[di, dj] := Cheapest(fd[di - 1, dj], fd[di, dj - 1], fd[a.value, b.value] + td[ni, nj]);
    }
    ok := true;
  }

  /** The nested closure: fills one forest table and the tree cells on its edges. */
  method FillForest(job: Job, td: array2<real>, ghost before: Table) returns (ok: bool)
    requires job.Valid()
    requires td.Length0 == |job.w1.nodes| + 1 && td.Length1 == |job.w2.nodes| + 1
    requires Holds(td, before)
    modifies td
    ensures ok <==> TreeDist(job, before).Some?
    ensures ok ==> Holds(td, TreeDist(job, before).value)
  {
    hide Fill, Cell, Borders, Holds;
    var h, w := job.Height(), job.Width();
    assert Shape(before, |job.w1.nodes| + 1, |job.w2.nodes| + 1) by {
      HoldsShape(td, before);
    }
    var fd := NewForestTable(h, w);
    ghost var s := State(Borders(h + 1, w + 1), before);
    FillStarts(job, before);
    for di := 1 to h + 1
      invariant job.Fits(s) && Holds(fd, s.fd) && Holds(td, s.td)
      invariant if di == 1 then Fill(job, before, 1, 0) == Some(s) else Fill(job, before, di - 1, w) == Some(s)
    {
      FillTurns(job, before, di);
      for dj := 1 to w + 1
        invariant job.Fits(s) && Holds(fd, s.fd) && Holds(td, s.td)
        invariant Fill(job, before, di, dj - 1) == Some(s)
      {
        FillSteps(job, before, di, dj);
        ok := FillCell(job, fd, td, s, di, dj);
        if !ok {
          FillStuck(job, before, di, dj);
          return;
        }
        s := Cell(job, s, di, dj).value;
      }
    }
    ok := true;
  }

  lemma HoldsShape(a: array2<real>, t: Table)
    requires Holds(a, t)
    ensures Shape(t, a.Length0, a.Length1)
  {
  }

  lemma FillStarts(job: Job, td: Table)
    requires job.Valid() && Shape(td, |job.w1.nodes| + 1, |job.w2.nodes| + 1)
    ensures Fill(job, td, 1, 0) == Some(State(Borders(job.Height() + 1, job.Width() + 1), td))
  {
  }

  lemma FillTurns(job: Job, td: Table, di: nat)
    requires job.Valid() && Shape(td, |job.w1.nodes| + 1, |job.w2.nodes| + 1)
    requires 1 <= di <= job.Height()
    ensures di > 1 ==> Fill(job, td, di, 0) == Fill(job, td, di - 1, job.Width())
  {
  }

  lemma FillSteps(job: Job, td: Table, di: nat, dj: nat)
    requires job.Valid() && Shape(td, |job.w1.nodes| + 1, |job.w2.nodes| + 1)
    requires 1 <= di <= job.Height() && 1 <= dj <= job.Width()
    requires Fill(job, td, di, dj - 1).Some?
    ensures Fill(job, td, di, dj) == Cell(job, Fill(job, td, di, dj - 1).value, di, dj)
  {
  }

  /** A run that stopped early has no final table. */
  lemma {:induction false} FillStuckLater(job: Job, td: Table, di: nat, dj: nat, x: nat, y: nat)
    requires job.Valid() && Shape(td, |job.w1.nodes| + 1, |job.w2.nodes| + 1)
    requires 1 <= di <= x <= job.Height() && dj <= job.Width() && y <= job.Width() && (di < x || dj <= y)
    requires Fill(job, td, di, dj).None?
    ensures Fill(job, td, x, y).None?
    decreases x, y
  {
    if (x, y) != (di, dj) {
      if y == 0 {
        FillStuckLater(job, td, di, dj, x - 1, job.Width());
      } else {
        FillStuckLater(job, td, di, dj, x, y - 1);
      }
    }
  }

  lemma FillStuck(job: Job, td: Table, di: nat, dj: nat)
    requires job.Valid() && Shape(td, |job.w1.nodes| + 1, |job.w2.nodes| + 1)
    requires 1 <= di <= job.Height() && dj <= job.Width()
    requires Fill(job, td, di, dj).None?
    ensures TreeDist(job, td).None?
  {
    FillStuckLater(job, td, di, dj, job.Height(), job.Width());
  }

  lemma {:induction false} PairsStuckLater(w1: Walk, w2: Walk, p: nat, q: nat, x: nat)
    requires Walks(w1, w2)
    requires p < x <= |Roots(w1)| && q <= |Roots(w2)|
    requires Pairs(w1, w2, p, q).None?
    ensures Pairs(w1, w2, x, 0).None?
    decreases x, |Roots(w2)|, 0
  {
    hide TreeDist;
    if x - 1 == p {
      PairsStuckInRow(w1, w2, p, q, |Roots(w2)|);
    } else {
      PairsStuckLater(w1, w2, p, q, x - 1);
      PairsStuckInRow(w1, w2, x - 1, 0, |Roots(w2)|);
    }
  }

  lemma {:induction false} PairsStuckInRow(w1: Walk, w2: Walk, p: nat, q: nat, y: nat)
    requires Walks(w1, w2)
    requires p < |Roots(w1)| && q <= y <= |Roots(w2)|
    requires Pairs(w1, w2, p, q).None?
    ensures Pairs(w1, w2, p, y).None?
    decreases y - q
  {
    hide TreeDist;
    if q < y {
      PairsStuckInRow(w1, w2, p, q + 1, y);
    }
  }

  /** Every pair of keyroots in ascending order; None is an index error. */
  method TreeEditDistance(t1: Tree, t2: Tree) returns (r: Option<real>, n1: nat, n2: nat)
    ensures r == CodeDistance(t1, t2)
    ensures n1 == Size([t1]) && n2 == Size([t2])
  {
    hide Nodes, Firsts, Pairs, TreeDist, Size, Keyroots;
    var w1, k1 := WalkTree(t1);
    var w2, k2 := WalkTree(t2);
    CodeWalkBounded(t1);
    CodeWalkBounded(t2);
    n1, n2 := |w1.nodes|, |w2.nodes|;
    var td := new real[n1 + 1, n2 + 1]((x, y) => 0.0);
    ghost var table := Zeros(n1 + 1, n2 + 1);
    PairsStart(w1, w2);
    for p := 0 to |k1|
      invariant Holds(td, table) && Pairs(w1, w2, p, 0) == Some(table)
    {
      for q := 0 to |k2|
        invariant Holds(td, table) && Pairs(w1, w2, p, q) == Some(table)
      {
        assert k1[p] in Roots(w1) && k2[q] in Roots(w2);
        PairsStep(w1, w2, p, q);
        var ok := FillForest(Job(w1, w2, k1[p], k2[q]), td, table);
        if !ok {
          PairsStuckLater(w1, w2, p, q + 1, |k1|);
          return None, n1, n2;
        }
        table := TreeDist(Job(w1, w2, k1[p], k2[q]), table).value;
      }
      PairsTurn(w1, w2, p);
    }
    r := Some(td[n1, n2]);
  }

  lemma PairsStart(w1: Walk, w2: Walk)
    requires Walks(w1, w2)
    ensures Pairs(w1, w2, 0, 0) == Some(Zeros(|w1.nodes| + 1, |w2.nodes| + 1))
  {
  }

  lemma PairsStep(w1: Walk, w2: Walk, p: nat, q: nat)
    requires Walks(w1, w2) && p < |Roots(w1)| && q < |Roots(w2)|
    requires Roots(w1)[p] in Roots(w1) && Roots(w2)[q] in Roots(w2)
    requires Pairs(w1, w2, p, q).Some?
    ensures Pairs(w1, w2, p, q + 1) ==
            TreeDist(Job(w1, w2, Roots(w1)[p], Roots(w2)[q]), Pairs(w1, w2, p, q).value)
  {
    hide TreeDist, Roots;
  }

  lemma PairsTurn(w1: Walk, w2: Walk, p: nat)
    requires Walks(w1, w2) && p < |Roots(w1)|
    ensures Pairs(w1, w2, p + 1, 0) == Pairs(w1, w2, p, |Roots(w2)|)
  {
    hide TreeDist, Roots;
  }

  /** The score before rounding: one minus the distance over the larger tree. */
  method Teds(norm: string -> string, pred: Grid, gt: Grid) returns (score: Option<real>)
    ensures score.None? <==> CodeDistance(BuildTree(norm, pred), BuildTree(norm, gt)).None?
    ensures score.Some? ==>
              var t1, t2 := BuildTree(norm, pred), BuildTree(norm, gt);
              var larger := if Size([t1]) >= Size([t2]) then Size([t1]) else Size([t2]);
              larger >= 1 && score.value == 1.0 - CodeDistance(t1, t2).value / larger as real
    ensures score.Some? ==> -1.0 < score.value <= 1.0
    ensures score.Some? ==>
              (score.value == 1.0 <==> CodeDistance(BuildTree(norm, pred), BuildTree(norm, gt)) == Some(0.0))
    ensures pred == gt && score.Some? ==> score.value == 1.0
    ensures FirstRow(pred) == [] && FirstRow(gt) == [] ==>
              (score.Some? && (score.value == 1.0 <==> BuildTree(norm, pred) == BuildTree(norm, gt)))
  {
    hide Size, CodeDistance, Dist, Rename, FirstsAreLeaves;
    var t1, t2 := BuildTree(norm, pred), BuildTree(norm, gt);
    var dist, n1, n2 := TreeEditDistance(t1, t2);
    ScoreFacts(norm, pred, gt);
    if dist.None? {
      return None;
    }
    var denom := if n1 >= n2 then n1 else n2;
    if denom == 0 {
      return Some(1.0);
    }
    Quotient(dist.value, denom);
    score := Some(1.0 - dist.value / denom as real);
  }

  lemma Quotient(d: real, m: nat)
    requires m > 0 && 0.0 <= d <= 2.0 * m as real - 2.0
    ensures 0.0 <= d / m as real < 2.0
    ensures d / m as real == 0.0 <==> d == 0.0
  {
    var q := d / m as real;
    assert q * m as real == d;
  }

  lemma ScoreFacts(norm: string -> string, pred: Grid, gt: Grid)
    ensures var t1, t2 := BuildTree(norm, pred), BuildTree(norm, gt);
      var d := CodeDistance(t1, t2);
      && Size([t1]) >= 1 && Size([t2]) >= 1
      && (d.Some? ==> 0.0 <= d.value <= (Size([t1]) + Size([t2]) - 2) as real)
      && (pred == gt && d.Some? ==> d.value == 0.0)
      && (FirstRow(pred) == [] && FirstRow(gt) == [] ==> d.Some? && (d.value == 0.0 <==> t1 == t2))
  {
    CodeDistanceRange(norm, pred, gt);
    TableFirstsAreLeavesIff(norm, pred);
    TableFirstsAreLeavesIff(norm, gt);
    TableDistanceLaws(norm, pred, gt);
    hide CodeDistance, Dist, FirstsAreLeaves, BuildTree;
    if FirstRow(pred) == [] && FirstRow(gt) == [] {
      CodeDistanceIsExact(BuildTree(norm, pred), BuildTree(norm, gt));
    }
  }
}
