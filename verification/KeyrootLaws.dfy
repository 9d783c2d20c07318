/** What the keyroot tables guarantee for every pair of walks, leftmost or not:
    the range of the answer, agreement of a walk with itself, and exactly when
    an index leaves its list. */
module KeyrootLaws {
  import opened Sequences
  import opened Options
  import opened TreeEdit
  import opened Postorder
  import opened ForestSlices
  import opened KeyrootTables
  import opened KeyrootCorrect

  // ----- range -----

  ghost predicate NonNegative(td: Table) {
    forall x, y :: 0 <= x < |td| && 0 <= y < |td[x]| ==> td[x][y] >= 0.0
  }

  /** No forest cell is negative or dearer than deleting and inserting everything. */
  ghost predicate InRange(s: State) {
    && NonNegative(s.td)
    && forall a, b :: 0 <= a < |s.fd| && 0 <= b < |s.fd[a]| ==> 0.0 <= s.fd[a][b] <= a as real + b as real
  }

  lemma CellInRange(job: Job, s: State, di: nat, dj: nat)
    requires job.Valid() && job.Fits(s) && InRange(s)
    requires 1 <= di <= job.Height() && 1 <= dj <= job.Width()
    ensures Cell(job, s, di, dj).Some? ==> InRange(Cell(job, s, di, dj).value)
  {
    hide Rename;
  }

  lemma {:induction false} FillInRange(job: Job, td: Table, di: nat, dj: nat)
    requires job.Valid() && Shape(td, |job.w1.nodes| + 1, |job.w2.nodes| + 1) && NonNegative(td)
    requires 1 <= di <= job.Height() && dj <= job.Width()
    ensures Fill(job, td, di, dj).Some? ==> InRange(Fill(job, td, di, dj).value)
    decreases di, dj
  {
    hide Cell;
    if dj == 0 {
      if di > 1 {
        FillInRange(job, td, di - 1, job.Width());
      }
    } else {
      FillInRange(job, td, di, dj - 1);
      var before := Fill(job, td, di, dj - 1);
      if before.Some? {
        CellInRange(job, before.value, di, dj);
      }
    }
  }

  lemma {:induction false} PairsNonNegative(w1: Walk, w2: Walk, p: nat, q: nat)
    requires Walks(w1, w2)
    requires p <= |Roots(w1)| && q <= |Roots(w2)| && (q == 0 || p < |Roots(w1)|)
    ensures Pairs(w1, w2, p, q).Some? ==> NonNegative(Pairs(w1, w2, p, q).value)
    decreases p, q
  {
    hide Fill, Roots;
    if q == 0 {
      if p > 0 {
        PairsNonNegative(w1, w2, p - 1, |Roots(w2)|);
      }
    } else {
      PairsNonNegative(w1, w2, p, q - 1);
      assert Roots(w1)[p] in Roots(w1) && Roots(w2)[q - 1] in Roots(w2);
      var td, job := Pairs(w1, w2, p, q - 1), Job(w1, w2, Roots(w1)[p], Roots(w2)[q - 1]);
      if td.Some? {
        FillInRange(job, td.value, job.Height(), job.Width());
      }
    }
  }

  lemma LastRoot(w: Walk)
    requires Bounded(w) && w.nodes != []
    ensures Roots(w) != [] && Last(Roots(w)) == |w.nodes|
  {
    var n := |w.nodes|;
    assert IsKeyroot(w.first, n);
    assert n in Roots(w);
    assert Last(Roots(w)) in Roots(w);
  }

  /** The last table ends at the two last nodes. */
  lemma DistanceIsLastCell(w1: Walk, w2: Walk)
    requires Walks(w1, w2)
    ensures Roots(w1) != [] && Roots(w2) != []
    ensures var job, td := Job(w1, w2, |w1.nodes|, |w2.nodes|), Pairs(w1, w2, |Roots(w1)| - 1, |Roots(w2)| - 1);
      Distance(w1, w2) ==
        if td.None? || TreeDist(job, td.value).None? then None
        else Some(TreeDist(job, td.value).value[|w1.nodes|][|w2.nodes|])
  {
    hide Roots, TreeDist;
    LastRoot(w1);
    LastRoot(w2);
    var p, q := |Roots(w1)|, |Roots(w2)|;
    assert Roots(w1)[p - 1] in Roots(w1) && Roots(w2)[q - 1] in Roots(w2);
    assert Pairs(w1, w2, p, 0) == Pairs(w1, w2, p - 1, q);
  }

  /** The last cell of a table joins the two roots. */
  lemma LastCellInRange(job: Job, td: Table)
    requires job.Valid() && Shape(td, |job.w1.nodes| + 1, |job.w2.nodes| + 1) && NonNegative(td)
    ensures TreeDist(job, td).Some? ==>
              0.0 <= TreeDist(job, td).value[job.i][job.j] <=
                (job.Height() - 1) as real + (job.Width() - 1) as real
                + Rename(NodeAt(job.w1.nodes, job.i), NodeAt(job.w2.nodes, job.j))
  {
    var h, w := job.Height(), job.Width();
    FillInRange(job, td, h, w - 1);
    FillInRange(job, td, h, w);
    if Fill(job, td, h, w).Some? {
      var s := Fill(job, td, h, w - 1).value;
      assert Fill(job, td, h, w) == Cell(job, s, h, w);
      LastCellStep(job, s);
    }
  }

  lemma LastCellStep(job: Job, s: State)
    requires job.Valid() && job.Fits(s) && InRange(s)
    requires Cell(job, s, job.Height(), job.Width()).Some? && InRange(Cell(job, s, job.Height(), job.Width()).value)
    ensures 0.0 <= Cell(job, s, job.Height(), job.Width()).value.td[job.i][job.j] <=
              (job.Height() - 1) as real + (job.Width() - 1) as real
              + Rename(NodeAt(job.w1.nodes, job.i), NodeAt(job.w2.nodes, job.j))
  {
    hide Rename;
  }

  /** The answer is never negative and never more than deleting and inserting
      everything inside the last table except its two roots. */
  lemma DistanceInRange(w1: Walk, w2: Walk)
    requires Walks(w1, w2)
    ensures var n1, n2 := |w1.nodes|, |w2.nodes|;
      Distance(w1, w2).Some? ==>
        0.0 <= Distance(w1, w2).value <=
          (n1 - IndexAt(w1.first, n1)) as real + (n2 - IndexAt(w2.first, n2)) as real
          + Rename(NodeAt(w1.nodes, n1), NodeAt(w2.nodes, n2))
  {
    hide Roots, Pairs, Rename, Distance, TreeDist, NonNegative;
    DistanceIsLastCell(w1, w2);
    var job, td := Job(w1, w2, |w1.nodes|, |w2.nodes|), Pairs(w1, w2, |Roots(w1)| - 1, |Roots(w2)| - 1);
    if Distance(w1, w2).Some? {
      PairsNonNegative(w1, w2, |Roots(w1)| - 1, |Roots(w2)| - 1);
      LastCellInRange(job, td.value);
    }
  }

  // ----- a walk against itself -----

  lemma RenameSelf(t: Tree)
    ensures Rename(t, t) == 0.0
  {
  }

  ghost predicate ZeroDiagonal(t: Table) {
    forall x :: 0 <= x < |t| && x < |t[x]| ==> t[x][x] == 0.0
  }

  lemma CellOfSelf(job: Job, s: State, di: nat, dj: nat)
    requires job.Valid() && job.Fits(s) && job.w1 == job.w2
    requires IsKeyroot(job.w1.first, job.i) && IsKeyroot(job.w2.first, job.j)
    requires 1 <= di <= job.Height() && 1 <= dj <= job.Width()
    requires InRange(s) && ZeroDiagonal(s.td) && (job.i == job.j ==> ZeroDiagonal(s.fd))
    requires Cell(job, s, di, dj).Some?
    ensures ZeroDiagonal(Cell(job, s, di, dj).value.td)
    ensures job.i == job.j ==> ZeroDiagonal(Cell(job, s, di, dj).value.fd)
  {
    hide Rename;
    var ni, nj := job.Left1() + di - 1, job.Left2() + dj - 1;
    RenameSelf(NodeAt(job.w1.nodes, ni));
    if job.i == job.j {
      assert di == dj <==> ni == nj;
    } else if OnEdge1(job, ni) && OnEdge2(job, nj) {
      assert ni != nj;
    }
  }

  lemma {:induction false} FillOfSelf(job: Job, td: Table, di: nat, dj: nat)
    requires job.Valid() && Shape(td, |job.w1.nodes| + 1, |job.w2.nodes| + 1) && job.w1 == job.w2
    requires IsKeyroot(job.w1.first, job.i) && IsKeyroot(job.w2.first, job.j)
    requires NonNegative(td) && ZeroDiagonal(td)
    requires 1 <= di <= job.Height() && dj <= job.Width()
    requires Fill(job, td, di, dj).Some?
    ensures ZeroDiagonal(Fill(job, td, di, dj).value.td)
    ensures job.i == job.j ==> ZeroDiagonal(Fill(job, td, di, dj).value.fd)
    decreases di, dj
  {
    hide Cell;
    if dj == 0 {
      if di > 1 {
        FillOfSelf(job, td, di - 1, job.Width());
      }
    } else {
      FillOfSelf(job, td, di, dj - 1);
      FillInRange(job, td, di, dj - 1);
      CellOfSelf(job, Fill(job, td, di, dj - 1).value, di, dj);
    }
  }

  lemma {:induction false} PairsOfSelf(w: Walk, p: nat, q: nat)
    requires Walks(w, w)
    requires p <= |Roots(w)| && q <= |Roots(w)| && (q == 0 || p < |Roots(w)|)
    ensures Pairs(w, w, p, q).Some? ==> ZeroDiagonal(Pairs(w, w, p, q).value)
    decreases p, q
  {
    hide Fill, Roots;
    if q == 0 {
      if p > 0 {
        PairsOfSelf(w, p - 1, |Roots(w)|);
      }
    } else {
      PairsOfSelf(w, p, q - 1);
      PairsNonNegative(w, w, p, q - 1);
      assert Roots(w)[p] in Roots(w) && Roots(w)[q - 1] in Roots(w);
      var td, job := Pairs(w, w, p, q - 1), Job(w, w, Roots(w)[p], Roots(w)[q - 1]);
      if td.Some? && Fill(job, td.value, job.Height(), job.Width()).Some? {
        FillOfSelf(job, td.value, job.Height(), job.Width());
      }
    }
  }

  /** A walk is at distance zero from itself whenever the tables can be filled. */
  lemma DistanceOfSelf(w: Walk)
    requires Walks(w, w)
    ensures Distance(w, w).Some? ==> Distance(w, w).value == 0.0
  {
    hide Pairs, Roots;
    PairsOfSelf(w, |Roots(w)|, 0);
  }

  // ----- indices outside the list -----

  /** Node x of keyroot i's range records an index so far left that even counting
      from the end it misses the table's rows. */
  predicate OverrunsAt(w: Walk, i: int, x: int)
    requires Bounded(w)
  {
    && 1 <= i <= |w.nodes|
    && IndexAt(w.first, i) <= x <= i
    && IndexAt(w.first, x) + (i - IndexAt(w.first, i) + 2) < IndexAt(w.first, i)
  }

  ghost predicate Overruns(w: Walk, i: int)
    requires Bounded(w)
  {
    exists x :: OverrunsAt(w, i, x)
  }

  lemma CellDefined(job: Job, s: State, di: nat, dj: nat)
    requires job.Valid() && job.Fits(s)
    requires 1 <= di <= job.Height() && 1 <= dj <= job.Width()
    ensures Cell(job, s, di, dj).Some? <==>
            !OverrunsAt(job.w1, job.i, job.Left1() + di - 1) && !OverrunsAt(job.w2, job.j, job.Left2() + dj - 1)
  {
    hide Rename;
  }

  ghost predicate FillSafe(job: Job, di: int, dj: int)
    requires job.Valid()
  {
    forall a, b :: 1 <= a <= job.Height() && 1 <= b <= job.Width() && Filled(di, dj, a, b) ==>
      !OverrunsAt(job.w1, job.i, job.Left1() + a - 1) && !OverrunsAt(job.w2, job.j, job.Left2() + b - 1)
  }

  lemma FillSafeStep(job: Job, di: int, dj: int, before: int)
    requires job.Valid() && 1 <= di <= job.Height() && 1 <= dj <= job.Width() && before == dj - 1
    ensures FillSafe(job, di, dj) <==>
            && FillSafe(job, di, before)
            && !OverrunsAt(job.w1, job.i, job.Left1() + di - 1) && !OverrunsAt(job.w2, job.j, job.Left2() + dj - 1)
  {
    hide OverrunsAt;
    assert Filled(di, dj, di, dj);
    assert forall a, b :: 1 <= a && 1 <= b ==>
      (Filled(di, dj, a, b) <==> Filled(di, before, a, b) || (a == di && b == dj));
  }

  lemma FillSafeTurn(job: Job, di: int, before: int)
    requires job.Valid() && 1 < di <= job.Height() && before == di - 1
    ensures FillSafe(job, di, 0) <==> FillSafe(job, before, job.Width())
  {
    hide OverrunsAt;
    var w := job.Width();
    assert forall a, b :: 1 <= a && 1 <= b <= w ==> (Filled(di, 0, a, b) <==> Filled(before, w, a, b));
  }

  lemma {:induction false} FillDefined(job: Job, td: Table, di: nat, dj: nat)
    requires job.Valid() && Shape(td, |job.w1.nodes| + 1, |job.w2.nodes| + 1)
    requires 1 <= di <= job.Height() && dj <= job.Width()
    ensures Fill(job, td, di, dj).Some? <==> FillSafe(job, di, dj)
    decreases di, dj
  {
    hide Cell, OverrunsAt;
    if dj == 0 {
      if di > 1 {
        FillDefined(job, td, di - 1, job.Width());
        FillSafeTurn(job, di, di - 1);
      }
    } else {
      FillDefined(job, td, di, dj - 1);
      FillSafeStep(job, di, dj, dj - 1);
      if FillSafe(job, di, dj - 1) {
        CellDefined(job, Fill(job, td, di, dj - 1).value, di, dj);
      }
    }
  }

  lemma TreeDistDefined(job: Job, td: Table)
    requires job.Valid() && Shape(td, |job.w1.nodes| + 1, |job.w2.nodes| + 1)
    ensures TreeDist(job, td).Some? <==> !Overruns(job.w1, job.i) && !Overruns(job.w2, job.j)
  {
    FillDefined(job, td, job.Height(), job.Width());
    hide Fill;
    if FillSafe(job, job.Height(), job.Width()) {
      forall x | job.Left1() <= x <= job.i ensures !OverrunsAt(job.w1, job.i, x) {
        assert Filled(job.Height(), job.Width(), x - job.Left1() + 1, 1);
      }
      forall y | job.Left2() <= y <= job.j ensures !OverrunsAt(job.w2, job.j, y) {
        assert Filled(job.Height(), job.Width(), 1, y - job.Left2() + 1);
      }
    }
  }

  /** Some keyroot's range overruns its table. */
  ghost predicate Crashes(w: Walk)
    requires Bounded(w)
  {
    exists k :: k in Roots(w) && Overruns(w, k)
  }

  ghost predicate PairSafe(w1: Walk, w2: Walk, r: int, c: int)
    requires Walks(w1, w2) && 0 <= r < |Roots(w1)| && 0 <= c < |Roots(w2)|
  {
    !Overruns(w1, Roots(w1)[r]) && !Overruns(w2, Roots(w2)[c])
  }

  /** No pair handled before (p, q) overruns. */
  ghost predicate PairsSafe(w1: Walk, w2: Walk, p: int, q: int)
    requires Walks(w1, w2)
  {
    forall r, c :: 0 <= r < |Roots(w1)| && 0 <= c < |Roots(w2)| && (r < p || (r == p && c < q)) ==>
      PairSafe(w1, w2, r, c)
  }

  lemma PairsSafeStep(w1: Walk, w2: Walk, p: nat, q: nat)
    requires Walks(w1, w2) && p < |Roots(w1)| && 1 <= q <= |Roots(w2)|
    ensures PairsSafe(w1, w2, p, q) <==> PairsSafe(w1, w2, p, q - 1) && PairSafe(w1, w2, p, q - 1)
  {
    hide Roots, PairSafe;
  }

  lemma {:induction false} PairsDefined(w1: Walk, w2: Walk, p: nat, q: nat)
    requires Walks(w1, w2)
    requires p <= |Roots(w1)| && q <= |Roots(w2)| && (q == 0 || p < |Roots(w1)|)
    ensures Pairs(w1, w2, p, q).Some? <==> PairsSafe(w1, w2, p, q)
    decreases p, q
  {
    hide TreeDist, Roots, Overruns;
    if q == 0 {
      if p > 0 {
        PairsDefined(w1, w2, p - 1, |Roots(w2)|);
      }
    } else {
      PairsDefined(w1, w2, p, q - 1);
      PairsSafeStep(w1, w2, p, q);
      assert Roots(w1)[p] in Roots(w1) && Roots(w2)[q - 1] in Roots(w2);
      if PairsSafe(w1, w2, p, q - 1) {
        TreeDistDefined(Job(w1, w2, Roots(w1)[p], Roots(w2)[q - 1]), Pairs(w1, w2, p, q - 1).value);
      }
    }
  }

  /** The run stops with an index error exactly when a keyroot of either walk overruns. */
  lemma DistanceDefined(w1: Walk, w2: Walk)
    requires Walks(w1, w2)
    ensures Distance(w1, w2).Some? <==> !Crashes(w1) && !Crashes(w2)
  {
    hide Pairs, Overruns;
    PairsDefined(w1, w2, |Roots(w1)|, 0);
    LastRoot(w1);
    LastRoot(w2);
    hide Roots;
    if PairsSafe(w1, w2, |Roots(w1)|, 0) {
      forall k | k in Roots(w1) ensures !Overruns(w1, k) {
        var r :| 0 <= r < |Roots(w1)| && Roots(w1)[r] == k;
        assert PairSafe(w1, w2, r, 0);
      }
      forall k | k in Roots(w2) ensures !Overruns(w2, k) {
        var c :| 0 <= c < |Roots(w2)| && Roots(w2)[c] == k;
        assert PairSafe(w1, w2, 0, c);
      }
    }
    if !Crashes(w1) && !Crashes(w2) {
      forall r, c | 0 <= r < |Roots(w1)| && 0 <= c < |Roots(w2)| ensures PairSafe(w1, w2, r, c) {
        assert Roots(w1)[r] in Roots(w1) && Roots(w2)[c] in Roots(w2);
      }
    }
  }
}
