/** On walks whose recorded indices are leftmost leaves, the keyroot tables hold
    the recursive forest distance, and every tree cell read was already final. */
module KeyrootCorrect {
  import opened Options
  import opened TreeEdit
  import opened Postorder
  import opened ForestSlices
  import opened KeyrootTables

  ghost predicate SoundJob(job: Job) {
    job.Valid() && Sound(job.w1) && Sound(job.w2)
  }

  function Left(job: Job, a: int): Forest
    requires job.Valid() && 0 <= a <= job.Height()
  {
    Slice(job.w1, job.Left1(), job.Left1() + a - 1)
  }

  function Right(job: Job, b: int): Forest
    requires job.Valid() && 0 <= b <= job.Width()
  {
    Slice(job.w2, job.Left2(), job.Left2() + b - 1)
  }

  /** Distance of the two subtrees rooted at nodes x and y. */
  function TreeCell(w1: Walk, w2: Walk, x: int, y: int): real
    requires 1 <= x <= |w1.nodes| && 1 <= y <= |w2.nodes|
  {
    Dist([NodeAt(w1.nodes, x)], [NodeAt(w2.nodes, y)])
  }

  /** Cell (a, b) lies on the border or was filled no later than (di, dj). */
  predicate Filled(di: int, dj: int, a: int, b: int) {
    a == 0 || b == 0 || a < di || (a == di && b <= dj)
  }

  /** Node x starts at the job's left edge: it is on the path down from the keyroot. */
  predicate OnEdge1(job: Job, x: int)
    requires job.Valid() && 1 <= x <= |job.w1.nodes|
  {
    IndexAt(job.w1.first, x) == job.Left1()
  }

  predicate OnEdge2(job: Job, y: int)
    requires job.Valid() && 1 <= y <= |job.w2.nodes|
  {
    IndexAt(job.w2.first, y) == job.Left2()
  }

  /** Every tree cell a job reads instead of writing is already final. */
  ghost predicate Ready(job: Job, td: Table)
    requires job.Valid() && Shape(td, |job.w1.nodes| + 1, |job.w2.nodes| + 1)
  {
    forall x, y :: job.Left1() <= x <= job.i && job.Left2() <= y <= job.j && !(OnEdge1(job, x) && OnEdge2(job, y)) ==>
      td[x][y] == TreeCell(job.w1, job.w2, x, y)
  }

  /** Forest cells filled so far hold forest distances; tree cells written so far
      hold tree distances and no other tree cell changed. */
  ghost predicate Exact(job: Job, td: Table, s: State, di: int, dj: int)
    requires job.Valid() && job.Fits(s) && Shape(td, |job.w1.nodes| + 1, |job.w2.nodes| + 1)
  {
    && (forall a, b :: 0 <= a <= job.Height() && 0 <= b <= job.Width() && Filled(di, dj, a, b) ==>
          s.fd[a][b] == Dist(Left(job, a), Right(job, b)))
    && (forall x, y :: 0 <= x <= |job.w1.nodes| && 0 <= y <= |job.w2.nodes| ==>
          s.td[x][y] == if Written(job, di, dj, x, y) then TreeCell(job.w1, job.w2, x, y) else td[x][y])
  }

  predicate Written(job: Job, di: int, dj: int, x: int, y: int)
    requires job.Valid() && 0 <= x <= |job.w1.nodes| && 0 <= y <= |job.w2.nodes|
  {
    && job.Left1() <= x <= job.i && job.Left2() <= y <= job.j
    && OnEdge1(job, x) && OnEdge2(job, y)
    && Filled(di, dj, x - job.Left1() + 1, y - job.Left2() + 1)
  }

  /** In a range of a sound walk no index lies left of the range's own. */
  lemma IndexInside(w: Walk, i: int, x: int)
    requires Sound(w) && 1 <= i <= |w.nodes| && IndexAt(w.first, i) <= x <= i
    ensures IndexAt(w.first, i) <= IndexAt(w.first, x) <= x
  {
    assert SoundAt(w, i);
  }

  lemma {:induction false} SizeOfSlice(w: Walk, a: int, x: int)
    requires Sound(w) && 1 <= a && a - 1 <= x <= |w.nodes|
    requires forall k :: a <= k <= x ==> a <= IndexAt(w.first, k)
    ensures Size(Slice(w, a, x)) == x - a + 1
    decreases x
  {
    if a <= x {
      SliceDeleted(w, a, x);
      SizeOfSlice(w, a, x - 1);
    }
  }

  /** The recurrence for one cell, in terms of ranges. */
  lemma CellIsDistance(job: Job, di: int, dj: int)
    requires SoundJob(job) && 1 <= di <= job.Height() && 1 <= dj <= job.Width()
    ensures var ni, nj := job.Left1() + di - 1, job.Left2() + dj - 1;
      var pi, pj := IndexAt(job.w1.first, ni) - job.Left1(), IndexAt(job.w2.first, nj) - job.Left2();
      && 0 <= pi < di && 0 <= pj < dj
      && Dist(Left(job, di), Right(job, dj)) ==
         Cheapest(Dist(Left(job, di - 1), Right(job, dj)), Dist(Left(job, di), Right(job, dj - 1)),
                  Dist(Left(job, pi), Right(job, pj)) + TreeCell(job.w1, job.w2, ni, nj))
  {
    hide Dist, Slice, Sound;
    var ni, nj := job.Left1() + di - 1, job.Left2() + dj - 1;
    IndexInside(job.w1, job.i, ni);
    IndexInside(job.w2, job.j, nj);
    SliceDeleted(job.w1, job.Left1(), ni);
    SliceDeleted(job.w2, job.Left2(), nj);
    DistByWholeTrees(Left(job, di), Right(job, dj));
  }

  /** On the left edge of both trees the cell is the distance of two whole trees. */
  lemma EdgeCellIsDistance(job: Job, di: int, dj: int)
    requires SoundJob(job) && 1 <= di <= job.Height() && 1 <= dj <= job.Width()
    requires OnEdge1(job, job.Left1() + di - 1) && OnEdge2(job, job.Left2() + dj - 1)
    ensures var ni, nj := job.Left1() + di - 1, job.Left2() + dj - 1;
      && Dist(Left(job, di), Right(job, dj)) == TreeCell(job.w1, job.w2, ni, nj)
      && TreeCell(job.w1, job.w2, ni, nj) ==
         Cheapest(Dist(Left(job, di - 1), Right(job, dj)), Dist(Left(job, di), Right(job, dj - 1)),
                  Dist(Left(job, di - 1), Right(job, dj - 1))
                  + Rename(NodeAt(job.w1.nodes, ni), NodeAt(job.w2.nodes, nj)))
  {
    hide Dist, Slice, Sound;
    var ni, nj := job.Left1() + di - 1, job.Left2() + dj - 1;
    SliceOfTree(job.w1, ni);
    SliceOfTree(job.w2, nj);
    DistOfTrees(NodeAt(job.w1.nodes, ni), NodeAt(job.w2.nodes, nj));
  }

  lemma BordersExact(job: Job, td: Table)
    requires SoundJob(job) && Shape(td, |job.w1.nodes| + 1, |job.w2.nodes| + 1)
    ensures Exact(job, td, State(Borders(job.Height() + 1, job.Width() + 1), td), 1, 0)
  {
    hide Dist, Slice, Sound;
    forall a, b | 0 <= a <= job.Height() && 0 <= b <= job.Width() && Filled(1, 0, a, b)
      ensures Borders(job.Height() + 1, job.Width() + 1)[a][b] == Dist(Left(job, a), Right(job, b))
    {
      EdgeSizes(job, a, b);
      if a == 0 {
        DistEmpty(Left(job, a), Right(job, b));
      } else {
        DistEmpty(Right(job, b), Left(job, a));
      }
    }
  }

  lemma RangeSize(w: Walk, i: int, a: int)
    requires Sound(w) && 1 <= i <= |w.nodes| && 0 <= a <= i - IndexAt(w.first, i) + 1
    ensures Size(Slice(w, IndexAt(w.first, i), IndexAt(w.first, i) + a - 1)) == a
    ensures a == 0 ==> Slice(w, IndexAt(w.first, i), IndexAt(w.first, i) + a - 1) == []
  {
    forall k | IndexAt(w.first, i) <= k <= i ensures IndexAt(w.first, i) <= IndexAt(w.first, k) {
      IndexInside(w, i, k);
    }
    SizeOfSlice(w, IndexAt(w.first, i), IndexAt(w.first, i) + a - 1);
  }

  lemma EdgeSizes(job: Job, a: int, b: int)
    requires SoundJob(job) && 0 <= a <= job.Height() && 0 <= b <= job.Width()
    ensures Size(Left(job, a)) == a && Size(Right(job, b)) == b
    ensures a == 0 ==> Left(job, a) == []
    ensures b == 0 ==> Right(job, b) == []
  {
    hide Size, Slice, Sound;
    RangeSize(job.w1, job.i, a);
    RangeSize(job.w2, job.j, b);
  }

  lemma CellWritesOnEdge(job: Job, td: Table, s: State, di: nat, dj: nat)
    requires SoundJob(job) && Shape(td, |job.w1.nodes| + 1, |job.w2.nodes| + 1) && job.Fits(s)
    requires 1 <= di <= job.Height() && 1 <= dj <= job.Width()
    requires Exact(job, td, s, di, dj - 1)
    requires OnEdge1(job, job.Left1() + di - 1) && OnEdge2(job, job.Left2() + dj - 1)
    ensures var ni, nj := job.Left1() + di - 1, job.Left2() + dj - 1;
      Cell(job, s, di, dj) == Some(State(Put(s.fd, di, dj, Dist(Left(job, di), Right(job, dj))),
                                         Put(s.td, ni, nj, TreeCell(job.w1, job.w2, ni, nj))))
  {
    hide Dist, Slice, Sound, TreeCell, Left, Right, Put, Rename;
    EdgeCellIsDistance(job, di, dj);
  }

  lemma CellWritesInside(job: Job, td: Table, s: State, di: nat, dj: nat)
    requires SoundJob(job) && Shape(td, |job.w1.nodes| + 1, |job.w2.nodes| + 1) && job.Fits(s)
    requires 1 <= di <= job.Height() && 1 <= dj <= job.Width()
    requires Ready(job, td) && Exact(job, td, s, di, dj - 1)
    requires !(OnEdge1(job, job.Left1() + di - 1) && OnEdge2(job, job.Left2() + dj - 1))
    ensures Cell(job, s, di, dj) == Some(State(Put(s.fd, di, dj, Dist(Left(job, di), Right(job, dj))), s.td))
  {
    hide Dist, Slice, Sound, TreeCell, Left, Right, Put;
    var ni, nj := job.Left1() + di - 1, job.Left2() + dj - 1;
    CellIsDistance(job, di, dj);
    assert !Written(job, di, dj - 1, ni, nj);
    assert s.td[ni][nj] == TreeCell(job.w1, job.w2, ni, nj);
  }

  /** What one loop body writes: the forest distance, and on the edges the tree distance. */
  lemma CellWrites(job: Job, td: Table, s: State, di: nat, dj: nat)
    requires SoundJob(job) && Shape(td, |job.w1.nodes| + 1, |job.w2.nodes| + 1) && job.Fits(s)
    requires 1 <= di <= job.Height() && 1 <= dj <= job.Width()
    requires Ready(job, td) && Exact(job, td, s, di, dj - 1)
    ensures var ni, nj := job.Left1() + di - 1, job.Left2() + dj - 1;
      var r := Cell(job, s, di, dj);
      && r.Some?
      && r.value.fd == Put(s.fd, di, dj, Dist(Left(job, di), Right(job, dj)))
      && r.value.td == (if OnEdge1(job, ni) && OnEdge2(job, nj)
                        then Put(s.td, ni, nj, TreeCell(job.w1, job.w2, ni, nj)) else s.td)
  {
    hide Dist, Slice, Sound, TreeCell, Left, Right, Put, Cell, Exact, Ready;
    if OnEdge1(job, job.Left1() + di - 1) && OnEdge2(job, job.Left2() + dj - 1) {
      CellWritesOnEdge(job, td, s, di, dj);
    } else {
      CellWritesInside(job, td, s, di, dj);
    }
  }

  lemma CellExact(job: Job, td: Table, s: State, di: nat, dj: nat)
    requires SoundJob(job) && Shape(td, |job.w1.nodes| + 1, |job.w2.nodes| + 1) && job.Fits(s)
    requires 1 <= di <= job.Height() && 1 <= dj <= job.Width()
    requires Ready(job, td) && Exact(job, td, s, di, dj - 1)
    ensures Cell(job, s, di, dj).Some? && Exact(job, td, Cell(job, s, di, dj).value, di, dj)
  {
    hide Dist, Slice, Sound, TreeCell, Left, Right, Cell, Put;
    CellWrites(job, td, s, di, dj);
    var r := Cell(job, s, di, dj).value;
    forall a, b | 0 <= a <= job.Height() && 0 <= b <= job.Width() && Filled(di, dj, a, b)
      ensures r.fd[a][b] == Dist(Left(job, a), Right(job, b))
    {
      assert (a == di && b == dj) || Filled(di, dj - 1, a, b);
    }
    forall x, y | 0 <= x <= |job.w1.nodes| && 0 <= y <= |job.w2.nodes|
      ensures r.td[x][y] == if Written(job, di, dj, x, y) then TreeCell(job.w1, job.w2, x, y) else td[x][y]
    {
      assert Written(job, di, dj - 1, x, y) ==> Written(job, di, dj, x, y);
    }
  }

  lemma NextRow(job: Job, td: Table, s: State, di: nat)
    requires job.Valid() && Shape(td, |job.w1.nodes| + 1, |job.w2.nodes| + 1) && job.Fits(s)
    requires 1 < di <= job.Height()
    requires Exact(job, td, s, di - 1, job.Width())
    ensures Exact(job, td, s, di, 0)
  {
    hide Dist, Slice, TreeCell, Left, Right;
    forall x, y | 0 <= x <= |job.w1.nodes| && 0 <= y <= |job.w2.nodes|
      ensures Written(job, di, 0, x, y) == Written(job, di - 1, job.Width(), x, y)
    {
    }
  }

  lemma {:induction false} FillExact(job: Job, td: Table, di: nat, dj: nat)
    requires SoundJob(job) && Shape(td, |job.w1.nodes| + 1, |job.w2.nodes| + 1) && Ready(job, td)
    requires 1 <= di <= job.Height() && dj <= job.Width()
    ensures Fill(job, td, di, dj).Some? && Exact(job, td, Fill(job, td, di, dj).value, di, dj)
    decreases di, dj
  {
    hide Dist, Slice, Sound, TreeCell, Left, Right, Exact, Ready, Cell, Borders;
    if dj == 0 {
      if di == 1 {
        BordersExact(job, td);
      } else {
        FillExact(job, td, di - 1, job.Width());
        NextRow(job, td, Fill(job, td, di - 1, job.Width()).value, di);
      }
    } else {
      FillExact(job, td, di, dj - 1);
      CellExact(job, td, Fill(job, td, di, dj - 1).value, di, dj);
    }
  }

  // ----- over all keyroot pairs -----

  /** Node x shares its index with one of the first p keyroots. */
  predicate Settled(w: Walk, p: nat, x: int)
    requires Bounded(w) && p <= |Roots(w)| && 1 <= x <= |w.nodes|
  {
    exists r :: 0 <= r < p && SameIndex(w, Roots(w)[r], x)
  }

  predicate SameIndex(w: Walk, k: int, x: int)
    requires |w.nodes| == |w.first|
  {
    1 <= k <= |w.nodes| && 1 <= x <= |w.nodes| && IndexAt(w.first, k) == IndexAt(w.first, x)
  }

  lemma {:induction false} KeyrootAbove(w: Walk, x: int) returns (k: int)
    requires Bounded(w) && 1 <= x <= |w.nodes|
    ensures x <= k && IsKeyroot(w.first, k) && SameIndex(w, k, x)
    decreases |w.nodes| - x
  {
    k := x;
    if !IsKeyroot(w.first, x) {
      var j :| x < j <= |w.first| && IndexAt(w.first, j) == IndexAt(w.first, x);
      k := KeyrootAbove(w, j);
    }
  }

  lemma AllSettled(w: Walk, x: int)
    requires Bounded(w) && 1 <= x <= |w.nodes|
    ensures Settled(w, |Roots(w)|, x)
  {
    var k := KeyrootAbove(w, x);
    assert k in Roots(w);
    var r :| 0 <= r < |Roots(w)| && Roots(w)[r] == k;
    assert SameIndex(w, Roots(w)[r], x);
  }

  /** A node of a keyroot's range that is off its edge belongs to an earlier keyroot. */
  lemma OffEdgeIsEarlier(w: Walk, p: nat, x: int)
    requires Sound(w) && p < |Roots(w)|
    requires Roots(w)[p] in Roots(w)
    requires IndexAt(w.first, Roots(w)[p]) <= x <= Roots(w)[p]
    requires IndexAt(w.first, x) != IndexAt(w.first, Roots(w)[p])
    ensures Settled(w, p, x)
  {
    var i := Roots(w)[p];
    IndexInside(w, i, x);
    var k := KeyrootAbove(w, x);
    if k >= i {
      IndexInside(w, k, i);
      assert false;
    }
    assert k in Roots(w);
    var r :| 0 <= r < |Roots(w)| && Roots(w)[r] == k;
    assert r < p;
    assert SameIndex(w, Roots(w)[r], x);
  }

  /** Tree cell (x, y) is final after p keyroot rows and q columns of the next. */
  predicate Final(w1: Walk, w2: Walk, p: nat, q: nat, x: int, y: int)
    requires Bounded(w1) && Bounded(w2)
    requires p <= |Roots(w1)| && q <= |Roots(w2)| && (q == 0 || p < |Roots(w1)|)
    requires 1 <= x <= |w1.nodes| && 1 <= y <= |w2.nodes|
  {
    Settled(w1, p, x) || (q > 0 && SameIndex(w1, Roots(w1)[p], x) && Settled(w2, q, y))
  }

  ghost predicate PairsExact(w1: Walk, w2: Walk, p: nat, q: nat, td: Table)
    requires Bounded(w1) && Bounded(w2)
    requires p <= |Roots(w1)| && q <= |Roots(w2)| && (q == 0 || p < |Roots(w1)|)
    requires Shape(td, |w1.nodes| + 1, |w2.nodes| + 1)
  {
    forall x, y :: 1 <= x <= |w1.nodes| && 1 <= y <= |w2.nodes| && Final(w1, w2, p, q, x, y) ==>
      td[x][y] == TreeCell(w1, w2, x, y)
  }

  /** When keyroot pair (p, q) starts, everything its table reads is final. */
  lemma ReadsAreFinal(w1: Walk, w2: Walk, p: nat, q: nat, td: Table)
    requires Walks(w1, w2) && Sound(w1) && Sound(w2) && p < |Roots(w1)| && q < |Roots(w2)|
    requires Shape(td, |w1.nodes| + 1, |w2.nodes| + 1)
    requires Roots(w1)[p] in Roots(w1) && Roots(w2)[q] in Roots(w2)
    requires PairsExact(w1, w2, p, q, td)
    ensures Ready(Job(w1, w2, Roots(w1)[p], Roots(w2)[q]), td)
  {
    hide Dist, Slice, TreeCell, Roots, Settled, Sound;
    var job := Job(w1, w2, Roots(w1)[p], Roots(w2)[q]);
    forall x, y | job.Left1() <= x <= job.i && job.Left2() <= y <= job.j && !(OnEdge1(job, x) && OnEdge2(job, y))
      ensures td[x][y] == TreeCell(w1, w2, x, y)
    {
      if !OnEdge1(job, x) {
        OffEdgeIsEarlier(w1, p, x);
      } else {
        OffEdgeIsEarlier(w2, q, y);
        NoneSettled(w2, y);
        assert q > 0;
        assert SameIndex(w1, Roots(w1)[p], x);
      }
      assert Final(w1, w2, p, q, x, y);
    }
  }

  lemma NoneSettled(w: Walk, x: int)
    requires Bounded(w) && 1 <= x <= |w.nodes|
    ensures !Settled(w, 0, x)
  {
  }

  /** One more keyroot makes final exactly the nodes that share its index. */
  lemma SettledStep(w: Walk, p: nat, x: int)
    requires Bounded(w) && p < |Roots(w)| && 1 <= x <= |w.nodes|
    ensures Settled(w, p + 1, x) <==> Settled(w, p, x) || SameIndex(w, Roots(w)[p], x)
  {
    if Settled(w, p + 1, x) {
      var r :| 0 <= r < p + 1 && SameIndex(w, Roots(w)[r], x);
      assert r < p ==> Settled(w, p, x);
    }
    if Settled(w, p, x) {
      var r :| 0 <= r < p && SameIndex(w, Roots(w)[r], x);
    }
  }

  lemma EdgeIsInRange(w: Walk, k: int, x: int)
    requires Bounded(w) && IsKeyroot(w.first, k) && SameIndex(w, k, x)
    ensures IndexAt(w.first, k) <= x <= k
  {
  }

  lemma PairExact(w1: Walk, w2: Walk, p: nat, q: nat, td: Table)
    requires Walks(w1, w2) && Sound(w1) && Sound(w2) && p < |Roots(w1)| && q < |Roots(w2)|
    requires Shape(td, |w1.nodes| + 1, |w2.nodes| + 1)
    requires Roots(w1)[p] in Roots(w1) && Roots(w2)[q] in Roots(w2)
    requires PairsExact(w1, w2, p, q, td)
    ensures var r := TreeDist(Job(w1, w2, Roots(w1)[p], Roots(w2)[q]), td);
            r.Some? && PairsExact(w1, w2, p, q + 1, r.value)
  {
    hide Dist, Slice, TreeCell, Roots, Settled, Sound, Fill;
    var job := Job(w1, w2, Roots(w1)[p], Roots(w2)[q]);
    ReadsAreFinal(w1, w2, p, q, td);
    FillExact(job, td, job.Height(), job.Width());
    var done := Fill(job, td, job.Height(), job.Width()).value;
    forall x, y | 1 <= x <= |w1.nodes| && 1 <= y <= |w2.nodes| && Final(w1, w2, p, q + 1, x, y)
      ensures done.td[x][y] == TreeCell(w1, w2, x, y)
    {
      SettledStep(w2, q, y);
      if !Written(job, job.Height(), job.Width(), x, y) {
        if !Final(w1, w2, p, q, x, y) {
          NoneSettled(w2, y);
          EdgeIsInRange(w1, job.i, x);
          EdgeIsInRange(w2, job.j, y);
          assert false;
        }
      }
    }
  }

  lemma {:induction false} PairsAreExact(w1: Walk, w2: Walk, p: nat, q: nat)
    requires Walks(w1, w2) && Sound(w1) && Sound(w2)
    requires p <= |Roots(w1)| && q <= |Roots(w2)| && (q == 0 || p < |Roots(w1)|)
    ensures Pairs(w1, w2, p, q).Some? && PairsExact(w1, w2, p, q, Pairs(w1, w2, p, q).value)
    decreases p, q
  {
    hide Dist, Slice, TreeCell, Roots, Settled, Sound, Fill;
    if q == 0 {
      if p == 0 {
        forall x | 1 <= x <= |w1.nodes| ensures !Settled(w1, 0, x) {
          NoneSettled(w1, x);
        }
      } else {
        PairsAreExact(w1, w2, p - 1, |Roots(w2)|);
        var td := Pairs(w1, w2, p - 1, |Roots(w2)|).value;
        forall x, y | 1 <= x <= |w1.nodes| && 1 <= y <= |w2.nodes| && Final(w1, w2, p, 0, x, y)
          ensures td[x][y] == TreeCell(w1, w2, x, y)
        {
          SettledStep(w1, p - 1, x);
          AllSettled(w2, y);
          NoneSettled(w2, y);
          assert Final(w1, w2, p - 1, |Roots(w2)|, x, y);
        }
      }
    } else {
      PairsAreExact(w1, w2, p, q - 1);
      assert Roots(w1)[p] in Roots(w1) && Roots(w2)[q - 1] in Roots(w2);
      PairExact(w1, w2, p, q - 1, Pairs(w1, w2, p, q - 1).value);
    }
  }

  /** The keyroot tables compute the edit distance of the two last nodes. */
  lemma DistanceIsExact(w1: Walk, w2: Walk)
    requires Walks(w1, w2) && Sound(w1) && Sound(w2)
    ensures Distance(w1, w2) == Some(TreeCell(w1, w2, |w1.nodes|, |w2.nodes|))
  {
    hide Dist, Slice, TreeCell, Settled, Sound, Pairs;
    PairsAreExact(w1, w2, |Roots(w1)|, 0);
    AllSettled(w1, |w1.nodes|);
    assert Final(w1, w2, |Roots(w1)|, 0, |w1.nodes|, |w2.nodes|);
  }
}
