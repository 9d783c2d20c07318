/** When the order of two tables never matters: a table of at most one row that is not a
    single cell. The two runs mirror each other except in cells too dear to be used. */
module TableMirror {
  import opened TreeEdit
  import opened Postorder
  import opened ForestSlices
  import opened KeyrootTables
  import opened KeyrootCorrect
  import opened FinalTables
  import opened BelowRoot
  import opened TableScore
  import opened TableWalks
  import opened TopTables
  import opened TableSeparation
  import opened TableSymmetry

  /** The same two tables in both orders. */
  ghost predicate Mirrored(r: Run, s: Run) {
    && Scored(r) && Scored(s)
    && s.w1 == r.w2 && s.v1 == r.v2 && s.r1 == r.r2 && s.w2 == r.w1 && s.v2 == r.v1 && s.r2 == r.r1
  }

  /** At most one row, and that not a single cell. */
  predicate Short(r: Run) {
    |r.r1| <= 1 && r.K1() != 1
  }

  /** Where the short table's places refer back to: the root and a blank row to the start,
      a row of two cells to itself, a row of three to the start. */
  function ShortRef(r: Run, a: int): int {
    if a == 1 < r.H() && r.K1() == 2 then 1 else 0
  }

  predicate ShortEdge(r: Run, a: int) {
    a == r.H() || r.K1() == 0
  }

  lemma ShortShape(r: Run)
    requires Scored(r) && Short(r)
    ensures r.r1 == [] ==> r.H() == 1 && r.N1() == 1 && r.K1() == 0
    ensures r.r1 != [] ==> r.H() == 2 && r.N1() == r.K1() + 2 && r.K1() in {0, 2, 3}
    ensures |r.w1.first| == r.N1() && |r.w2.first| == r.N2()
    ensures r.r1 != [] ==> forall x :: 1 <= x <= r.K1() + 1 ==> IndexAt(r.w1.first, x) == if x <= r.K1() then x else 1
    ensures r.r1 != [] ==> forall x :: 1 <= x <= r.K1() ==> Size([NodeAt(r.w1.nodes, x)]) == 1
    ensures r.r1 != [] ==> Size([NodeAt(r.w1.nodes, r.K1() + 1)]) == r.K1() + 1
  {
    FirstRowWidth(r.w1, r.v1, r.r1);
    if r.r1 == [] {
      EmptySize(r.r1);
    } else {
      assert RowAt(r.w1, r.r1, 0);
      StartStep(r.r1, 0);
      assert r.r1[0] in r.r1;
      forall x | 1 <= x <= r.K1()
        ensures IndexAt(r.w1.first, x) == x && Size([NodeAt(r.w1.nodes, x)]) == 1
      {
        assert CellAt(r.w1, r.r1[0], 0, x);
        assert r.r1[0].children[x - 1] in r.r1[0].children;
        LeafSize(r.r1[0].children[x - 1]);
      }
    }
  }

  lemma ShortPlace(r: Run, a: int)
    requires Scored(r) && Short(r) && 1 <= a <= r.H()
    ensures Bounded(r.w1) && Back(r.w1, r.N1(), r.K1() + a) == ShortRef(r, a)
    ensures Ref(r.w1, r.K1(), a) == ShortRef(r, a)
    ensures IndexAt(r.w1.first, r.K1() + a) == r.K1() + 1 <==> ShortEdge(r, a)
    ensures OnEdge(r.w1, r.K1(), a) <==> ShortEdge(r, a)
  {
    ShortShape(r);
    Geometry(r.w1, r.v1, r.r1, a);
    hide TableWalk, Finished, Solves, Framed, Size;
  }

  lemma DistMirror(r: Run, s: Run, x: int, y: int)
    requires Mirrored(r, s) && 1 <= x < r.N1() && 1 <= y < r.N2()
    ensures Get(r.td, x, y) == Get(s.td, y, x)
  {
    BelowIsDist(r, x, y);
    BelowIsDist(s, y, x);
    hide TableWalk, Finished, Solves, Dist;
    DistSymmetric([NodeAt(r.w1.nodes, x)], [NodeAt(r.w2.nodes, y)]);
  }

  // ----- the short root against the other table's nodes -----

  ghost predicate FootOf(r: Run, y: int, job: Job, e: Table) {
    Scored(r) && Short(r) && 1 <= y < r.N2() && Spans(r.w1, r.w2, r.td, r.N1(), y, job, e)
  }

  ghost predicate FootBeside(s: Run, y: int, job: Job, e: Table) {
    Scored(s) && 1 <= y < s.N1() && Spans(s.w1, s.w2, s.td, y, s.N2(), job, e)
  }

  /** Where node y's own range starts, and where place b of it refers back to. */
  function Low(w: Walk, y: int): int {
    if |w.first| == |w.nodes| && 1 <= y <= |w.nodes| then IndexAt(w.first, y) else 0
  }

  function Ahead(w: Walk, y: int, b: int): int {
    Low(w, Low(w, y) + b - 1) - Low(w, y)
  }

  lemma RangeBelow(w: Walk, v: Walk, y: int, b: int)
    requires Documented(w, v) && 1 <= y < |w.nodes| && 1 <= b <= y - Low(w, y) + 1
    ensures 1 <= Low(w, y) <= Low(w, y) + b - 1 <= y && 0 <= Ahead(w, y, b) < b
    ensures b == y - Low(w, y) + 1 ==> Ahead(w, y, b) == 0
  {
    NestedBelow(w, v, y);
  }

  function FootThird(r: Run, e: Table, y: int, a: int, b: int): real {
    var u, p := Low(r.w2, y) + b - 1, Ahead(r.w2, y, b);
    if !(1 <= r.K1() + a <= |r.w1.nodes| && 1 <= u <= |r.w2.nodes|) then 0.0
    else if ShortEdge(r, a) && p == 0 then
      Get(e, a - 1, b - 1) + Rename(NodeAt(r.w1.nodes, r.K1() + a), NodeAt(r.w2.nodes, u))
    else Get(e, ShortRef(r, a), p) + Get(r.td, r.K1() + a, u)
  }

  lemma FootOfJob(r: Run, y: int, job: Job, e: Table)
    requires FootOf(r, y, job, e)
    ensures job.Valid() && Solves(job, r.td, e) && job.w1 == r.w1 && job.w2 == r.w2
    ensures job.i == r.N1() && job.Left1() == r.K1() + 1 && job.Height() == r.H()
    ensures job.Left2() == Low(r.w2, y) && y - Low(r.w2, y) + 1 <= job.Width()
    ensures Documented(r.w2, r.v2) && y < |r.w2.nodes|
  {
    RootRow(r);
    hide Finished, Solves, Size, RowAt;
  }

  lemma FootOfRefs(r: Run, y: int, job: Job, e: Table, a: int, b: int)
    requires FootOf(r, y, job, e) && 1 <= a <= r.H() && 1 <= b <= y - Low(r.w2, y) + 1
    ensures job.Valid() && job.Left1() == r.K1() + 1 && job.Left2() == Low(r.w2, y)
    ensures a <= job.Height() && b <= job.Width()
    ensures Back(job.w1, job.i, r.K1() + a) == ShortRef(r, a)
    ensures Back(job.w2, job.j, Low(r.w2, y) + b - 1) == Ahead(r.w2, y, b)
    ensures OnEdge1(job, r.K1() + a) <==> ShortEdge(r, a)
    ensures OnEdge2(job, Low(r.w2, y) + b - 1) <==> Ahead(r.w2, y, b) == 0
    ensures 0 <= ShortRef(r, a) <= r.H() && 0 <= Ahead(r.w2, y, b) < b
    ensures ShortRef(r, a) < a || (ShortRef(r, a) == a && Ahead(r.w2, y, b) < b)
  {
    hide Scored, Documented, Solves, Running, Framed;
    FootOfJob(r, y, job, e);
    RangeBelow(r.w2, r.v2, y, b);
    ShortPlace(r, a);
  }

  /** A cell of the short root's table against node y. */
  lemma FootOfCell(r: Run, y: int, job: Job, e: Table, a: int, b: int)
    requires FootOf(r, y, job, e) && 1 <= a <= r.H() && 1 <= b <= y - Low(r.w2, y) + 1
    ensures Get(e, a, b) == Cheapest(Get(e, a - 1, b), Get(e, a, b - 1), FootThird(r, e, y, a, b))
  {
    hide FootOf, Scored, Documented, Solves, Rename, Cheapest, Get, OnEdge1, OnEdge2, Back, Low, Ahead, ShortRef, ShortEdge;
    FootOfJob(r, y, job, e);
    FootOfRefs(r, y, job, e, a, b);
    FilledCell(job, r.td, e, a, b, ShortRef(r, a), Ahead(r.w2, y, b));
  }

  function BesideThird(r: Run, s: Run, e: Table, y: int, a: int, b: int): real {
    var u, p := Low(r.w2, y) + b - 1, Ahead(r.w2, y, b);
    if !(1 <= r.K1() + a <= |r.w1.nodes| && 1 <= u <= |r.w2.nodes|) then 0.0
    else if ShortEdge(r, a) && p == 0 then
      Get(e, b - 1, a - 1) + Rename(NodeAt(r.w2.nodes, u), NodeAt(r.w1.nodes, r.K1() + a))
    else Get(e, p, ShortRef(r, a)) + Get(s.td, u, r.K1() + a)
  }

  lemma FootBesideJob(r: Run, s: Run, y: int, job: Job, e: Table)
    requires Mirrored(r, s) && Short(r) && FootBeside(s, y, job, e)
    ensures job.Valid() && Solves(job, s.td, e) && job.w1 == r.w2 && job.w2 == r.w1
    ensures job.j == r.N1() && job.Left2() == r.K1() + 1 && job.Width() == r.H()
    ensures job.Left1() == Low(r.w2, y) && y - Low(r.w2, y) + 1 <= job.Height()
    ensures Documented(r.w2, r.v2) && y < |r.w2.nodes|
  {
    RootRow(s);
    hide Finished, Solves, Size, RowAt;
  }

  lemma FootBesideRefs(r: Run, s: Run, y: int, job: Job, e: Table, a: int, b: int)
    requires Mirrored(r, s) && Short(r) && FootBeside(s, y, job, e)
    requires 1 <= a <= r.H() && 1 <= b <= y - Low(r.w2, y) + 1
    ensures job.Valid() && job.Left1() == Low(r.w2, y) && job.Left2() == r.K1() + 1
    ensures b <= job.Height() && a <= job.Width()
    ensures Back(job.w1, job.i, Low(r.w2, y) + b - 1) == Ahead(r.w2, y, b)
    ensures Back(job.w2, job.j, r.K1() + a) == ShortRef(r, a)
    ensures OnEdge2(job, r.K1() + a) <==> ShortEdge(r, a)
    ensures OnEdge1(job, Low(r.w2, y) + b - 1) <==> Ahead(r.w2, y, b) == 0
    ensures 0 <= ShortRef(r, a) <= r.H() && 0 <= Ahead(r.w2, y, b) < b
  {
    FootBesideJob(r, s, y, job, e);
    RangeBelow(r.w2, r.v2, y, b);
    ShortPlace(r, a);
    hide FootBeside, Scored, Mirrored, Documented, Solves;
  }

  lemma FootBesideCell(r: Run, s: Run, y: int, job: Job, e: Table, a: int, b: int)
    requires Mirrored(r, s) && Short(r) && FootBeside(s, y, job, e)
    requires 1 <= a <= r.H() && 1 <= b <= y - Low(r.w2, y) + 1
    ensures Get(e, b, a) == Cheapest(Get(e, b - 1, a), Get(e, b, a - 1), BesideThird(r, s, e, y, a, b))
  {
    hide FootBeside, Scored, Mirrored, Documented, Solves, Rename, Cheapest, Get, OnEdge1, OnEdge2, Back, Low, Ahead, ShortRef, ShortEdge;
    FootBesideJob(r, s, y, job, e);
    FootBesideRefs(r, s, y, job, e, a, b);
    FilledCell(job, s.td, e, b, a, Ahead(r.w2, y, b), ShortRef(r, a));
  }

  /** Both orders see the same borders and edges of these tables. */
  lemma FootEnds(r: Run, s: Run, y: int, job: Job, e: Table, jobs: Job, es: Table, a: int, b: int)
    requires Mirrored(r, s) && FootOf(r, y, job, e) && FootBeside(s, y, jobs, es)
    requires 0 <= a <= r.H() && 0 <= b <= y - Low(r.w2, y) + 1
    ensures Get(e, a, 0) == a as real == Get(es, 0, a) && Get(e, 0, b) == b as real == Get(es, b, 0)
    ensures Get(r.td, r.N1(), y) == Get(e, r.H(), y - Low(r.w2, y) + 1)
    ensures Get(s.td, y, r.N1()) == Get(es, y - Low(r.w2, y) + 1, r.H())
    ensures 1 <= Low(r.w2, y) <= y
  {
    FootOfJob(r, y, job, e);
    FootBesideJob(r, s, y, jobs, es);
    RangeBelow(r.w2, r.v2, y, 1);
    BorderCells(job, r.td, e, a, b);
    BorderCells(jobs, s.td, es, b, a);
    SpansValue(job, r.td, e, r.N1(), y);
    SpansValue(jobs, s.td, es, y, r.N1());
    hide FootOf, FootBeside, Scored, Mirrored, Documented, Solves;
  }

  lemma ThirdsMirror(r: Run, s: Run, y: int, e: Table, es: Table, a: int, b: int)
    requires Mirrored(r, s) && Short(r) && 1 <= y < r.N2() && 1 <= a <= r.H() && 1 <= b <= y - Low(r.w2, y) + 1
    requires Get(e, a - 1, b - 1) == Get(es, b - 1, a - 1)
    requires Get(e, ShortRef(r, a), Ahead(r.w2, y, b)) == Get(es, Ahead(r.w2, y, b), ShortRef(r, a))
    requires (ShortEdge(r, a) && Ahead(r.w2, y, b) == 0)
          || Get(r.td, r.K1() + a, Low(r.w2, y) + b - 1) == Get(s.td, Low(r.w2, y) + b - 1, r.K1() + a)
    ensures FootThird(r, e, y, a, b) == BesideThird(r, s, es, y, a, b)
  {
    hide Scored, Mirrored, Rename, Get, Low, Ahead, ShortRef, ShortEdge;
    var u := Low(r.w2, y) + b - 1;
    if 1 <= r.K1() + a <= |r.w1.nodes| && 1 <= u <= |r.w2.nodes| {
      RenameSymmetric(NodeAt(r.w1.nodes, r.K1() + a), NodeAt(r.w2.nodes, u));
    }
  }

  lemma {:induction false} FootMirror(r: Run, s: Run, y: int, job: Job, e: Table, jobs: Job, es: Table, a: int, b: int)
    requires Mirrored(r, s) && Short(r) && FootOf(r, y, job, e) && FootBeside(s, y, jobs, es)
    requires 0 <= a <= r.H() && 0 <= b <= y - Low(r.w2, y) + 1
    ensures Get(e, a, b) == Get(es, b, a)
    decreases y, 1, b, a
  {
    hide FootOf, FootBeside, Mirrored, Documented, Solves, Rename, Cheapest, Get, ShortRef, Short, Scored, ShortEdge;
    MirrorParts(r, s);
    FootEnds(r, s, y, job, e, jobs, es, a, b);
    if a > 0 && b > 0 {
      FootOfJob(r, y, job, e);
      FootOfRefs(r, y, job, e, a, b);
      FootMirror(r, s, y, job, e, jobs, es, a - 1, b);
      FootMirror(r, s, y, job, e, jobs, es, a, b - 1);
      FootMirror(r, s, y, job, e, jobs, es, a - 1, b - 1);
      FootMirror(r, s, y, job, e, jobs, es, ShortRef(r, a), Ahead(r.w2, y, b));
      if !(ShortEdge(r, a) && Ahead(r.w2, y, b) == 0) {
        FootPair(r, s, y, a, b);
      }
      ThirdsMirror(r, s, y, e, es, a, b);
      FootOfCell(r, y, job, e, a, b);
      FootBesideCell(r, s, y, jobs, es, a, b);
      CheapestMirror(Get(e, a - 1, b), Get(e, a, b - 1), FootThird(r, e, y, a, b));
    }
  }

  /** The pair of nodes behind a cell costs the same either way. */
  lemma {:induction false} FootPair(r: Run, s: Run, y: int, a: int, b: int)
    requires Mirrored(r, s) && Short(r) && 1 <= y < r.N2() && 1 <= a <= r.H() && 1 <= b <= y - Low(r.w2, y) + 1
    requires 1 <= Low(r.w2, y) && (ShortEdge(r, a) ==> Ahead(r.w2, y, b) != 0)
    ensures Get(r.td, r.K1() + a, Low(r.w2, y) + b - 1) == Get(s.td, Low(r.w2, y) + b - 1, r.K1() + a)
    decreases y, 0, b, a
  {
    hide Scored, Get, Low;
    if a < r.H() {
      DistMirror(r, s, r.K1() + a, Low(r.w2, y) + b - 1);
    } else {
      LastAhead(r, s, y, b);
      RootMirror(r, s, Low(r.w2, y) + b - 1);
    }
  }

  /** The last node of a range refers back to its start. */
  lemma LastAhead(r: Run, s: Run, y: int, b: int)
    requires Mirrored(r, s) && 1 <= y < r.N2() && 1 <= b <= y - Low(r.w2, y) + 1
    ensures Ahead(r.w2, y, b) != 0 ==> Low(r.w2, y) + b - 1 < y
  {
    hide Sound, RowAt, Nested, Finished, Solves, Framed;
    RangeBelow(r.w2, r.v2, y, b);
  }

  lemma MirrorParts(r: Run, s: Run)
    requires Mirrored(r, s)
    ensures Scored(r) && Scored(s) && s.w1 == r.w2 && s.v1 == r.v2 && s.r1 == r.r2 && s.w2 == r.w1 && s.v2 == r.v1 && s.r2 == r.r1
    ensures s.H() == r.W() && s.W() == r.H() && s.N1() == r.N2() && s.N2() == r.N1()
  {
    hide Scored;
  }

  lemma CheapestMirror(x: real, y: real, z: real)
    ensures Cheapest(x, y, z) == Cheapest(y, x, z)
  {
  }

  /** The short root costs the same against a node in either order. */
  lemma {:induction false} RootMirror(r: Run, s: Run, y: int)
    requires Mirrored(r, s) && Short(r) && 1 <= y < r.N2()
    ensures Get(r.td, r.N1(), y) == Get(s.td, y, r.N1())
    decreases y, 2, 0, 0
  {
    RunFramed(r);
    RunFramed(s);
    hide TableWalk, Finished, Solves, Framed, Spans;
    var job, e := TableOf(r.w1, r.w2, r.td, r.N1(), y);
    var jobs, es := TableOf(s.w1, s.w2, s.td, y, s.N2());
    assert FootOf(r, y, job, e) && FootBeside(s, y, jobs, es);
    hide Mirrored, Scored, Short, FootOf, FootBeside, Running, Get;
    FootEnds(r, s, y, job, e, jobs, es, 0, 0);
    FootMirror(r, s, y, job, e, jobs, es, r.H(), y - Low(r.w2, y) + 1);
  }

  // ----- one node of the short table against the other root -----

  ghost predicate SideOf(r: Run, x: int, job: Job, e: Table) {
    Scored(r) && 1 <= x < r.N1() && Spans(r.w1, r.w2, r.td, x, r.N2(), job, e)
  }

  ghost predicate SideBeside(s: Run, x: int, job: Job, e: Table) {
    Scored(s) && 1 <= x < s.N2() && Spans(s.w1, s.w2, s.td, s.N1(), x, job, e)
  }

  /** The other table's places: where they refer back to, and which are edges. */
  lemma OtherPlace(r: Run, b: int)
    requires Scored(r) && 1 <= b <= r.W()
    ensures Bounded(r.w2) && |r.w2.first| == r.N2()
    ensures Back(r.w2, r.N2(), r.K2() + b) == Ref(r.w2, r.K2(), b) && 0 <= Ref(r.w2, r.K2(), b) <= r.W()
    ensures IndexAt(r.w2.first, r.K2() + b) == r.K2() + 1 <==> OnEdge(r.w2, r.K2(), b)
    ensures Ref(r.w2, r.K2(), b) >= b ==> b == 1 && r.K2() >= 1
  {
    Geometry(r.w2, r.v2, r.r2, b);
    hide TableWalk, Finished, Solves, Framed;
  }

  lemma SideOfJob(r: Run, x: int, job: Job, e: Table)
    requires SideOf(r, x, job, e)
    ensures job.Valid() && Solves(job, r.td, e) && job.w1 == r.w1 && job.w2 == r.w2
    ensures job.j == r.N2() && job.Left2() == r.K2() + 1 && job.Width() == r.W()
    ensures job.Left1() == Low(r.w1, x) && x - Low(r.w1, x) + 1 <= job.Height()
    ensures Documented(r.w1, r.v1) && x < |r.w1.nodes|
  {
    RootRow(r);
    hide Finished, Solves, Size, RowAt;
  }

  lemma SideBesideJob(s: Run, x: int, job: Job, e: Table)
    requires SideBeside(s, x, job, e)
    ensures job.Valid() && Solves(job, s.td, e) && job.w1 == s.w1 && job.w2 == s.w2
    ensures job.i == s.N1() && job.Left1() == s.K1() + 1 && job.Height() == s.H()
    ensures job.Left2() == Low(s.w2, x) && x - Low(s.w2, x) + 1 <= job.Width()
    ensures Documented(s.w2, s.v2) && x < |s.w2.nodes|
  {
    RootRow(s);
    hide Finished, Solves, Size, RowAt;
  }

  function LeafThird(r: Run, x: int, b: int): real
    requires |r.w2.first| == |r.w2.nodes| && 1 <= b <= r.W()
  {
    if !(1 <= x <= |r.w1.nodes|) then 0.0
    else if OnEdge(r.w2, r.K2(), b) then (b - 1) as real + Rename(NodeAt(r.w1.nodes, x), NodeAt(r.w2.nodes, r.K2() + b))
    else Ref(r.w2, r.K2(), b) as real + Get(r.td, x, r.K2() + b)
  }

  lemma LeafJob(r: Run, x: int, job: Job, e: Table, b: int)
    requires SideOf(r, x, job, e) && Low(r.w1, x) == x && 1 <= b <= r.W()
    ensures job.Valid() && Solves(job, r.td, e) && job.w1 == r.w1 && job.w2 == r.w2 && 1 <= job.Height() && job.Width() == r.W()
    ensures job.Left1() == x && job.Left2() == r.K2() + 1 && |r.w2.first| == |r.w2.nodes|
    ensures Back(job.w1, job.i, x) == 0 && Back(job.w2, job.j, r.K2() + b) == Ref(r.w2, r.K2(), b)
    ensures 0 <= Ref(r.w2, r.K2(), b) <= job.Width()
    ensures OnEdge1(job, x) && (OnEdge2(job, r.K2() + b) <==> OnEdge(r.w2, r.K2(), b))
  {
    hide Scored, Solves, Documented, Ref, OnEdge, Running, Framed;
    SideOfJob(r, x, job, e);
    OtherPlace(r, b);
  }

  lemma LeafCell(r: Run, x: int, job: Job, e: Table, b: int)
    requires SideOf(r, x, job, e) && Low(r.w1, x) == x && 1 <= b <= r.W()
    ensures |r.w2.first| == |r.w2.nodes|
    ensures Get(e, 1, b) == Cheapest(Get(e, 0, b), Get(e, 1, b - 1), LeafThird(r, x, b))
    ensures Get(e, 0, b) == b as real && Get(e, 1, 0) == 1.0
  {
    hide SideOf, Scored, Documented, Solves, Rename, Cheapest, Get, Ref, OnEdge;
    LeafJob(r, x, job, e, b);
    BorderCells(job, r.td, e, 1, b);
    BorderCells(job, r.td, e, 1, b - 1);
    BorderCells(job, r.td, e, 0, Ref(r.w2, r.K2(), b));
    FilledCell(job, r.td, e, 1, b, 0, Ref(r.w2, r.K2(), b));
  }

  lemma LeafBesideJob(r: Run, s: Run, x: int, job: Job, e: Table, b: int)
    requires Mirrored(r, s) && SideBeside(s, x, job, e) && Low(r.w1, x) == x && 1 <= b <= r.W()
    ensures job.Valid() && Solves(job, s.td, e) && job.w1 == r.w2 && job.w2 == r.w1 && job.Height() == r.W() && 1 <= job.Width()
    ensures job.Left1() == r.K2() + 1 && job.Left2() == x && |r.w2.first| == |r.w2.nodes| && 1 <= x <= |r.w1.nodes|
    ensures Back(job.w2, job.j, x) == 0 && Back(job.w1, job.i, r.K2() + b) == Ref(r.w2, r.K2(), b)
    ensures 0 <= Ref(r.w2, r.K2(), b) <= job.Height()
    ensures OnEdge2(job, x) && (OnEdge1(job, r.K2() + b) <==> OnEdge(r.w2, r.K2(), b))
  {
    hide Scored, Solves, Documented, Ref, OnEdge, Running, Framed;
    SideBesideJob(s, x, job, e);
    OtherPlace(r, b);
  }

  lemma LeafBesideCell(r: Run, s: Run, x: int, job: Job, e: Table, b: int)
    requires Mirrored(r, s) && SideBeside(s, x, job, e) && Low(r.w1, x) == x && 1 <= b <= r.W()
    requires OnEdge(r.w2, r.K2(), b) || Get(s.td, r.K2() + b, x) == Get(r.td, x, r.K2() + b)
    ensures |r.w2.first| == |r.w2.nodes|
    ensures Get(e, b, 1) == Cheapest(Get(e, b - 1, 1), Get(e, b, 0), LeafThird(r, x, b))
    ensures Get(e, b, 0) == b as real && Get(e, 0, 1) == 1.0
  {
    hide Mirrored, SideBeside, Scored, Documented, Solves, Rename, Cheapest, Get, Ref, OnEdge;
    LeafBesideJob(r, s, x, job, e, b);
    BorderCells(job, s.td, e, b, 1);
    BorderCells(job, s.td, e, b - 1, 1);
    BorderCells(job, s.td, e, Ref(r.w2, r.K2(), b), 0);
    RenameSymmetric(NodeAt(r.w1.nodes, x), NodeAt(r.w2.nodes, r.K2() + b));
    FilledCell(job, s.td, e, b, 1, Ref(r.w2, r.K2(), b), 0);
  }

  lemma {:induction false} LeafMirror(r: Run, s: Run, x: int, job: Job, e: Table, jobs: Job, es: Table, b: int)
    requires Mirrored(r, s) && SideOf(r, x, job, e) && SideBeside(s, x, jobs, es) && Low(r.w1, x) == x
    requires 1 <= b <= r.W()
    ensures Get(e, 1, b) == Get(es, b, 1)
    decreases b
  {
    if b > 1 {
      LeafMirror(r, s, x, job, e, jobs, es, b - 1);
    }
    OtherPlace(r, b);
    if b < r.W() {
      DistMirror(r, s, x, r.K2() + b);
    }
    hide SideOf, SideBeside, Scored, Mirrored, Cheapest, Get, Low, Ref, LeafThird;
    LeafCell(r, x, job, e, b);
    LeafBesideCell(r, s, x, jobs, es, b);
    CheapestMirror(Get(e, 0, b), Get(e, 1, b - 1), LeafThird(r, x, b));
    if b > 1 {
      LeafCell(r, x, job, e, b - 1);
    } else {
      SideBorder(r, s, x, jobs, es);
    }
  }

  lemma SideBorder(r: Run, s: Run, x: int, job: Job, e: Table)
    requires Mirrored(r, s) && SideBeside(s, x, job, e)
    ensures Get(e, 0, 1) == 1.0
  {
    SideBesideJob(s, x, job, e);
    hide SideBeside, Solves, Get, Mirrored, Scored;
    BorderCells(job, s.td, e, 0, 1);
  }

  /** A leaf of the short table costs the same against the other root in either order. */
  lemma LeafRoot(r: Run, s: Run, x: int)
    requires Mirrored(r, s) && 1 <= x < r.N1() && Low(r.w1, x) == x
    ensures Get(r.td, x, r.N2()) == Get(s.td, r.N2(), x)
  {
    RunFramed(r);
    RunFramed(s);
    hide TableWalk, Finished, Solves, Framed, Spans;
    var job, e := TableOf(r.w1, r.w2, r.td, x, r.N2());
    var jobs, es := TableOf(s.w1, s.w2, s.td, s.N1(), x);
    assert SideOf(r, x, job, e) && SideBeside(s, x, jobs, es);
    hide Mirrored, Scored, SideOf, SideBeside, Running, Get;
    SideValues(r, s, x, job, e, jobs, es);
    LeafMirror(r, s, x, job, e, jobs, es, r.W());
  }

  lemma SideValues(r: Run, s: Run, x: int, job: Job, e: Table, jobs: Job, es: Table)
    requires Mirrored(r, s) && SideOf(r, x, job, e) && SideBeside(s, x, jobs, es)
    ensures 1 <= Low(r.w1, x) <= x && 1 <= r.W()
    ensures Get(r.td, x, r.N2()) == Get(e, x - Low(r.w1, x) + 1, r.W())
    ensures Get(s.td, r.N2(), x) == Get(es, r.W(), x - Low(r.w1, x) + 1)
  {
    SideOfJob(r, x, job, e);
    SideBesideJob(s, x, jobs, es);
    NestedBelow(r.w1, r.v1, x);
    SpansValue(job, r.td, e, x, r.N2());
    SpansValue(jobs, s.td, es, r.N2(), x);
    hide SideOf, SideBeside, Scored, Mirrored, Documented, Solves;
  }

  // ----- the short table's row against the other root -----

  /** Equal, or both too dear to matter. */
  predicate Near(x: real, y: real, bound: real) {
    x == y || (x >= bound && y >= bound)
  }

  lemma NearMin(x: real, x': real, y: real, y': real, bound: real)
    requires Near(x, x', bound) && Near(y, y', bound)
    ensures Near(Min(x, y), Min(x', y'), bound)
  {
  }

  lemma NearCheapest(x: real, x': real, y: real, y': real, z: real, z': real, bound: real)
    requires Near(x + 1.0, x' + 1.0, bound) && Near(y + 1.0, y' + 1.0, bound) && Near(z, z', bound)
    ensures Near(Cheapest(x, y, z), Cheapest(y', x', z'), bound)
  {
    NearMin(x + 1.0, x' + 1.0, y + 1.0, y' + 1.0, bound);
    NearMin(Min(x + 1.0, y + 1.0), Min(x' + 1.0, y' + 1.0), z, z', bound);
  }

  /** Two or three cells: the row that may be short and still wrap. */
  ghost predicate Wide(r: Run) {
    Scored(r) && |r.r1| == 1 && r.K1() in {2, 3}
  }

  /** From where on a cell of the row's table is too dear to matter. */
  function Slack(r: Run, a: int, b: int): real {
    if a <= r.K1() then (b - a + 2) as real
    else if b < r.W() then b as real else (b - 1) as real
  }

  function RowRef(r: Run, a: int): int {
    if a <= r.K1() then a - 1 else 0
  }

  predicate RowEdge(r: Run, a: int) {
    a == 1 || a == r.K1() + 1
  }

  function RowThird(r: Run, e: Table, a: int, b: int): real
    requires |r.w2.first| == |r.w2.nodes| && 1 <= b <= r.W()
  {
    if !(1 <= a <= |r.w1.nodes|) then 0.0
    else if RowEdge(r, a) && OnEdge(r.w2, r.K2(), b) then
      Get(e, a - 1, b - 1) + Rename(NodeAt(r.w1.nodes, a), NodeAt(r.w2.nodes, r.K2() + b))
    else Get(e, RowRef(r, a), Ref(r.w2, r.K2(), b)) + Get(r.td, a, r.K2() + b)
  }

  function RowThirdBeside(r: Run, s: Run, e: Table, a: int, b: int): real
    requires |r.w2.first| == |r.w2.nodes| && 1 <= b <= r.W()
  {
    if !(1 <= a <= |r.w1.nodes|) then 0.0
    else if RowEdge(r, a) && OnEdge(r.w2, r.K2(), b) then
      Get(e, b - 1, a - 1) + Rename(NodeAt(r.w2.nodes, r.K2() + b), NodeAt(r.w1.nodes, a))
    else Get(e, Ref(r.w2, r.K2(), b), RowRef(r, a)) + Get(s.td, r.K2() + b, a)
  }

  /** What the row's table refers back to is filled in both orders, but for the row's
      later cells against a wrapped first row. */
  predicate Settled(r: Run, a: int, b: int)
    requires |r.w2.first| == |r.w2.nodes| && 1 <= b <= r.W()
  {
    Ref(r.w2, r.K2(), b) < b || RowRef(r, a) == 0
  }

  lemma RowPlaces(r: Run, job: Job, e: Table, a: int)
    requires Wide(r) && SideOf(r, r.K1() + 1, job, e) && 1 <= a <= r.K1() + 1
    ensures job.Valid() && Solves(job, r.td, e) && job.w1 == r.w1 && job.w2 == r.w2
    ensures job.j == r.N2() && job.Left2() == r.K2() + 1 && job.Width() == r.W()
    ensures job.Left1() == 1 && a <= job.Height()
    ensures Back(job.w1, job.i, a) == RowRef(r, a) && (OnEdge1(job, a) <==> RowEdge(r, a))
  {
    SideOfJob(r, r.K1() + 1, job, e);
    ShortShape(r);
    hide TableWalk, Finished, Solves, Size, SideOf;
  }

  lemma RowRefs(r: Run, job: Job, e: Table, a: int, b: int)
    requires Wide(r) && SideOf(r, r.K1() + 1, job, e) && 1 <= a <= r.K1() + 1 && 1 <= b <= r.W()
    ensures job.Valid() && Solves(job, r.td, e) && job.w1 == r.w1 && job.w2 == r.w2 && job.Left1() == 1 && job.Left2() == r.K2() + 1
    ensures a <= job.Height() && job.Width() == r.W() && |r.w2.first| == |r.w2.nodes| && a <= |r.w1.nodes|
    ensures Back(job.w1, job.i, a) == RowRef(r, a) && Back(job.w2, job.j, r.K2() + b) == Ref(r.w2, r.K2(), b)
    ensures (OnEdge1(job, a) <==> RowEdge(r, a)) && (OnEdge2(job, r.K2() + b) <==> OnEdge(r.w2, r.K2(), b))
    ensures 0 <= RowRef(r, a) < a && 0 <= Ref(r.w2, r.K2(), b) <= r.W()
    ensures Ref(r.w2, r.K2(), b) >= b ==> b == 1 && r.K2() >= 1
  {
    hide Scored, Solves, Running, Framed, Ref, OnEdge, Spans;
    RowPlaces(r, job, e, a);
    OtherPlace(r, b);
  }

  lemma RowCell(r: Run, job: Job, e: Table, a: int, b: int)
    requires Wide(r) && SideOf(r, r.K1() + 1, job, e) && 1 <= a <= r.K1() + 1 && 1 <= b <= r.W()
    requires |r.w2.first| == |r.w2.nodes| && Settled(r, a, b)
    ensures Get(e, a, b) == Cheapest(Get(e, a - 1, b), Get(e, a, b - 1), RowThird(r, e, a, b))
  {
    hide SideOf, Scored, Wide, Solves, Rename, Cheapest, Get, OnEdge1, OnEdge2, Back, Ref, OnEdge, RowEdge;
    RowRefs(r, job, e, a, b);
    FilledCell(job, r.td, e, a, b, RowRef(r, a), Ref(r.w2, r.K2(), b));
  }

  lemma RowPlacesBeside(r: Run, s: Run, job: Job, e: Table, a: int)
    requires Mirrored(r, s) && Wide(r) && SideBeside(s, r.K1() + 1, job, e) && 1 <= a <= r.K1() + 1
    ensures job.Valid() && Solves(job, s.td, e) && job.w1 == r.w2 && job.w2 == r.w1
    ensures job.i == r.N2() && job.Left1() == r.K2() + 1 && job.Height() == r.W()
    ensures job.Left2() == 1 && a <= job.Width()
    ensures Back(job.w2, job.j, a) == RowRef(r, a) && (OnEdge2(job, a) <==> RowEdge(r, a))
  {
    SideBesideJob(s, r.K1() + 1, job, e);
    ShortShape(r);
    hide TableWalk, Finished, Solves, Size, SideBeside;
  }

  lemma RowRefsBeside(r: Run, s: Run, job: Job, e: Table, a: int, b: int)
    requires Mirrored(r, s) && Wide(r) && SideBeside(s, r.K1() + 1, job, e) && 1 <= a <= r.K1() + 1 && 1 <= b <= r.W()
    ensures job.Valid() && Solves(job, s.td, e) && job.w1 == r.w2 && job.w2 == r.w1 && job.Left1() == r.K2() + 1 && job.Left2() == 1
    ensures a <= job.Width() && job.Height() == r.W() && |r.w2.first| == |r.w2.nodes| && a <= |r.w1.nodes|
    ensures Back(job.w2, job.j, a) == RowRef(r, a) && Back(job.w1, job.i, r.K2() + b) == Ref(r.w2, r.K2(), b)
    ensures (OnEdge2(job, a) <==> RowEdge(r, a)) && (OnEdge1(job, r.K2() + b) <==> OnEdge(r.w2, r.K2(), b))
    ensures 0 <= RowRef(r, a) < a && 0 <= Ref(r.w2, r.K2(), b) <= r.W()
    ensures Ref(r.w2, r.K2(), b) >= b ==> b == 1 && r.K2() >= 1
  {
    hide Scored, Solves, Running, Framed, Ref, OnEdge, Spans;
    RowPlacesBeside(r, s, job, e, a);
    OtherPlace(r, b);
  }

  lemma RowCellBeside(r: Run, s: Run, job: Job, e: Table, a: int, b: int)
    requires Mirrored(r, s) && Wide(r) && SideBeside(s, r.K1() + 1, job, e) && 1 <= a <= r.K1() + 1 && 1 <= b <= r.W()
    requires |r.w2.first| == |r.w2.nodes| && Settled(r, a, b)
    ensures Get(e, b, a) == Cheapest(Get(e, b - 1, a), Get(e, b, a - 1), RowThirdBeside(r, s, e, a, b))
  {
    hide SideBeside, Scored, Mirrored, Wide, Solves, Rename, Cheapest, Get, OnEdge1, OnEdge2, Back, Ref, OnEdge, RowEdge;
    RowRefsBeside(r, s, job, e, a, b);
    FilledCell(job, s.td, e, b, a, Ref(r.w2, r.K2(), b), RowRef(r, a));
  }

  /** A node below the other root, on its way back to p, spans the places between. */
  lemma SpanOfPlace(r: Run, b: int)
    requires Scored(r) && 1 <= b < r.W()
    ensures |r.w2.first| == r.N2()
    ensures 1 <= Ref(r.w2, r.K2(), b) < b ==> Size([NodeAt(r.w2.nodes, r.K2() + b)]) == b - Ref(r.w2, r.K2(), b)
    ensures Ref(r.w2, r.K2(), b) >= b ==> b == 1 && r.K2() >= 1 && Size([NodeAt(r.w2.nodes, r.K2() + b)]) == r.K2() + 1
  {
    OtherPlace(r, b);
    SizeBelow(r.w2, r.v2, r.K2() + b);
    Geometry(r.w2, r.v2, r.r2, b);
    FirstRowWidth(r.w2, r.v2, r.r2);
    if r.r2 != [] {
      RowPositions(r.w2, r.v2, r.r2, 0);
      assert RowAt(r.w2, r.r2, 0);
    } else {
      EmptySize(r.r2);
    }
    hide Finished, Solves, Size;
  }

  /** Matching a later cell of the row saves no more than the node it is matched with. */
  lemma CellSavesLittle(r: Run, a: int, b: int)
    requires Wide(r) && 2 <= a <= r.K1() && 1 <= b < r.W()
    ensures |r.w2.first| == r.N2() && Get(r.td, a, r.K2() + b) >= 0.0
    ensures 1 <= Ref(r.w2, r.K2(), b) < b ==> Get(r.td, a, r.K2() + b) >= (b - Ref(r.w2, r.K2(), b) - 1) as real
    ensures Ref(r.w2, r.K2(), b) >= b ==> b == 1 && Get(r.td, a, r.K2() + b) >= 1.0
  {
    ShortShape(r);
    SpanOfPlace(r, b);
    NodeSizes(r, a, r.K2() + b);
    hide TableWalk, Finished, Solves, Size, Ref;
  }

  lemma SidesBorder(r: Run, s: Run, job: Job, e: Table, jobs: Job, es: Table, a: int, b: int)
    requires Mirrored(r, s) && Wide(r) && SideOf(r, r.K1() + 1, job, e) && SideBeside(s, r.K1() + 1, jobs, es)
    requires 0 <= a <= r.K1() + 1 && 0 <= b <= r.W()
    ensures Get(e, a, 0) == a as real == Get(es, 0, a) && Get(e, 0, b) == b as real == Get(es, b, 0)
  {
    RowPlaces(r, job, e, r.K1() + 1);
    RowPlacesBeside(r, s, jobs, es, r.K1() + 1);
    hide SideOf, SideBeside, Scored, Mirrored, Wide, Solves, Get;
    BorderCells(job, r.td, e, a, b);
    BorderCells(jobs, s.td, es, b, a);
  }

  /** Both edges: the corner of the row's table pays for renaming a row to a root. */
  lemma NearEdge(r: Run, s: Run, e: Table, es: Table, a: int, b: int)
    requires Mirrored(r, s) && Wide(r) && 1 <= a <= r.K1() + 1 && 1 <= b <= r.W()
    requires |r.w2.first| == r.N2() && RowEdge(r, a) && OnEdge(r.w2, r.K2(), b)
    requires a == 1 || b == 1 ==> Get(e, a - 1, b - 1) == Get(es, b - 1, a - 1)
    requires Near(Get(e, a - 1, b - 1), Get(es, b - 1, a - 1), Slack(r, a - 1, b - 1))
    ensures Near(RowThird(r, e, a, b), RowThirdBeside(r, s, es, a, b), Slack(r, a, b))
  {
    hide Scored, Running, Framed, TableWalk, Size, Rename, Get;
    ScoredParts(r);
    ShortShape(r);
    RenameSymmetric(NodeAt(r.w1.nodes, a), NodeAt(r.w2.nodes, r.K2() + b));
    if b == r.W() {
      RootTags(r, a);
    }
  }

  /** Off the edges: the same reference, or one that is as dear in either order. */
  lemma NearInner(r: Run, s: Run, e: Table, es: Table, a: int, b: int)
    requires Mirrored(r, s) && Wide(r) && 1 <= a <= r.K1() + 1 && 1 <= b <= r.W()
    requires |r.w2.first| == r.N2() && Settled(r, a, b) && !(RowEdge(r, a) && OnEdge(r.w2, r.K2(), b))
    requires var p := Ref(r.w2, r.K2(), b);
      if RowRef(r, a) == 0 || p == 0 then Get(e, RowRef(r, a), p) == Get(es, p, RowRef(r, a))
      else Near(Get(e, RowRef(r, a), p), Get(es, p, RowRef(r, a)), Slack(r, RowRef(r, a), p))
    ensures Near(RowThird(r, e, a, b), RowThirdBeside(r, s, es, a, b), Slack(r, a, b))
  {
    OtherPlace(r, b);
    ShortShape(r);
    if b == r.W() {
      LeafRoot(r, s, a);
    } else {
      DistMirror(r, s, a, r.K2() + b);
      if RowRef(r, a) >= 1 {
        CellSavesLittle(r, a, b);
      }
    }
    hide Scored, Mirrored, Rename, Get, Ref, Size;
  }

  /** A later cell of the row against a wrapped first row: whatever was read, its match
      costs a whole edit. */
  lemma WrappedCell(r: Run, job: Job, e: Table, a: int, b: int) returns (third: real)
    requires Wide(r) && SideOf(r, r.K1() + 1, job, e) && 1 <= a <= r.K1() + 1 && 1 <= b <= r.W()
    requires |r.w2.first| == |r.w2.nodes| && !Settled(r, a, b)
    ensures third >= 1.0 && Get(e, a, b) == Cheapest(Get(e, a - 1, b), Get(e, a, b - 1), third)
  {
    RowPlaces(r, job, e, a);
    OtherPlace(r, b);
    assert 2 <= a <= r.K1() && b < r.W() && Ref(r.w2, r.K2(), b) >= b;
    CellSavesLittle(r, a, b);
    MatchedAtLeast(job, r.td, e, a, b);
    assert !OnEdge1(job, a);
    third := Matched(job, r.td, e, a, b);
    assert Obeys(job, r.td, e, a, b);
    hide SideOf, Scored, Wide, Solves, Rename, Matched, OnEdge1, OnEdge2, Back, Ref, OnEdge, RowRef, RowEdge;
  }

  lemma MatchedAtLeast(job: Job, td: Table, fd: Table, a: int, b: int)
    requires job.Valid() && Solves(job, td, fd) && 1 <= a <= job.Height() && 1 <= b <= job.Width()
    requires !(OnEdge1(job, job.Left1() + a - 1) && OnEdge2(job, job.Left2() + b - 1))
    ensures Matched(job, td, fd, a, b) >= Get(td, job.Left1() + a - 1, job.Left2() + b - 1)
  {
    hide Back, Obeys, OnEdge1, OnEdge2;
    var q, p := Back(job.w1, job.i, job.Left1() + a - 1), Back(job.w2, job.j, job.Left2() + b - 1);
    if 0 <= q < |fd| && 0 <= p < |fd[q]| {
      BorderCells(job, td, fd, q, p);
    }
  }

  lemma WrappedCellBeside(r: Run, s: Run, job: Job, e: Table, a: int, b: int) returns (third: real)
    requires Mirrored(r, s) && Wide(r) && SideBeside(s, r.K1() + 1, job, e) && 1 <= a <= r.K1() + 1 && 1 <= b <= r.W()
    requires |r.w2.first| == |r.w2.nodes| && !Settled(r, a, b)
    ensures third >= 1.0 && Get(e, b, a) == Cheapest(Get(e, b - 1, a), Get(e, b, a - 1), third)
  {
    RowPlacesBeside(r, s, job, e, a);
    OtherPlace(r, b);
    assert 2 <= a <= r.K1() && b < r.W() && Ref(r.w2, r.K2(), b) >= b;
    CellSavesLittle(r, a, b);
    DistMirror(r, s, a, r.K2() + b);
    assert !OnEdge2(job, a);
    MatchedAtLeast(job, s.td, e, b, a);
    third := Matched(job, s.td, e, b, a);
    assert Obeys(job, s.td, e, b, a);
    hide SideBeside, Scored, Mirrored, Wide, Solves, Rename, Matched, OnEdge1, OnEdge2, Back, Ref, OnEdge, RowRef, RowEdge;
  }

  /** Going up or left never loses more slack than the edit it costs. */
  lemma SlackSteps(r: Run, a: int, b: int)
    requires Wide(r) && 1 <= a <= r.K1() + 1 && 1 <= b <= r.W()
    ensures a >= 2 ==> Slack(r, a - 1, b) + 1.0 >= Slack(r, a, b)
    ensures b >= 2 ==> Slack(r, a, b - 1) + 1.0 >= Slack(r, a, b)
    ensures 2 <= a <= r.K1() && b == 1 ==> Slack(r, a, b) <= 1.0
  {
    hide Scored;
  }

  ghost predicate RowTables(r: Run, s: Run, job: Job, e: Table, jobs: Job, es: Table) {
    Mirrored(r, s) && Wide(r) && SideOf(r, r.K1() + 1, job, e) && SideBeside(s, r.K1() + 1, jobs, es)
  }

  lemma NearStep(r: Run, s: Run, job: Job, e: Table, jobs: Job, es: Table, a: int, b: int, z: real, z': real)
    requires RowTables(r, s, job, e, jobs, es) && 1 <= a <= r.K1() + 1 && 1 <= b <= r.W()
    requires Near(Get(e, a - 1, b), Get(es, b, a - 1), Slack(r, a - 1, b)) && (a == 1 ==> Get(e, a - 1, b) == Get(es, b, a - 1))
    requires Near(Get(e, a, b - 1), Get(es, b - 1, a), Slack(r, a, b - 1)) && (b == 1 ==> Get(e, a, b - 1) == Get(es, b - 1, a))
    requires Near(z, z', Slack(r, a, b))
    requires Get(e, a, b) == Cheapest(Get(e, a - 1, b), Get(e, a, b - 1), z)
    requires Get(es, b, a) == Cheapest(Get(es, b - 1, a), Get(es, b, a - 1), z')
    ensures Near(Get(e, a, b), Get(es, b, a), Slack(r, a, b))
  {
    assert Wide(r);
    hide RowTables, Wide, Get, Slack, Cheapest;
    SlackSteps(r, a, b);
    NearCheapest(Get(e, a - 1, b), Get(es, b, a - 1), Get(e, a, b - 1), Get(es, b - 1, a), z, z', Slack(r, a, b));
  }

  /** Cell (a, b) of the row's table in one order and (b, a) in the other. */
  ghost predicate NearAt(r: Run, e: Table, es: Table, a: int, b: int) {
    && Near(Get(e, a, b), Get(es, b, a), Slack(r, a, b))
    && (a == 0 || b == 0 ==> Get(e, a, b) == Get(es, b, a))
  }

  lemma NearSettled(r: Run, s: Run, job: Job, e: Table, jobs: Job, es: Table, a: int, b: int)
    requires RowTables(r, s, job, e, jobs, es) && 1 <= a <= r.K1() + 1 && 1 <= b <= r.W()
    requires |r.w2.first| == r.N2() && Settled(r, a, b)
    requires NearAt(r, e, es, a - 1, b) && NearAt(r, e, es, a, b - 1) && NearAt(r, e, es, a - 1, b - 1)
    requires NearAt(r, e, es, RowRef(r, a), Ref(r.w2, r.K2(), b))
    ensures NearAt(r, e, es, a, b)
  {
    assert Mirrored(r, s) && Wide(r) && SideOf(r, r.K1() + 1, job, e) && SideBeside(s, r.K1() + 1, jobs, es);
    hide SideOf, SideBeside, Scored, Mirrored, Solves, Rename, Get, Ref, OnEdge, RowTables, Near, Slack, Cheapest, RowThird, RowThirdBeside, Wide;
    if RowEdge(r, a) && OnEdge(r.w2, r.K2(), b) {
      NearEdge(r, s, e, es, a, b);
    } else {
      NearInner(r, s, e, es, a, b);
    }
    RowCell(r, job, e, a, b);
    RowCellBeside(r, s, jobs, es, a, b);
    NearStep(r, s, job, e, jobs, es, a, b, RowThird(r, e, a, b), RowThirdBeside(r, s, es, a, b));
  }

  lemma NearWrapped(r: Run, s: Run, job: Job, e: Table, jobs: Job, es: Table, a: int, b: int)
    requires RowTables(r, s, job, e, jobs, es) && 1 <= a <= r.K1() + 1 && 1 <= b <= r.W()
    requires |r.w2.first| == r.N2() && !Settled(r, a, b)
    requires NearAt(r, e, es, a - 1, b) && NearAt(r, e, es, a, b - 1)
    ensures NearAt(r, e, es, a, b)
  {
    assert Mirrored(r, s) && Wide(r) && SideOf(r, r.K1() + 1, job, e) && SideBeside(s, r.K1() + 1, jobs, es);
    OtherPlace(r, b);
    SlackSteps(r, a, b);
    hide SideOf, SideBeside, Scored, Mirrored, Solves, Rename, Get, Ref, OnEdge, RowTables, Near, Slack, Cheapest, Wide;
    var z := WrappedCell(r, job, e, a, b);
    var z' := WrappedCellBeside(r, s, jobs, es, a, b);
    NearAbove(z, z', Slack(r, a, b));
    NearStep(r, s, job, e, jobs, es, a, b, z, z');
  }

  lemma RowTableRefs(r: Run, s: Run, job: Job, e: Table, jobs: Job, es: Table, a: int, b: int)
    requires RowTables(r, s, job, e, jobs, es) && 1 <= a <= r.K1() + 1 && 1 <= b <= r.W()
    ensures |r.w2.first| == r.N2() && 0 <= RowRef(r, a) < a && 0 <= Ref(r.w2, r.K2(), b) <= r.W()
  {
    hide SideOf, SideBeside, Mirrored, Scored;
    RowRefs(r, job, e, a, b);
  }

  lemma RowTablesBorder(r: Run, s: Run, job: Job, e: Table, jobs: Job, es: Table, a: int, b: int)
    requires RowTables(r, s, job, e, jobs, es) && 0 <= a <= r.K1() + 1 && 0 <= b <= r.W() && (a == 0 || b == 0)
    ensures NearAt(r, e, es, a, b)
  {
    hide SideOf, SideBeside, Mirrored, Wide, Get;
    SidesBorder(r, s, job, e, jobs, es, a, b);
  }

  lemma {:induction false} RowNear(r: Run, s: Run, job: Job, e: Table, jobs: Job, es: Table, a: int, b: int)
    requires RowTables(r, s, job, e, jobs, es) && 0 <= a <= r.K1() + 1 && 0 <= b <= r.W()
    ensures NearAt(r, e, es, a, b)
    decreases b, a
  {
    hide RowTables, NearAt, Ref, Scored, Wide, RowRef;
    if a == 0 || b == 0 {
      RowTablesBorder(r, s, job, e, jobs, es, a, b);
    } else {
      RowTableRefs(r, s, job, e, jobs, es, a, b);
      RowNear(r, s, job, e, jobs, es, a - 1, b);
      RowNear(r, s, job, e, jobs, es, a, b - 1);
      if Settled(r, a, b) {
        RowNear(r, s, job, e, jobs, es, a - 1, b - 1);
        if Ref(r.w2, r.K2(), b) < b {
          RowNear(r, s, job, e, jobs, es, RowRef(r, a), Ref(r.w2, r.K2(), b));
        } else {
          RowBorder(r, s, job, e, jobs, es, a, b);
        }
        NearSettled(r, s, job, e, jobs, es, a, b);
      } else {
        NearWrapped(r, s, job, e, jobs, es, a, b);
      }
    }
  }

  lemma RowBorder(r: Run, s: Run, job: Job, e: Table, jobs: Job, es: Table, a: int, b: int)
    requires RowTables(r, s, job, e, jobs, es) && 1 <= a <= r.K1() + 1 && 1 <= b <= r.W()
    requires |r.w2.first| == r.N2() && RowRef(r, a) == 0
    ensures NearAt(r, e, es, RowRef(r, a), Ref(r.w2, r.K2(), b))
  {
    OtherPlace(r, b);
    hide Scored, SideOf, SideBeside, Ref, Get;
    SidesBorder(r, s, job, e, jobs, es, 0, Ref(r.w2, r.K2(), b));
  }

  lemma NearAbove(x: real, y: real, bound: real)
    requires x >= bound && y >= bound
    ensures Near(x, y, bound)
  {
  }

  /** A wide row costs the same against the other root in either order, or too much to matter. */
  lemma RowRoot(r: Run, s: Run)
    requires Mirrored(r, s) && Wide(r)
    ensures Near(Get(r.td, r.K1() + 1, r.N2()), Get(s.td, r.N2(), r.K1() + 1), (r.W() - 1) as real)
  {
    ShortShape(r);
    RunFramed(r);
    RunFramed(s);
    var x := r.K1() + 1;
    assert Low(r.w1, x) == 1;
    hide TableWalk, Finished, Solves, Framed, Spans;
    var job, e := TableOf(r.w1, r.w2, r.td, x, r.N2());
    var jobs, es := TableOf(s.w1, s.w2, s.td, s.N1(), x);
    assert SideOf(r, x, job, e) && SideBeside(s, x, jobs, es);
    hide Mirrored, Scored, SideOf, SideBeside, Running, Get, Wide, Low;
    SideValues(r, s, x, job, e, jobs, es);
    RowNear(r, s, job, e, jobs, es, x, r.W());
  }

  // ----- the last tables of the two runs -----

  lemma SeenMirror(r: Run, s: Run, a: int, b: int, p: int)
    requires Mirrored(r, s) && Short(r) && 1 <= a <= r.H() && 1 <= b <= r.W() && 0 <= p <= r.W()
    requires p < b ==> Get(r.fd, ShortRef(r, a), p) == Get(s.fd, p, ShortRef(r, a))
    ensures Seen(r.fd, a, b, ShortRef(r, a), p) == Seen(s.fd, b, a, p, ShortRef(r, a))
  {
    RunFramed(r);
    RunFramed(s);
    ShortShape(r);
    hide TableWalk, Finished, Solves, Running, Size;
  }

  /** The third option in terms of the tables' entries. */
  lemma ThirdReads(r: Run, a: int, b: int)
    requires CellHolds(r, a, b)
    ensures Third(r, a, b) ==
            if OnEdge(r.w1, r.K1(), a) && OnEdge(r.w2, r.K2(), b)
            then Get(r.fd, a - 1, b - 1) + Rename(NodeAt(r.w1.nodes, r.K1() + a), NodeAt(r.w2.nodes, r.K2() + b))
            else Seen(r.fd, a, b, Ref(r.w1, r.K1(), a), Ref(r.w2, r.K2(), b)) + Get(r.td, r.K1() + a, r.K2() + b)
  {
    hide Rename, Seen, OnEdge, Ref, Cheapest;
  }

  lemma TopPair(r: Run, s: Run, a: int, b: int)
    requires Mirrored(r, s) && Short(r) && 1 <= a <= r.H() && 1 <= b < r.W()
    ensures Get(r.td, r.K1() + a, r.K2() + b) == Get(s.td, r.K2() + b, r.K1() + a)
  {
    hide Mirrored, Scored, Get, Short;
    if a == r.H() {
      RootMirror(r, s, r.K2() + b);
    } else {
      DistMirror(r, s, r.K1() + a, r.K2() + b);
    }
  }

  lemma LastEdge(r: Run)
    requires Scored(r)
    ensures |r.w2.first| == r.N2() && OnEdge(r.w2, r.K2(), r.W()) && Ref(r.w2, r.K2(), r.W()) == 0
  {
    hide Scored, Running;
    ScoredParts(r);
  }

  lemma TopThirds(r: Run, s: Run, a: int, b: int)
    requires Mirrored(r, s) && Short(r) && 1 <= a <= r.H() && 1 <= b <= r.W()
    requires Get(r.fd, a - 1, b - 1) == Get(s.fd, b - 1, a - 1)
    requires |r.w2.first| == r.N2() && |r.w1.first| == r.N1()
    requires Ref(r.w2, r.K2(), b) < b ==> Get(r.fd, ShortRef(r, a), Ref(r.w2, r.K2(), b)) == Get(s.fd, Ref(r.w2, r.K2(), b), ShortRef(r, a))
    ensures CellHolds(r, a, b) && CellHolds(s, b, a)
    ensures b < r.W() ==> Third(r, a, b) == Third(s, b, a)
    ensures b == r.W() && ShortEdge(r, a) ==> Third(r, a, b) == Third(s, b, a)
    ensures b == r.W() && !ShortEdge(r, a) ==>
              && Third(r, a, b) == Seen(r.fd, a, b, ShortRef(r, a), 0) + Get(r.td, r.K1() + a, r.N2())
              && Third(s, b, a) == Seen(r.fd, a, b, ShortRef(r, a), 0) + Get(s.td, r.N2(), r.K1() + a)
  {
    hide Scored, Mirrored, Running, Framed, Third, Rename, Seen, ShortRef, ShortEdge, Short, Ref, OnEdge, Get, Cheapest;
    MirrorParts(r, s);
    ScoredParts(r);
    ScoredParts(s);
    CellEquation(r, a, b);
    CellEquation(s, b, a);
    ShortPlace(r, a);
    OtherPlace(r, b);
    SeenMirror(r, s, a, b, Ref(r.w2, r.K2(), b));
    RenameSymmetric(NodeAt(r.w1.nodes, r.K1() + a), NodeAt(r.w2.nodes, r.K2() + b));
    ThirdReads(r, a, b);
    ThirdReads(s, b, a);
    if b < r.W() {
      TopPair(r, s, a, b);
    } else {
      LastEdge(r);
    }
  }

  lemma ShortRange(r: Run, a: int)
    requires Scored(r) && Short(r) && 1 <= a <= r.H()
    ensures 0 <= ShortRef(r, a) <= r.H() && ShortRef(r, a) <= a && |r.w1.first| == r.N1()
  {
    hide Running, Framed, Scored;
    ScoredParts(r);
  }

  lemma TopEdges(r: Run, s: Run, a: int, b: int)
    requires Mirrored(r, s) && 0 <= a <= r.H() && 0 <= b <= r.W() && (a == 0 || b == 0)
    ensures Get(r.fd, a, b) == Get(s.fd, b, a)
  {
    hide Scored, Running;
    ScoredParts(r);
    ScoredParts(s);
  }

  lemma {:induction false} TopMirror(r: Run, s: Run, a: int, b: int)
    requires Mirrored(r, s) && Short(r) && 0 <= a <= r.H() && 0 <= b < r.W()
    ensures Get(r.fd, a, b) == Get(s.fd, b, a)
    decreases b, a
  {
    hide Scored, Mirrored, Running, Framed, Short, Ref, ShortRef, Third, Cheapest;
    MirrorParts(r, s);
    ScoredParts(r);
    ScoredParts(s);
    if a > 0 && b > 0 {
      OtherPlace(r, b);
      ShortRange(r, a);
      TopMirror(r, s, a - 1, b);
      TopMirror(r, s, a, b - 1);
      TopMirror(r, s, a - 1, b - 1);
      if Ref(r.w2, r.K2(), b) < b {
        TopMirror(r, s, ShortRef(r, a), Ref(r.w2, r.K2(), b));
      }
      TopThirds(r, s, a, b);
      HoldsMirrored(r, s, a, b);
    } else {
      TopEdges(r, s, a, b);
    }
  }

  lemma HoldsMirrored(r: Run, s: Run, a: int, b: int)
    requires CellHolds(r, a, b) && CellHolds(s, b, a)
    requires Get(r.fd, a - 1, b) == Get(s.fd, b, a - 1) && Get(r.fd, a, b - 1) == Get(s.fd, b - 1, a)
    requires Third(r, a, b) == Third(s, b, a)
    ensures Get(r.fd, a, b) == Get(s.fd, b, a)
  {
    hide Third;
    CheapestMirror(Get(r.fd, a - 1, b), Get(r.fd, a, b - 1), Third(r, a, b));
  }

  lemma TopBorder(r: Run, s: Run, a: int, b: int)
    requires Mirrored(r, s) && 0 <= a <= r.H() && 0 <= b <= r.W()
    ensures Get(r.fd, 0, b) == b as real == Get(s.fd, b, 0)
    ensures 0.0 <= Get(r.fd, a, b) <= a as real + b as real
  {
    RunFramed(r);
    RunFramed(s);
    hide TableWalk, Finished, Solves, Running;
  }

  lemma WideRow(r: Run)
    requires Scored(r) && Short(r) && r.H() == 2 && !ShortEdge(r, 1)
    ensures Wide(r) && r.K1() >= 2
  {
    ShortShape(r);
    hide Running, Framed;
  }

  /** The place before the corner, in the other root's column: equal, or too dear to matter. */
  lemma LastColumn(r: Run, s: Run)
    requires Mirrored(r, s) && Short(r) && r.H() == 2
    ensures Near(Get(r.fd, 1, r.W()), Get(s.fd, r.W(), 1), (r.W() - 1) as real)
  {
    hide Scored, Mirrored, Running, Short, Third, Framed, Seen, Get, Cheapest, CellHolds, ShortRef, Ref, OnEdge;
    var w := r.W();
    MirrorParts(r, s);
    ScoredParts(r);
    ShortShape(r);
    ShortRange(r, 1);
    LastEdge(r);
    TopBorder(r, s, 0, w);
    TopMirror(r, s, 0, w - 1);
    TopMirror(r, s, 1, w - 1);
    TopMirror(r, s, ShortRef(r, 1), 0);
    TopThirds(r, s, 1, w);
    if ShortEdge(r, 1) {
      HoldsMirrored(r, s, 1, w);
    } else {
      WideRow(r);
      RowRoot(r, s);
      SeenIsPositive(r, 1, w, ShortRef(r, 1), 0);
      LastColumnStep(r, s);
    }
  }

  lemma SeenIsPositive(r: Run, a: int, b: int, q: int, p: int)
    requires Scored(r)
    ensures Seen(r.fd, a, b, q, p) >= 0.0
  {
    hide Running;
  }

  lemma LastColumnStep(r: Run, s: Run)
    requires r.W() >= 1 && CellHolds(r, 1, r.W()) && CellHolds(s, r.W(), 1)
    requires Get(r.fd, 0, r.W()) == r.W() as real == Get(s.fd, r.W(), 0)
    requires Get(r.fd, 1, r.W() - 1) == Get(s.fd, r.W() - 1, 1)
    requires Near(Third(r, 1, r.W()), Third(s, r.W(), 1), (r.W() - 1) as real)
    ensures Near(Get(r.fd, 1, r.W()), Get(s.fd, r.W(), 1), (r.W() - 1) as real)
  {
    hide Third;
    NearCheapest(Get(r.fd, 0, r.W()), Get(s.fd, r.W(), 0), Get(r.fd, 1, r.W() - 1), Get(s.fd, r.W() - 1, 1),
                 Third(r, 1, r.W()), Third(s, r.W(), 1), (r.W() - 1) as real);
  }

  lemma CornerThird(r: Run, s: Run)
    requires Mirrored(r, s) && Short(r)
    ensures CellHolds(r, r.H(), r.W()) && CellHolds(s, r.W(), r.H())
    ensures Third(r, r.H(), r.W()) == Third(s, r.W(), r.H()) == Get(r.fd, r.H() - 1, r.W() - 1) <= (r.H() + r.W() - 2) as real
  {
    hide Scored, Mirrored, Running, Framed, Short, ShortRef, Third, Rename, Seen, Ref, OnEdge, Get;
    MirrorParts(r, s);
    ScoredParts(r);
    ShortRange(r, r.H());
    LastEdge(r);
    TopMirror(r, s, r.H() - 1, r.W() - 1);
    TopMirror(r, s, ShortRef(r, r.H()), 0);
    TopThirds(r, s, r.H(), r.W());
    TopBorder(r, s, r.H() - 1, r.W() - 1);
    RootsMatch(r);
    RootThird(r);
  }

  lemma CornerFromColumn(r: Run, s: Run)
    requires r.H() == 2 && r.W() >= 1 && s.H() == r.W() && s.W() == 2
    requires CellHolds(r, 2, r.W()) && CellHolds(s, r.W(), 2)
    requires Third(r, 2, r.W()) == Third(s, r.W(), 2) <= r.W() as real
    requires Get(r.fd, 2, r.W() - 1) == Get(s.fd, r.W() - 1, 2)
    requires Near(Get(r.fd, 1, r.W()), Get(s.fd, r.W(), 1), (r.W() - 1) as real)
    ensures Get(r.fd, 2, r.W()) == Get(s.fd, r.W(), 2)
  {
    hide Third;
  }

  /** The two runs return the same answer. */
  lemma CornerMirror(r: Run, s: Run)
    requires Mirrored(r, s) && Short(r)
    ensures Get(r.fd, r.H(), r.W()) == Get(s.fd, r.W(), r.H())
  {
    hide Scored, Mirrored, Running, Framed, Short, Third;
    MirrorParts(r, s);
    ScoredParts(r);
    ShortShape(r);
    CornerThird(r, s);
    TopBorder(r, s, 0, r.W());
    TopMirror(r, s, r.H(), r.W() - 1);
    if r.H() == 1 {
      TopMirror(r, s, r.H() - 1, r.W() - 1);
      HoldsMirrored(r, s, r.H(), r.W());
    } else {
      LastColumn(r, s);
      CornerFromColumn(r, s);
    }
  }

  // ----- for grids -----

  lemma SymmetryKept(norm: string -> string, g: Grid, b: Grid)
    requires RowCount(g) <= 1 && |FirstRow(g)| != 1
    ensures CodeDistance(BuildTree(norm, g), BuildTree(norm, b)) == CodeDistance(BuildTree(norm, b), BuildTree(norm, g))
  {
    hide BuildTree, CodeDistance, Size, FirstRow, Scored, DataBelow, HasHeader, Get;
    CodeDistanceDefined(norm, g, b);
    CodeDistanceDefined(norm, b, g);
    RowsOf(norm, g);
    if CodeDistance(BuildTree(norm, g), BuildTree(norm, b)).Some? {
      var r := GridRun(norm, g, b);
      var s := GridRun(norm, b, g);
      CornerMirror(r, s);
      CornerValue(r);
      CornerValue(s);
    }
  }

  /** Order never matters for a table exactly when it has at most one row and that row is
      not a single cell; every other table the program scores has a partner that shows it. */
  lemma SymmetricIff(norm: string -> string, g: Grid)
    requires Size([BuildTree(norm, g)]) + 1 >= 2 * |FirstRow(g)|
    ensures (forall b: Grid ::
               CodeDistance(BuildTree(norm, g), BuildTree(norm, b)) == CodeDistance(BuildTree(norm, b), BuildTree(norm, g)))
       <==> RowCount(g) <= 1 && |FirstRow(g)| != 1
  {
    hide BuildTree, CodeDistance, Size, FirstRow, RowCount;
    if RowCount(g) <= 1 && |FirstRow(g)| != 1 {
      forall b: Grid
        ensures CodeDistance(BuildTree(norm, g), BuildTree(norm, b)) == CodeDistance(BuildTree(norm, b), BuildTree(norm, g))
      {
        SymmetryKept(norm, g, b);
      }
    } else {
      SymmetryLost(norm, g);
    }
  }
}
