/** The keyroot tables, cell by cell, exactly as the nested loops fill them:
    every read uses list indexing in which a negative index counts from the end
    and an index outside the list stops the run. */
module KeyrootTables {
  import opened Options
  import opened TreeEdit
  import opened Postorder
  import opened ForestSlices

  type Table = seq<seq<real>>

  predicate Shape(t: Table, rows: nat, cols: nat) {
    |t| == rows && forall r :: 0 <= r < rows ==> |t[r]| == cols
  }

  function Zeros(rows: nat, cols: nat): (t: Table)
    ensures Shape(t, rows, cols)
    ensures forall r, c :: 0 <= r < rows && 0 <= c < cols ==> t[r][c] == 0.0
  {
    seq(rows, r => seq(cols, c => 0.0))
  }

  /** Deleting a whole prefix down the left edge, inserting one along the top. */
  function Borders(rows: nat, cols: nat): (t: Table)
    ensures Shape(t, rows, cols)
    ensures forall r :: 0 <= r < rows && 0 < cols ==> t[r][0] == r as real
    ensures forall c :: 0 <= c < cols && 0 < rows ==> t[0][c] == c as real
    ensures forall r, c :: 0 < r < rows && 0 < c < cols ==> t[r][c] == 0.0
  {
    seq(rows, r requires 0 <= r < rows =>
      seq(cols, c requires 0 <= c < cols => if c == 0 then r as real else if r == 0 then c as real else 0.0))
  }

  function Put(t: Table, r: nat, c: nat, v: real): (u: Table)
    requires r < |t| && c < |t[r]|
    ensures |u| == |t| && forall k :: 0 <= k < |t| ==> |u[k]| == |t[k]|
    ensures forall x, y :: 0 <= x < |t| && 0 <= y < |t[x]| ==>
              u[x][y] == if x == r && y == c then v else t[x][y]
  {
    t[r := t[r][c := v]]
  }

  function ListIndex(i: int, length: nat): Option<nat> {
    if 0 <= i < length then Some(i)
    else if i < 0 <= length + i then Some(length + i)
    else None
  }

  /** Two walks and the pair of keyroots whose table is being filled. */
  datatype Job = Job(w1: Walk, w2: Walk, i: nat, j: nat) {
    predicate Valid() {
      && Bounded(w1) && Bounded(w2)
      && 1 <= i <= |w1.nodes| && 1 <= j <= |w2.nodes|
    }
    function Left1(): nat requires Valid() { IndexAt(w1.first, i) }
    function Left2(): nat requires Valid() { IndexAt(w2.first, j) }
    function Height(): nat requires Valid() { i - Left1() + 1 }
    function Width(): nat requires Valid() { j - Left2() + 1 }
    predicate Fits(s: State) requires Valid() {
      Shape(s.fd, Height() + 1, Width() + 1) && Shape(s.td, |w1.nodes| + 1, |w2.nodes| + 1)
    }
  }

  datatype State = State(fd: Table, td: Table)

  /** One inner-loop body: cell (di, dj) of the forest table. */
  function Cell(job: Job, s: State, di: nat, dj: nat): (r: Option<State>)
    requires job.Valid() && job.Fits(s)
    requires 1 <= di <= job.Height() && 1 <= dj <= job.Width()
    ensures r.Some? ==> job.Fits(r.value)
  {
    var ni, nj := job.Left1() + di - 1, job.Left2() + dj - 1;
    if IndexAt(job.w1.first, ni) == job.Left1() && IndexAt(job.w2.first, nj) == job.Left2() then
      var v := Cheapest(s.fd[di - 1][dj], s.fd[di][dj - 1],
                        s.fd[di - 1][dj - 1] + Rename(NodeAt(job.w1.nodes, ni), NodeAt(job.w2.nodes, nj)));
      Some(State(Put(s.fd, di, dj, v), Put(s.td, ni, nj, v)))
    else
      var a := ListIndex(IndexAt(job.w1.first, ni) - job.Left1(), |s.fd|);
      var b := ListIndex(IndexAt(job.w2.first, nj) - job.Left2(), job.Width() + 1);
      if a.None? || b.None? then None
      else
        var v := Cheapest(s.fd[di - 1][dj], s.fd[di][dj - 1], s.fd[a.value][b.value] + s.td[ni][nj]);
        Some(State(Put(s.fd, di, dj, v), s.td))
  }

  /** The tables after row-major filling up to and including cell (di, dj). */
  function Fill(job: Job, td: Table, di: nat, dj: nat): (r: Option<State>)
    requires job.Valid() && Shape(td, |job.w1.nodes| + 1, |job.w2.nodes| + 1)
    requires 1 <= di <= job.Height() && dj <= job.Width()
    ensures r.Some? ==> job.Fits(r.value)
    decreases di, dj
  {
    if dj == 0 then
      if di == 1 then Some(State(Borders(job.Height() + 1, job.Width() + 1), td))
      else Fill(job, td, di - 1, job.Width())
    else
      var before := Fill(job, td, di, dj - 1);
      if before.None? then None else Cell(job, before.value, di, dj)
  }

  function TreeDist(job: Job, td: Table): (r: Option<Table>)
    requires job.Valid() && Shape(td, |job.w1.nodes| + 1, |job.w2.nodes| + 1)
    ensures r.Some? ==> Shape(r.value, |job.w1.nodes| + 1, |job.w2.nodes| + 1)
  {
    var s := Fill(job, td, job.Height(), job.Width());
    if s.None? then None else Some(s.value.td)
  }

  predicate Walks(w1: Walk, w2: Walk) {
    Bounded(w1) && Bounded(w2) && w1.nodes != [] && w2.nodes != []
  }

  function Roots(w: Walk): (r: seq<nat>)
    requires Bounded(w)
    ensures forall x :: x in r <==> IsKeyroot(w.first, x)
    ensures Ascending(r)
  {
    Keyroots(w.first, |w.first|)
  }

  /** The tree table after p whole keyroot rows and q keyroot columns of the next. */
  function Pairs(w1: Walk, w2: Walk, p: nat, q: nat): (r: Option<Table>)
    requires Walks(w1, w2)
    requires p <= |Roots(w1)| && q <= |Roots(w2)| && (q == 0 || p < |Roots(w1)|)
    ensures r.Some? ==> Shape(r.value, |w1.nodes| + 1, |w2.nodes| + 1)
    decreases p, q
  {
    if q == 0 then
      if p == 0 then Some(Zeros(|w1.nodes| + 1, |w2.nodes| + 1))
      else Pairs(w1, w2, p - 1, |Roots(w2)|)
    else
      var td := Pairs(w1, w2, p, q - 1);
      assert Roots(w1)[p] in Roots(w1) && Roots(w2)[q - 1] in Roots(w2);
      if td.None? then None else TreeDist(Job(w1, w2, Roots(w1)[p], Roots(w2)[q - 1]), td.value)
  }

  /** What the table method returns for two walks; None is an index error. */
  function Distance(w1: Walk, w2: Walk): Option<real>
    requires Walks(w1, w2)
  {
    var td := Pairs(w1, w2, |Roots(w1)|, 0);
    if td.None? then None else Some(td.value[|w1.nodes|][|w2.nodes|])
  }
}
