/** Table trees, the distance the recorded indices really give, and the score. */
module TableScore {
  import opened Sequences
  import opened Options
  import opened TreeEdit
  import opened Postorder
  import opened ForestSlices
  import opened KeyrootTables
  import opened KeyrootCorrect
  import opened KeyrootLaws

  datatype Grid = Grid(headers: seq<string>, rows: seq<seq<string>>)

  /** Cell text is normalised by `norm` before it enters the tree. */
  function Cells(norm: string -> string, tag: Tag, texts: seq<string>): (r: Forest)
    ensures |r| == |texts|
    ensures forall i :: 0 <= i < |r| ==> r[i] == Node(tag, norm(texts[i]), [])
  {
    seq(|texts|, i requires 0 <= i < |texts| => Node(tag, norm(texts[i]), []))
  }

  function RowTrees(norm: string -> string, rows: seq<seq<string>>): (r: Forest)
    ensures |r| == |rows|
    ensures forall i :: 0 <= i < |r| ==> r[i] == Node(Row, "", Cells(norm, Data, rows[i]))
  {
    seq(|rows|, i requires 0 <= i < |rows| => Node(Row, "", Cells(norm, Data, rows[i])))
  }

  function HeaderTrees(norm: string -> string, headers: seq<string>): Forest {
    if headers == [] then [] else [Node(Row, "", Cells(norm, Header, headers))]
  }

  function BuildTree(norm: string -> string, g: Grid): Tree {
    Node(TreeEdit.Table, "", HeaderTrees(norm, g.headers) + RowTrees(norm, g.rows))
  }

  /** The row the tree starts with: the headers unless there are none. */
  function FirstRow(g: Grid): seq<string> {
    if g.headers != [] then g.headers else if g.rows != [] then g.rows[0] else []
  }

  /** The walk with the indices as recorded. */
  function CodeWalk(t: Tree): Walk {
    Walk(Nodes([t]), Firsts([t], 0))
  }

  lemma {:induction false} FirstsBounds(f: Forest, offset: nat)
    ensures forall k :: 0 <= k < Size(f) ==> offset + 1 <= Firsts(f, offset)[k] <= offset + k + 1
    decreases f
  {
    hide Firsts, Size;
    EmptyWalk(offset);
    if f != [] {
      var t := Last(f);
      FirstsBounds(Init(f), offset);
      FirstsBounds(t.children, offset + Size(Init(f)));
      if t.children != [] {
        SizeConcat([t.children[0]], t.children[1..]);
        assert t.children == [t.children[0]] + t.children[1..];
        SizeOfTree(t.children[0]);
      }
      FirstsStep(f, offset);
      SizeStep(f);
    }
  }

  lemma CodeWalkBounded(t: Tree)
    ensures Bounded(CodeWalk(t)) && |CodeWalk(t).nodes| == Size([t]) >= 1
    ensures NodeAt(CodeWalk(t).nodes, Size([t])) == t
    ensures IndexAt(CodeWalk(t).first, Size([t])) == FirstChild(t, 0)
  {
    FirstsBounds([t], 0);
    WalkOfTree(t, 0);
    SizeOfTree(t);
    hide Nodes, Firsts, Size;
  }

  /** The distance the program computes; None is an index error. */
  function CodeDistance(t1: Tree, t2: Tree): Option<real> {
    CodeWalkBounded(t1);
    CodeWalkBounded(t2);
    Distance(CodeWalk(t1), CodeWalk(t2))
  }

  // ----- when the program's distance is the edit distance -----

  /** If every first child is a leaf in both trees, the program computes the
      forest edit distance. */
  lemma CodeDistanceIsExact(t1: Tree, t2: Tree)
    requires FirstsAreLeaves([t1]) && FirstsAreLeaves([t2])
    ensures CodeDistance(t1, t2) == Some(Dist([t1], [t2]))
  {
    FirstsRightIff([t1], 0);
    FirstsRightIff([t2], 0);
    TrueWalkSound(t1);
    TrueWalkSound(t2);
    CodeWalkBounded(t1);
    CodeWalkBounded(t2);
    hide Dist, Nodes, Firsts, Leftmost, Distance, FirstsAreLeaves;
    DistanceIsExact(TrueWalk(t1), TrueWalk(t2));
  }

  /** Against a childless root of the same kind the program's answer is too small
      as soon as the other root's first child is not a leaf. */
  lemma CodeDistanceFallsShort(t: Tree, u: Tree)
    requires t.children != [] && t.children[0].children != [] && u.children == []
    requires Rename(t, u) == 0.0
    ensures CodeDistance(t, u).Some? ==> CodeDistance(t, u).value < Dist([t], [u])
    ensures CodeDistance(u, t).Some? ==> CodeDistance(u, t).value < Dist([u], [t])
  {
    CodeWalkBounded(t);
    CodeWalkBounded(u);
    SizeOfTree(u);
    SizeOfTree(t.children[0]);
    assert Size([u]) == 1 && Size([t.children[0]]) >= 2;
    DistBounds([t], [u]);
    DistSymmetric([t], [u]);
    RenameSymmetric(t, u);
    hide Dist, Nodes, Firsts, Distance, Size, Rename;
    DistanceInRange(CodeWalk(t), CodeWalk(u));
    DistanceInRange(CodeWalk(u), CodeWalk(t));
  }

  /** Whatever the recorded indices, the answer on roots of one kind stays within
      the two node counts less the roots, and a tree is at distance zero from itself. */
  lemma CodeDistanceBounds(t: Tree, u: Tree)
    requires Rename(t, u) == 0.0
    ensures Size([t]) >= 1 && Size([u]) >= 1
    ensures CodeDistance(t, u).Some? ==> 0.0 <= CodeDistance(t, u).value <= (Size([t]) + Size([u]) - 2) as real
    ensures t == u && CodeDistance(t, u).Some? ==> CodeDistance(t, u).value == 0.0
  {
    CodeWalkBounded(t);
    CodeWalkBounded(u);
    hide Nodes, Firsts, Distance, Size, Rename;
    DistanceInRange(CodeWalk(t), CodeWalk(u));
    DistanceOfSelf(CodeWalk(t));
  }

  // ----- the same for tables -----

  /** Roots of a table tree: rows of leaf cells. */
  predicate RowLike(t: Tree) {
    forall c :: c in t.children ==> c.children == []
  }

  /** A root over rows of leaf cells. */
  predicate Tabular(t: Tree) {
    && t.tag == TreeEdit.Table
    && forall r :: r in t.children ==> r.tag == Row && r.text == "" && RowLike(r) && CellTags(r)
  }

  predicate CellTags(t: Tree) {
    forall c :: c in t.children ==> c.tag in {Header, Data}
  }

  /** How many cells the tree's first row has. */
  function Lead(t: Tree): nat {
    if t.children == [] then 0 else |t.children[0].children|
  }

  lemma {:induction false} RowsFirstsAreLeaves(f: Forest)
    requires forall t :: t in f ==> RowLike(t)
    ensures FirstsAreLeaves(f)
    decreases f
  {
    if f != [] {
      forall t | t in Init(f) ensures RowLike(t) {
        assert t in f;
      }
      RowsFirstsAreLeaves(Init(f));
      assert Last(f) in f;
      RowsFirstsAreLeaves(Last(f).children);
    }
  }

  lemma TableTabular(norm: string -> string, g: Grid)
    ensures Tabular(BuildTree(norm, g)) && Lead(BuildTree(norm, g)) == |FirstRow(g)|
  {
    var h, r := HeaderTrees(norm, g.headers), RowTrees(norm, g.rows);
    forall t: Tree | t in h + r ensures t.tag == Row && t.text == "" && RowLike(t) && CellTags(t) {
      if t in h {
        assert t == Node(Row, "", Cells(norm, Header, g.headers));
      } else {
        var i :| 0 <= i < |r| && r[i] == t;
      }
    }
  }

  /** A table tree has leaves as first children exactly when its first row is blank. */
  lemma TableFirstsAreLeavesIff(norm: string -> string, g: Grid)
    ensures FirstsAreLeaves([BuildTree(norm, g)]) <==> FirstRow(g) == []
  {
    var t := BuildTree(norm, g);
    TableTabular(norm, g);
    RowsFirstsAreLeaves(t.children);
    assert Init([t]) == [] && Last([t]) == t;
  }

  const EMPTY_GRID := Grid([], [])

  /** The program agrees with the edit distance against every table of blank first
      row exactly when its own first row is blank; the empty table already shows it. */
  lemma ExactAgainstBlankIff(norm: string -> string, g: Grid)
    ensures FirstRow(g) == [] <==>
            forall b: Grid :: FirstRow(b) == [] ==>
              CodeDistance(BuildTree(norm, g), BuildTree(norm, b)) == Some(Dist([BuildTree(norm, g)], [BuildTree(norm, b)]))
    ensures FirstRow(g) == [] <==>
            CodeDistance(BuildTree(norm, g), BuildTree(norm, EMPTY_GRID))
            == Some(Dist([BuildTree(norm, g)], [BuildTree(norm, EMPTY_GRID)]))
    ensures FirstRow(g) == [] <==>
            CodeDistance(BuildTree(norm, EMPTY_GRID), BuildTree(norm, g))
            == Some(Dist([BuildTree(norm, EMPTY_GRID)], [BuildTree(norm, g)]))
  {
    hide Dist, CodeDistance, FirstsAreLeaves;
    TableFirstsAreLeavesIff(norm, g);
    TableFirstsAreLeavesIff(norm, EMPTY_GRID);
    if FirstRow(g) == [] {
      forall b: Grid | FirstRow(b) == []
        ensures CodeDistance(BuildTree(norm, g), BuildTree(norm, b))
             == Some(Dist([BuildTree(norm, g)], [BuildTree(norm, b)]))
      {
        TableFirstsAreLeavesIff(norm, b);
        CodeDistanceIsExact(BuildTree(norm, g), BuildTree(norm, b));
      }
      CodeDistanceIsExact(BuildTree(norm, EMPTY_GRID), BuildTree(norm, g));
    } else {
      TableTabular(norm, g);
      CodeDistanceFallsShort(BuildTree(norm, g), BuildTree(norm, EMPTY_GRID));
      assert FirstRow(EMPTY_GRID) == [];
    }
  }

  lemma CodeDistanceRange(norm: string -> string, a: Grid, b: Grid)
    ensures var t, u := BuildTree(norm, a), BuildTree(norm, b);
      && Size([t]) >= 1 && Size([u]) >= 1
      && (CodeDistance(t, u).Some? ==> 0.0 <= CodeDistance(t, u).value <= (Size([t]) + Size([u]) - 2) as real)
      && (a == b && CodeDistance(t, u).Some? ==> CodeDistance(t, u).value == 0.0)
  {
    hide CodeDistance, Size;
    CodeDistanceBounds(BuildTree(norm, a), BuildTree(norm, b));
  }

  // ----- index errors on tables -----

  lemma RowIndices(t: Tree, x: int)
    requires Tabular(t) && 1 <= x < Size([t])
    ensures IndexAt(CodeWalk(t).first, x) == Leftmost(t.children, 0)[x - 1]
    ensures |Leftmost(t.children, 0)| == Size([t]) - 1
  {
    RowsFirstsAreLeaves(t.children);
    FirstsRightIff(t.children, 0);
    WalkOfTree(t, 0);
    SizeOfTree(t);
  }

  /** Below the root of a table no recorded index lies left of its range. */
  lemma BelowRootNested(t: Tree, i: int, x: int)
    requires Tabular(t) && Bounded(CodeWalk(t))
    requires 1 <= i < Size([t]) && IndexAt(CodeWalk(t).first, i) <= x <= i
    ensures IndexAt(CodeWalk(t).first, i) <= IndexAt(CodeWalk(t).first, x)
  {
    var c := t.children;
    var v := Walk(Nodes(c), Leftmost(c, 0));
    LeftmostBounds(c, 0);
    SizeOfTree(t);
    RowIndices(t, i);
    RowIndices(t, x);
    hide Nodes, Leftmost, Size, CodeWalk;
    assert Bounded(v);
    assert v.nodes[0..|v.nodes|] == v.nodes && v.first[0..|v.first|] == v.first;
    CoverSound(v, 0, c, i);
    assert IndexAt(v.first, i) == Leftmost(c, 0)[i - 1] && IndexAt(v.first, x) == Leftmost(c, 0)[x - 1];
  }

  /** The second node's position: right after the first row and its cells. */
  lemma RootIndex(t: Tree)
    requires Tabular(t)
    ensures FirstChild(t, 0) == Lead(t) + 1
    ensures t.children != [] ==> Size([t]) >= Lead(t) + 2
  {
    if t.children != [] {
      var c := t.children;
      assert c[0] in c;
      SizeOfTree(c[0]);
      SizeOfLeaves(c[0].children);
      SizeOfTree(t);
      assert c == [c[0]] + c[1..];
      SizeConcat([c[0]], c[1..]);
    }
  }

  lemma {:induction false} SizeOfLeaves(f: Forest)
    requires forall t :: t in f ==> t.children == []
    ensures Size(f) == |f|
    decreases f
  {
    if f != [] {
      assert Last(f) in f;
      forall t | t in Init(f) ensures t.children == [] {
        assert t in f;
      }
      SizeOfLeaves(Init(f));
    }
  }

  /** The first row's own node records number 1. */
  lemma FirstRowIndex(t: Tree)
    requires Tabular(t) && t.children != []
    ensures Lead(t) + 1 < Size([t]) == |CodeWalk(t).first|
    ensures IndexAt(CodeWalk(t).first, Lead(t) + 1) == 1
  {
    var c, k := t.children, Lead(t);
    assert c[0] in c;
    RootIndex(t);
    SizeOfTree(c[0]);
    SizeOfLeaves(c[0].children);
    RowIndices(t, k + 1);
    assert c == [c[0]] + c[1..];
    LeftmostConcat([c[0]], c[1..], 0);
    LeftmostStep([c[0]], 0);
    assert Init([c[0]]) == [];
  }

  /** When only the root's range can overrun, the worst node y recording 1 decides. */
  lemma RootDecidesCrash(w: Walk, y: int)
    requires Bounded(w) && w.nodes != []
    requires forall i, x :: 1 <= i < |w.nodes| && IndexAt(w.first, i) <= x <= i ==>
               IndexAt(w.first, i) <= IndexAt(w.first, x)
    requires IndexAt(w.first, |w.nodes|) <= y <= |w.nodes| && IndexAt(w.first, y) == 1
    ensures Crashes(w) <==> |w.nodes| + 3 < 2 * IndexAt(w.first, |w.nodes|)
  {
    var n := |w.nodes|;
    LastRoot(w);
    assert Last(Roots(w)) in Roots(w);
    hide Roots;
    if Crashes(w) {
      var i :| i in Roots(w) && Overruns(w, i);
      var x :| OverrunsAt(w, i, x);
      assert i == n;
    }
    if n + 3 < 2 * IndexAt(w.first, n) {
      assert OverrunsAt(w, n, y);
    }
  }

  /** The program stops with an index error exactly when a first row of k cells
      meets a tree of fewer than 2k - 1 nodes: a short table under a wide first row. */
  lemma TableCrashesIff(norm: string -> string, g: Grid)
    ensures Bounded(CodeWalk(BuildTree(norm, g)))
    ensures Crashes(CodeWalk(BuildTree(norm, g))) <==> Size([BuildTree(norm, g)]) + 1 < 2 * |FirstRow(g)|
  {
    var t := BuildTree(norm, g);
    var w, n, k := CodeWalk(t), Size([t]), |FirstRow(g)|;
    CodeWalkBounded(t);
    TableTabular(norm, g);
    RootIndex(t);
    SizeOfTree(t);
    if t.children != [] {
      FirstRowIndex(t);
    }
    hide CodeWalk, BuildTree, Size, FirstRow, Nodes, Firsts, Crashes, Lead, Tabular;
    forall i, x | 1 <= i < n && IndexAt(w.first, i) <= x <= i
      ensures IndexAt(w.first, i) <= IndexAt(w.first, x)
    {
      BelowRootNested(t, i, x);
    }
    RootDecidesCrash(w, if t.children == [] then n else k + 1);
  }

  lemma CodeDistanceDefined(norm: string -> string, a: Grid, b: Grid)
    ensures CodeDistance(BuildTree(norm, a), BuildTree(norm, b)).None? <==>
            || Size([BuildTree(norm, a)]) + 1 < 2 * |FirstRow(a)|
            || Size([BuildTree(norm, b)]) + 1 < 2 * |FirstRow(b)|
  {
    CodeWalkBounded(BuildTree(norm, a));
    CodeWalkBounded(BuildTree(norm, b));
    TableCrashesIff(norm, a);
    TableCrashesIff(norm, b);
    hide BuildTree, Distance, Crashes;
    DistanceDefined(CodeWalk(BuildTree(norm, a)), CodeWalk(BuildTree(norm, b)));
  }

  // ----- the edit distance of tables -----

  /** Only cells carry text. */
  predicate Plain(f: Forest)
    decreases Size(f)
  {
    f == [] || (
      && Plain(Init(f))
      && Plain(Last(f).children)
      && (Last(f).tag in {Row, TreeEdit.Table} ==> Last(f).text == ""))
  }

  lemma {:induction false} AlikePlainEqual(f: Forest, g: Forest)
    requires Plain(f) && Plain(g)
    ensures Alike(f, g) <==> f == g
    decreases Size(f)
  {
    if f != [] && g != [] {
      AlikePlainEqual(Init(f), Init(g));
      AlikePlainEqual(Last(f).children, Last(g).children);
      var t, u := Last(f), Last(g);
      assert t == Node(t.tag, t.text, t.children) && u == Node(u.tag, u.text, u.children);
      assert Rename(t, u) == 0.0 <==> t.tag == u.tag && t.text == u.text;
      assert f == Init(f) + [t] && g == Init(g) + [u];
    }
  }

  lemma {:induction false} RowsPlain(f: Forest)
    requires forall t :: t in f ==> Plain(t.children) && (t.tag in {Row, TreeEdit.Table} ==> t.text == "")
    ensures Plain(f)
    decreases f
  {
    if f != [] {
      forall t | t in Init(f) ensures t in f {
      }
      RowsPlain(Init(f));
      assert Last(f) in f;
    }
  }

  lemma TablePlain(norm: string -> string, g: Grid)
    ensures Plain([BuildTree(norm, g)])
  {
    var h, r := HeaderTrees(norm, g.headers), RowTrees(norm, g.rows);
    forall t: Tree | t in h + r ensures Plain(t.children) && t.text == "" {
      if t in h {
        RowsPlain(Cells(norm, Header, g.headers));
      } else {
        var i :| 0 <= i < |r| && r[i] == t;
        RowsPlain(Cells(norm, Data, g.rows[i]));
      }
    }
    RowsPlain(h + r);
    assert Init([BuildTree(norm, g)]) == [];
  }

  /** For tables the forest distance is a proper separation: zero only between equal
      trees, symmetric, and within the span of the two node counts. */
  lemma TableDistanceLaws(norm: string -> string, a: Grid, b: Grid)
    ensures var t, u := BuildTree(norm, a), BuildTree(norm, b);
      && (Dist([t], [u]) == 0.0 <==> t == u)
      && Dist([t], [u]) == Dist([u], [t])
      && Size([t]) as real - Size([u]) as real <= Dist([t], [u])
      && Size([u]) as real - Size([t]) as real <= Dist([t], [u])
      && Dist([t], [u]) <= (Size([t]) + Size([u]) - 2) as real
  {
    var t, u := BuildTree(norm, a), BuildTree(norm, b);
    TablePlain(norm, a);
    TablePlain(norm, b);
    assert Rename(t, u) == 0.0;
    hide BuildTree, Dist, Alike, Plain;
    ZeroIffAlike([t], [u]);
    AlikePlainEqual([t], [u]);
    assert [t] == [u] <==> t == u;
    DistSymmetric([t], [u]);
    DistBounds([t], [u]);
    RootsFree(t, u);
  }
}
