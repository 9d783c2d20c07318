/** Table trees seen through their recorded walk: where rows and cells lie, which index
    the root records, and what the last forest table refers back to. */
module TableWalks {
  import opened Sequences
  import opened TreeEdit
  import opened Postorder
  import opened ForestSlices
  import opened KeyrootCorrect
  import opened FinalTables
  import opened BelowRoot
  import opened TableScore

  /** Nodes before row i: the rows above it with their cells. */
  function Start(rows: Forest, i: nat): nat
    requires i <= |rows|
  {
    Size(rows[..i])
  }

  function FirstWidth(rows: Forest): nat {
    if rows == [] then 0 else |rows[0].children|
  }

  ghost predicate RowAt(w: Walk, rows: Forest, i: int)
    requires |w.nodes| == |w.first| && 0 <= i < |rows|
  {
    && Start(rows, i) + |rows[i].children| + 1 == Start(rows, i + 1) < |w.nodes|
    && NodeAt(w.nodes, Start(rows, i + 1)) == rows[i]
    && IndexAt(w.first, Start(rows, i + 1)) == Start(rows, i) + 1
    && (forall x :: Start(rows, i) < x < Start(rows, i + 1) ==> CellAt(w, rows[i], Start(rows, i), x))
  }

  predicate CellAt(w: Walk, row: Tree, start: int, x: int) {
    && |w.nodes| == |w.first| && 1 <= x <= |w.nodes| && 0 <= x - start - 1 < |row.children|
    && IndexAt(w.first, x) == x && NodeAt(w.nodes, x) == row.children[x - start - 1]
  }

  /** w is the recorded walk of a table with these rows, v the documented one. */
  ghost predicate TableWalk(w: Walk, v: Walk, rows: Forest) {
    && Documented(w, v) && Nested(w)
    && |w.nodes| == Size(rows) + 1
    && (forall r :: r in rows ==> r.tag == Row && r.text == "" && RowLike(r) && CellTags(r))
    && NodeAt(w.nodes, |w.nodes|).tag == TreeEdit.Table
    && IndexAt(w.first, |w.nodes|) == FirstWidth(rows) + 1
    && (forall i :: 0 <= i < |rows| ==> RowAt(w, rows, i))
  }

  // ----- every table has such a walk -----

  lemma DocumentedTable(t: Tree)
    requires Tabular(t)
    ensures Documented(CodeWalk(t), TrueWalk(t))
    ensures |CodeWalk(t).nodes| == Size([t]) == |CodeWalk(t).first| == Size(t.children) + 1
    ensures NodeAt(CodeWalk(t).nodes, Size([t])) == t
    ensures IndexAt(CodeWalk(t).first, Size([t])) == FirstWidth(t.children) + 1
  {
    CodeWalkBounded(t);
    RootIndex(t);
    TrueWalkSound(t);
    SizeOfTree(t);
    LeftmostStep([t], 0);
    EmptyLeftmost(0);
    assert Init([t]) == [] && Last([t]) == t;
    var w, v := CodeWalk(t), TrueWalk(t);
    forall x | 1 <= x < |w.nodes| ensures IndexAt(w.first, x) == IndexAt(v.first, x) {
      RowIndices(t, x);
    }
  }

  /** The root shares its index with another node only if that index is 1. */
  lemma RootSharesFirstOnly(t: Tree, x: int)
    requires Tabular(t) && 1 <= x < Size([t]) == |CodeWalk(t).first|
    requires IndexAt(CodeWalk(t).first, x) == IndexAt(CodeWalk(t).first, Size([t]))
    ensures IndexAt(CodeWalk(t).first, x) == 1
  {
    DocumentedTable(t);
    NestedBelow(CodeWalk(t), TrueWalk(t), x);
    SizeOfTree(t);
    if Lead(t) >= 1 {
      FirstRowIndex(t);
    }
  }

  lemma RootUpTo(t: Tree, i: int, x: int)
    requires Tabular(t) && Bounded(CodeWalk(t))
    requires IsKeyroot(CodeWalk(t).first, i) && IndexAt(CodeWalk(t).first, i) <= x <= i
    ensures HasRootUpTo(CodeWalk(t), i, x)
  {
    hide CodeWalk, TrueWalk, Lead, Sound;
    DocumentedTable(t);
    var w, v, n := CodeWalk(t), TrueWalk(t), Size([t]);
    var k := KeyrootAbove(w, x);
    if k > i {
      NestedBelow(w, v, i);
      if k < n {
        NestedBelow(w, v, k);
      } else {
        RootSharesFirstOnly(t, x);
      }
      assert false;
    }
  }

  lemma CodeWalkNested(t: Tree)
    requires Tabular(t)
    ensures Bounded(CodeWalk(t)) && Nested(CodeWalk(t))
  {
    DocumentedTable(t);
    hide CodeWalk, HasRootUpTo, Sound;
    forall i, x | IsKeyroot(CodeWalk(t).first, i) && IndexAt(CodeWalk(t).first, i) <= x <= i
      ensures HasRootUpTo(CodeWalk(t), i, x)
    {
      RootUpTo(t, i, x);
    }
  }

  lemma {:induction false} LeafNodes(f: Forest, offset: nat)
    requires forall c :: c in f ==> c.children == []
    ensures Size(f) == |f| && Nodes(f) == f
    ensures forall k :: 0 <= k < |f| ==> Firsts(f, offset)[k] == offset + k + 1
    decreases |f|
  {
    hide Nodes, Firsts, Size;
    EmptyWalk(offset);
    if f != [] {
      assert forall c :: c in Init(f) ==> c in f;
      assert Last(f) in f;
      LeafNodes(Init(f), offset);
      EmptyWalk(offset + Size(Init(f)));
      SizeStep(f);
      NodesStep(f);
      FirstsStep(f, offset);
      assert f == Init(f) + [Last(f)];
    }
  }

  /** One row's nodes and indices: its cells, then itself. */
  lemma RowNodes(r: Tree, offset: nat)
    requires RowLike(r)
    ensures Size([r]) == |r.children| + 1
    ensures Nodes([r]) == r.children + [r]
    ensures Firsts([r], offset)[|r.children|] == offset + 1
    ensures forall k :: 0 <= k < |r.children| ==> Firsts([r], offset)[k] == offset + k + 1
  {
    hide Size, Nodes, Firsts;
    LeafNodes(r.children, offset);
    WalkOfTree(r, offset);
    SizeOfTree(r);
    if r.children != [] {
      SizeOfTree(r.children[0]);
      assert r.children[0] in r.children;
    }
  }

  lemma NodesOfThree(a: Forest, r: Tree, b: Forest, offset: nat)
    ensures Size(a + [r] + b) == Size(a) + Size([r]) + Size(b) && Size(a + [r]) == Size(a) + Size([r])
    ensures Nodes(a + [r] + b) == Nodes(a) + Nodes([r]) + Nodes(b)
    ensures Firsts(a + [r] + b, offset)
         == Firsts(a, offset) + Firsts([r], offset + Size(a)) + Firsts(b, offset + Size(a) + Size([r]))
  {
    hide Nodes, Firsts, Size;
    SizeConcat(a, [r]);
    SizeConcat(a + [r], b);
    NodesConcat(a, [r]);
    NodesConcat(a + [r], b);
    FirstsConcat(a, [r], offset);
    FirstsConcat(a + [r], b, offset);
  }

  lemma ThreeParts(c: Forest, i: nat)
    requires i < |c|
    ensures c == c[..i] + [c[i]] + c[i + 1..] && c[..i + 1] == c[..i] + [c[i]]
  {
  }

  lemma AtMiddle<T>(s: seq<T>, a: seq<T>, b: seq<T>, c: seq<T>, d: seq<T>, k: nat)
    requires s == a + b + c + d && k < |b|
    ensures |a| + k < |s| && s[|a| + k] == b[k]
  {
  }

  lemma RowSizes(t: Tree, i: nat)
    requires Tabular(t) && i < |t.children|
    ensures Start(t.children, i + 1) == Start(t.children, i) + |t.children[i].children| + 1 <= Size(t.children)
    ensures |CodeWalk(t).nodes| == |CodeWalk(t).first| == Size(t.children) + 1
    ensures RowLike(t.children[i])
  {
    var c, r := t.children, t.children[i];
    assert r in c && RowLike(r);
    SizeOfTree(t);
    hide Nodes, Firsts, Size, RowLike, Tabular;
    RowNodes(r, 0);
    ThreeParts(c, i);
    NodesOfThree(c[..i], r, c[i + 1..], 0);
  }

  lemma RowNode(t: Tree, i: nat, k: nat)
    requires Tabular(t) && i < |t.children| && k <= |t.children[i].children|
    ensures Start(t.children, i) + k < |CodeWalk(t).nodes|
    ensures CodeWalk(t).nodes[Start(t.children, i) + k] == (t.children[i].children + [t.children[i]])[k]
  {
    hide Nodes, Firsts, Size, RowLike, Tabular, FirstChild;
    var c, r := t.children, t.children[i];
    RowSizes(t, i);
    RowNodes(r, 0);
    ThreeParts(c, i);
    NodesOfThree(c[..i], r, c[i + 1..], 0);
    WalkOfTree(t, 0);
    AtMiddle(CodeWalk(t).nodes, Nodes(c[..i]), Nodes([r]), Nodes(c[i + 1..]), [t], k);
  }

  lemma IndexSplits(t: Tree, i: nat) returns (a: seq<nat>, b: seq<nat>, c: seq<nat>)
    requires i < |t.children|
    ensures CodeWalk(t).first == a + b + c + [FirstChild(t, 0)]
    ensures |a| == Start(t.children, i) && b == Firsts([t.children[i]], Start(t.children, i))
  {
    hide Nodes, Firsts, Size, FirstChild;
    var f, r := t.children, t.children[i];
    ThreeParts(f, i);
    NodesOfThree(f[..i], r, f[i + 1..], 0);
    WalkOfTree(t, 0);
    a, b, c := Firsts(f[..i], 0), Firsts([r], Size(f[..i])), Firsts(f[i + 1..], Size(f[..i]) + Size([r]));
  }

  lemma RowIndex(t: Tree, i: nat, k: nat)
    requires Tabular(t) && i < |t.children| && k <= |t.children[i].children|
    ensures Start(t.children, i) + k < |CodeWalk(t).first|
    ensures CodeWalk(t).first[Start(t.children, i) + k]
         == if k < |t.children[i].children| then Start(t.children, i) + k + 1 else Start(t.children, i) + 1
  {
    hide Nodes, Firsts, Size, RowLike, Tabular, FirstChild, CodeWalk, Start;
    RowSizes(t, i);
    RowNodes(t.children[i], Start(t.children, i));
    var a, b, c := IndexSplits(t, i);
    AtMiddle<nat>(CodeWalk(t).first, a, b, c, [FirstChild(t, 0)], k);
  }

  lemma RowLies(t: Tree, i: nat)
    requires Tabular(t) && i < |t.children| && |CodeWalk(t).nodes| == |CodeWalk(t).first|
    ensures RowAt(CodeWalk(t), t.children, i)
  {
    hide CodeWalk, Tabular, Start, Size;
    var s, r := Start(t.children, i), t.children[i];
    RowSizes(t, i);
    RowNode(t, i, |r.children|);
    RowIndex(t, i, |r.children|);
    forall x | s < x < s + |r.children| + 1 ensures CellAt(CodeWalk(t), r, s, x) {
      RowNode(t, i, x - s - 1);
      RowIndex(t, i, x - s - 1);
    }
  }

  lemma CodeTableWalk(t: Tree)
    requires Tabular(t)
    ensures TableWalk(CodeWalk(t), TrueWalk(t), t.children)
    ensures |CodeWalk(t).nodes| == Size([t])
    ensures NodeAt(CodeWalk(t).nodes, Size([t])) == t
  {
    DocumentedTable(t);
    CodeWalkNested(t);
    hide CodeWalk, TrueWalk, Sound, Nested, RowAt, Size;
    forall i: nat | i < |t.children| ensures RowAt(CodeWalk(t), t.children, i) {
      RowLies(t, i);
    }
  }
}
