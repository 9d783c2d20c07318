/** The postorder walk of a tree: the node list, the "first descendant" index
    kept for every node, and the keyroots derived from it. */
module Postorder {
  import opened Sequences
  import opened Options
  import opened TreeEdit

  /** Positions are 1-based postorder numbers; `first[i - 1]` belongs to node i. */
  datatype Walk = Walk(nodes: seq<Tree>, first: seq<nat>)

  function Nodes(f: Forest): (r: seq<Tree>)
    ensures |r| == Size(f)
  {
    if f == [] then [] else Nodes(Init(f)) + Nodes(Last(f).children) + [Last(f)]
  }

  /** The index recorded for a tree whose numbering starts after `offset`:
      the number of its first child's ROOT, or its own number if it is a leaf. */
  function FirstChild(t: Tree, offset: nat): nat {
    if t.children == [] then offset + 1 else offset + Size([t.children[0]])
  }

  /** What the walk appends to the index list. */
  function Firsts(f: Forest, offset: nat): (r: seq<nat>)
    ensures |r| == Size(f)
    decreases f
  {
    if f == [] then []
    else
      var start := offset + Size(Init(f));
      Firsts(Init(f), offset) + Firsts(Last(f).children, start) + [FirstChild(Last(f), start)]
  }

  /** What the index list is documented to hold: leftmost leaf descendants. */
  function Leftmost(f: Forest, offset: nat): (r: seq<nat>)
    ensures |r| == Size(f)
    decreases f
  {
    if f == [] then []
    else
      var start := offset + Size(Init(f));
      Leftmost(Init(f), offset) + Leftmost(Last(f).children, start) + [start + 1]
  }

  lemma LeftmostStep(f: Forest, offset: nat)
    requires f != []
    ensures Leftmost(f, offset) ==
            Leftmost(Init(f), offset) + Leftmost(Last(f).children, offset + Size(Init(f)))
            + [offset + Size(Init(f)) + 1]
  {
    hide Size, Nodes, Firsts;
  }

  lemma EmptyLeftmost(offset: nat)
    ensures Leftmost([], offset) == [] && Size([]) == 0
  {
  }

  lemma {:induction false} LeftmostConcat(f: Forest, g: Forest, offset: nat)
    ensures Leftmost(f + g, offset) == Leftmost(f, offset) + Leftmost(g, offset + Size(f))
    decreases |g|
  {
    hide Leftmost, Size;
    if g == [] {
      assert f + g == f;
      EmptyLeftmost(offset + Size(f));
    } else {
      LeftmostConcat(f, Init(g), offset);
      SizeConcat(f, Init(g));
      assert Init(f + g) == f + Init(g);
      LeftmostStep(f + g, offset);
      LeftmostStep(g, offset + Size(f));
      assert offset + Size(f + Init(g)) == offset + Size(f) + Size(Init(g));
    }
  }

  function LeftmostLeaf(t: Tree): Tree
    decreases t
  {
    if t.children == [] then t else LeftmostLeaf(t.children[0])
  }

  lemma NodesStep(f: Forest)
    requires f != []
    ensures Nodes(f) == Nodes(Init(f)) + Nodes(Last(f).children) + [Last(f)]
  {
  }

  lemma {:induction false} NodesConcat(f: Forest, g: Forest)
    ensures Nodes(f + g) == Nodes(f) + Nodes(g)
    decreases |g|
  {
    hide Nodes;
    if g == [] {
      assert f + g == f;
      EmptyWalk(0);
    } else {
      NodesConcat(f, Init(g));
      assert Init(f + g) == f + Init(g);
      NodesStep(f + g);
      NodesStep(g);
    }
  }

  lemma FirstsStep(f: Forest, offset: nat)
    requires f != []
    ensures Firsts(f, offset) ==
            Firsts(Init(f), offset) + Firsts(Last(f).children, offset + Size(Init(f)))
            + [FirstChild(Last(f), offset + Size(Init(f)))]
  {
    hide Size, Nodes, Leftmost;
  }

  lemma {:induction false} FirstsConcat(f: Forest, g: Forest, offset: nat)
    ensures Firsts(f + g, offset) == Firsts(f, offset) + Firsts(g, offset + Size(f))
    decreases |g|
  {
    hide Firsts, Size;
    if g == [] {
      assert f + g == f;
      EmptyWalk(offset + Size(f));
    } else {
      FirstsConcat(f, Init(g), offset);
      SizeConcat(f, Init(g));
      assert Init(f + g) == f + Init(g);
      FirstsStep(f + g, offset);
      FirstsStep(g, offset + Size(f));
    }
  }

  /** The number that follows the offset is the leftmost leaf's, so `Leftmost`
      is the documented list. */
  lemma {:induction false} FirstNodeIsLeftmostLeaf(t: Tree)
    ensures Nodes([t])[0] == LeftmostLeaf(t)
    decreases t
  {
    assert Init([t]) == [];
    if t.children != [] {
      var c := t.children;
      FirstNodeIsLeftmostLeaf(c[0]);
      assert c == [c[0]] + c[1..];
      NodesConcat([c[0]], c[1..]);
    }
  }

  /** Every node that has children has a leaf as its first child. */
  predicate FirstsAreLeaves(f: Forest) {
    f == [] || (
      && FirstsAreLeaves(Init(f))
      && FirstsAreLeaves(Last(f).children)
      && (Last(f).children == [] || Last(f).children[0].children == []))
  }

  lemma SizeOfTree(t: Tree)
    ensures Size([t]) == Size(t.children) + 1
    ensures Size([t]) == 1 <==> t.children == []
  {
    assert Init([t]) == [];
  }

  lemma EqualInParts(a: seq<nat>, b: seq<nat>, x: nat, c: seq<nat>, d: seq<nat>, y: nat)
    requires |a| == |c| && |b| == |d|
    ensures a + b + [x] == c + d + [y] <==> a == c && b == d && x == y
  {
    var s, t := a + b + [x], c + d + [y];
    assert s[..|a|] == a && s[|a|..|a| + |b|] == b && s[|a| + |b|] == x;
    assert t[..|a|] == c && t[|a|..|a| + |b|] == d && t[|a| + |b|] == y;
  }

  /** The recorded indices are leftmost leaves exactly when first children are leaves. */
  lemma {:induction false} FirstsRightIff(f: Forest, offset: nat)
    ensures Firsts(f, offset) == Leftmost(f, offset) <==> FirstsAreLeaves(f)
    decreases f
  {
    if f == [] {
    } else {
      hide Firsts, Leftmost, Size;
      var t, start := Last(f), offset + Size(Init(f));
      FirstsRightIff(Init(f), offset);
      FirstsRightIff(t.children, start);
      if t.children != [] {
        SizeOfTree(t.children[0]);
      }
      FirstsStep(f, offset);
      LeftmostStep(f, offset);
      EqualInParts(Firsts(Init(f), offset), Firsts(t.children, start), FirstChild(t, start),
                   Leftmost(Init(f), offset), Leftmost(t.children, start), start + 1);
    }
  }

  // ----- the walk itself -----

  /** The two lists that the recursive visit appends to. */
  class Walker {
    var nodes: seq<Tree>
    var lmld: seq<nat>

    constructor ()
      ensures nodes == [] && lmld == []
    {
      nodes, lmld := [], [];
    }

    method Visit(n: Tree) returns (i: nat)
      requires |nodes| == |lmld|
      modifies this
      ensures nodes == old(nodes) + Nodes([n])
      ensures lmld == old(lmld) + Firsts([n], |old(nodes)|)
      ensures i == |nodes| == |lmld|
      decreases n
    {
      hide Nodes, Firsts, Size;
      ghost var offset := |nodes|;
      var first: Option<nat> := None;
      EmptyWalk(offset);
      for k := 0 to |n.children|
        invariant nodes == old(nodes) + Nodes(n.children[..k])
        invariant lmld == old(lmld) + Firsts(n.children[..k], offset)
        invariant first == if k == 0 then None else Some(offset + Size([n.children[0]]))
        invariant |nodes| == |lmld| == offset + Size(n.children[..k])
      {
        var c := n.children[k];
        NodesConcat(n.children[..k], [c]);
        FirstsConcat(n.children[..k], [c], offset);
        SizeConcat(n.children[..k], [c]);
        assert n.children[..k + 1] == n.children[..k] + [c];
        assert k == 0 ==> [c] == [n.children[0]] && n.children[..k] == [];
        var idx := Visit(c);
        if first == None {
          first := Some(idx);
        }
      }
      assert n.children[..|n.children|] == n.children;
      WalkOfTree(n, offset);
      nodes := nodes + [n];
      i := |nodes|;
      lmld := lmld + [if first == None then i else first.value];
    }
  }

  lemma EmptyWalk(offset: nat)
    ensures Nodes([]) == [] && Firsts([], offset) == [] && Size([]) == 0
  {
  }

  lemma WalkOfTree(n: Tree, offset: nat)
    ensures Nodes([n]) == Nodes(n.children) + [n]
    ensures Firsts([n], offset) == Firsts(n.children, offset) + [FirstChild(n, offset)]
    ensures n.children == [] ==> Size(n.children) == 0
  {
    assert Init([n]) == [];
  }

  /** The index recorded for node i. */
  function IndexAt(first: seq<nat>, i: int): nat
    requires 1 <= i <= |first|
  {
    first[i - 1]
  }

  /** Node i. */
  function NodeAt(nodes: seq<Tree>, i: int): Tree
    requires 1 <= i <= |nodes|
  {
    nodes[i - 1]
  }

  /** A node is a keyroot when no later node records the same index. */
  predicate IsKeyroot(first: seq<nat>, i: int) {
    1 <= i <= |first| && forall j :: i < j <= |first| ==> IndexAt(first, j) != IndexAt(first, i)
  }

  predicate Ascending(s: seq<nat>) {
    forall i, j :: 0 <= i < j < |s| ==> s[i] < s[j]
  }

  /** The keyroots among the first n nodes, ascending. */
  function Keyroots(first: seq<nat>, n: nat): (r: seq<nat>)
    requires n <= |first|
    ensures forall x :: x in r ==> x <= n && IsKeyroot(first, x)
    ensures forall x :: x <= n && IsKeyroot(first, x) ==> x in r
    ensures Ascending(r)
  {
    if n == 0 then []
    else
      var before := Keyroots(first, n - 1);
      assert forall i :: 0 <= i < |before| ==> before[i] in before;
      if IsKeyroot(first, n) then before + [n] else before
  }

  predicate IsMaximum(s: set<nat>, m: nat) {
    m in s && forall x :: x in s ==> x <= m
  }

  lemma MaximumExists(s: set<nat>)
    requires s != {}
    ensures exists m :: IsMaximum(s, m)
    decreases s
  {
    var m :| m in s;
    var above := set x | x in s && x > m;
    if above == {} {
      assert forall x :: x in s && x > m ==> x in above;
      assert IsMaximum(s, m);
    } else {
      assert m !in above;
      MaximumExists(above);
      var top :| IsMaximum(above, top);
      forall x | x in s ensures x <= top {
        assert x <= m || x in above;
      }
      assert IsMaximum(s, top);
    }
  }

  /** Python's `sorted` on a collection of distinct numbers. */
  function SortedSet(s: set<nat>): (r: seq<nat>)
    ensures Ascending(r)
    ensures forall x :: x in r <==> x in s
    decreases s
  {
    if s == {} then []
    else
      MaximumExists(s);
      var m :| IsMaximum(s, m);
      var before := SortedSet(s - {m});
      assert forall i :: 0 <= i < |before| ==> before[i] in before;
      before + [m]
  }

  lemma {:induction false} AscendingUnique(a: seq<nat>, b: seq<nat>)
    requires Ascending(a) && Ascending(b)
    requires forall x :: x in a <==> x in b
    ensures a == b
    decreases |a|
  {
    if a != [] {
      assert a[0] in b;
    }
    if b != [] {
      assert b[0] in a;
    }
    if a != [] && b != [] {
      assert Last(a) in b && Last(b) in a;
      assert Last(a) == Last(b);
      forall x ensures x in Init(a) <==> x in Init(b) {
        if x in Init(a) { assert x in a; }
        if x in Init(b) { assert x in b; }
      }
      AscendingUnique(Init(a), Init(b));
      assert a == Init(a) + [Last(a)] && b == Init(b) + [Last(b)];
    }
  }

  /** The `last` table and its sorted values are the keyroots. */
  method KeyrootsOf(lmld: seq<nat>) returns (keyroots: seq<nat>)
    ensures keyroots == Keyroots(lmld, |lmld|)
  {
    var last: map<nat, nat> := map[];
    for i := 1 to |lmld| + 1
      invariant forall v :: v in last ==> 1 <= last[v] < i && IndexAt(lmld, last[v]) == v
      invariant forall j :: 1 <= j < i ==> IndexAt(lmld, j) in last && j <= last[IndexAt(lmld, j)]
    {
      last := last[lmld[i - 1] := i];
    }
    forall x | IsKeyroot(lmld, x) ensures x in last.Values {
      assert last[IndexAt(lmld, x)] == x;
    }
    keyroots := SortedSet(last.Values);
    AscendingUnique(keyroots, Keyroots(lmld, |lmld|));
  }

  /** Nodes, recorded indices and keyroots of a tree. */
  method WalkTree(root: Tree) returns (w: Walk, keyroots: seq<nat>)
    ensures w == Walk(Nodes([root]), Firsts([root], 0))
    ensures keyroots == Keyroots(w.first, |w.first|)
  {
    hide Nodes, Firsts;
    var walker := new Walker();
    var _ := walker.Visit(root);
    w := Walk(walker.nodes, walker.lmld);
    keyroots := KeyrootsOf(w.first);
  }
}
