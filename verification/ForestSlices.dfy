/** Reading forests back out of a postorder walk: a range of node numbers that
    starts at a leftmost leaf stands for an ordered forest. */
module ForestSlices {
  import opened Sequences
  import opened TreeEdit
  import opened Postorder

  predicate Bounded(w: Walk) {
    && |w.nodes| == |w.first|
    && forall i :: 1 <= i <= |w.first| ==> 1 <= IndexAt(w.first, i) <= i
  }

  /** The forest of the nodes numbered a..x, peeling the rightmost tree. */
  function Slice(w: Walk, a: int, x: int): Forest
    requires Bounded(w) && 1 <= a && 0 <= x <= |w.nodes|
    decreases x
  {
    if x < a then [] else Slice(w, a, IndexAt(w.first, x) - 1) + [NodeAt(w.nodes, x)]
  }

  /** Node i: its range is closed under descendants and holds its children. */
  predicate SoundAt(w: Walk, i: int)
    requires Bounded(w) && 1 <= i <= |w.nodes|
  {
    && (forall k :: IndexAt(w.first, i) <= k <= i ==> IndexAt(w.first, i) <= IndexAt(w.first, k))
    && NodeAt(w.nodes, i).children == Slice(w, IndexAt(w.first, i), i - 1)
  }

  predicate Sound(w: Walk) {
    Bounded(w) && forall i :: 1 <= i <= |w.nodes| ==> SoundAt(w, i)
  }

  /** `part` occurs in s after the first `offset` elements. */
  predicate Part<T(==)>(s: seq<T>, offset: nat, part: seq<T>) {
    offset + |part| <= |s| && s[offset..offset + |part|] == part
  }

  lemma PartSplits<T>(s: seq<T>, offset: nat, a: seq<T>, b: seq<T>, last: T)
    requires Part(s, offset, a + b + [last])
    ensures Part(s, offset, a)
    ensures Part(s, offset + |a|, b)
    ensures offset + |a| + |b| < |s| && s[offset + |a| + |b|] == last
  {
    var r := a + b + [last];
    assert forall k :: 0 <= k < |r| ==> s[offset..offset + |r|][k] == r[k];
    assert forall k :: 0 <= k < |a| ==> r[k] == a[k];
    forall k | 0 <= k < |b| ensures s[offset + |a| + k] == b[k] {
      assert r[|a| + k] == b[k];
    }
    assert r[|a| + |b|] == last;
  }

  /** Numbers offset+1 .. offset+Size(f) of the walk are a walk of f. */
  predicate Covers(w: Walk, offset: nat, f: Forest) {
    Part(w.nodes, offset, Nodes(f)) && Part<nat>(w.first, offset, Leftmost(f, offset))
  }

  lemma SizeStep(f: Forest)
    requires f != []
    ensures Size(f) == Size(Init(f)) + Size(Last(f).children) + 1
  {
  }

  lemma CoverSplits(w: Walk, offset: nat, f: Forest)
    requires Covers(w, offset, f) && f != []
    ensures Covers(w, offset, Init(f))
    ensures Covers(w, offset + Size(Init(f)), Last(f).children)
    ensures Size(f) == Size(Init(f)) + Size(Last(f).children) + 1
    ensures offset + Size(f) <= |w.nodes| && offset + Size(f) <= |w.first|
    ensures NodeAt(w.nodes, offset + Size(f)) == Last(f)
    ensures IndexAt(w.first, offset + Size(f)) == offset + Size(Init(f)) + 1
  {
    hide Nodes, Leftmost, Size, Part;
    SizeStep(f);
    NodesStep(f);
    LeftmostStep(f, offset);
    var g, c, s := Init(f), Last(f).children, offset + Size(Init(f));
    PartSplits(w.nodes, offset, Nodes(g), Nodes(c), Last(f));
    PartSplits<nat>(w.first, offset, Leftmost(g, offset), Leftmost(c, s), s + 1);
  }

  lemma {:induction false} SliceOfCover(w: Walk, offset: nat, f: Forest)
    requires Bounded(w) && Covers(w, offset, f)
    ensures Slice(w, offset + 1, offset + Size(f)) == f
    decreases f
  {
    hide Covers, Size, Nodes, Leftmost;
    EmptyWalk(offset);
    if f != [] {
      CoverSplits(w, offset, f);
      SliceOfCover(w, offset, Init(f));
      assert f == Init(f) + [Last(f)];
    }
  }

  lemma RootSound(w: Walk, s: nat, r: int)
    requires Bounded(w) && s < r <= |w.nodes|
    requires IndexAt(w.first, r) == s + 1
    requires NodeAt(w.nodes, r).children == Slice(w, s + 1, r - 1)
    requires forall k :: s < k < r ==> s + 1 <= IndexAt(w.first, k)
    ensures SoundAt(w, r)
  {
  }

  lemma {:induction false} LeftmostBounds(f: Forest, offset: nat)
    ensures forall k :: 0 <= k < Size(f) ==> offset + 1 <= Leftmost(f, offset)[k] <= offset + k + 1
    decreases f
  {
    if f != [] {
      LeftmostBounds(Init(f), offset);
      LeftmostBounds(Last(f).children, offset + Size(Init(f)));
      LeftmostStep(f, offset);
      hide Leftmost;
    }
  }

  lemma CoverIndices(w: Walk, offset: nat, f: Forest)
    requires Covers(w, offset, f)
    ensures offset + Size(f) <= |w.first|
    ensures forall i :: offset < i <= offset + Size(f) ==> offset + 1 <= IndexAt(w.first, i)
  {
    hide Leftmost, Size, Nodes;
    LeftmostBounds(f, offset);
    var part := w.first[offset..offset + Size(f)];
    assert part == Leftmost(f, offset);
    forall i | offset < i <= offset + Size(f) ensures offset + 1 <= IndexAt(w.first, i) {
      assert part[i - 1 - offset] == w.first[i - 1];
    }
  }

  lemma {:induction false} CoverSound(w: Walk, offset: nat, f: Forest, i: int)
    requires Bounded(w) && Covers(w, offset, f)
    requires offset < i <= offset + Size(f) <= |w.nodes|
    ensures SoundAt(w, i)
    decreases f
  {
    hide Covers, Size, Nodes, Leftmost, SoundAt, Slice, Bounded;
    EmptyWalk(offset);
    if f == [] {
      assert false;
    } else {
      var s := offset + Size(Init(f));
      CoverSplits(w, offset, f);
      if i <= s {
        CoverSound(w, offset, Init(f), i);
      } else if i < offset + Size(f) {
        CoverSound(w, s, Last(f).children, i);
      } else {
        CoverIndices(w, s, Last(f).children);
        SliceOfCover(w, s, Last(f).children);
        RootSound(w, s, i);
      }
    }
  }

  /** The walk as documented: leftmost leaves for every node of one tree. */
  function TrueWalk(t: Tree): Walk {
    Walk(Nodes([t]), Leftmost([t], 0))
  }

  /** A documented walk can be read back: every range is a subtree's forest and
      the last node is the tree itself. */
  lemma TrueWalkSound(t: Tree)
    ensures Sound(TrueWalk(t))
    ensures NodeAt(TrueWalk(t).nodes, Size([t])) == t && IndexAt(TrueWalk(t).first, Size([t])) == 1
    ensures Slice(TrueWalk(t), 1, Size([t])) == [t]
  {
    var w := TrueWalk(t);
    SizeOfTree(t);
    LeftmostBounds([t], 0);
    hide Nodes, Leftmost, Size;
    assert Bounded(w);
    assert w.nodes[0..|w.nodes|] == w.nodes && w.first[0..|w.first|] == w.first;
    assert Covers(w, 0, [t]);
    CoverSplits(w, 0, [t]);
    EmptyWalk(0);
    assert Init([t]) == [];
    SliceOfCover(w, 0, [t]);
    forall i | 1 <= i <= |w.nodes| ensures SoundAt(w, i) {
      CoverSound(w, 0, [t], i);
    }
  }

  // ----- moves within a range, as a table row sees them -----

  lemma {:induction false} SliceConcat(w: Walk, a: int, m: int, x: int)
    requires Sound(w) && 1 <= a <= m + 1 <= x + 1 && x <= |w.nodes|
    requires forall k :: m < k <= x ==> m < IndexAt(w.first, k)
    ensures Slice(w, a, m) + Slice(w, m + 1, x) == Slice(w, a, x)
    decreases x
  {
    if m < x {
      SliceConcat(w, a, m, IndexAt(w.first, x) - 1);
    }
  }

  /** Dropping the largest number of a range deletes the rightmost root. */
  lemma SliceDeleted(w: Walk, a: int, x: int)
    requires Sound(w) && 1 <= a <= x <= |w.nodes|
    requires a <= IndexAt(w.first, x)
    ensures Slice(w, a, x) != []
    ensures Last(Slice(w, a, x)) == NodeAt(w.nodes, x)
    ensures Init(Slice(w, a, x)) == Slice(w, a, IndexAt(w.first, x) - 1)
    ensures Deleted(Slice(w, a, x)) == Slice(w, a, x - 1)
  {
    var s := IndexAt(w.first, x) - 1;
    assert SoundAt(w, x);
    SliceConcat(w, a, s, x - 1);
  }

  lemma SliceOfTree(w: Walk, x: int)
    requires Sound(w) && 1 <= x <= |w.nodes|
    ensures Slice(w, IndexAt(w.first, x), x) == [NodeAt(w.nodes, x)]
    ensures Slice(w, IndexAt(w.first, x), x - 1) == NodeAt(w.nodes, x).children
  {
    assert SoundAt(w, x);
  }
}
