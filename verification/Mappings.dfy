/** The declarative meaning of the forest distance: the cheapest way to match
    nodes of two trees so that order and ancestry are preserved. */
module Mappings {
  import opened Sequences
  import opened TreeEdit
  import opened Postorder
  import opened ForestSlices

  /** Matched node numbers, listed in postorder. */
  type Mapping = seq<(int, int)>

  /** Two sound walks and the ranges of node numbers to be matched. */
  datatype Ranges = Ranges(w1: Walk, a: int, x: int, w2: Walk, b: int, y: int) {
    ghost predicate Valid() {
      && Closed(w1, a, x) && Closed(w2, b, y)
    }
    function Left(): Forest
      requires Closed(w1, a, x)
    { Slice(w1, a, x) }
    function Right(): Forest
      requires Closed(w2, b, y)
    { Slice(w2, b, y) }
    /** Both ranges' sizes: the cost of matching nothing. */
    function Span(): int { (x - a + 1) + (y - b + 1) }
  }

  /** A range that contains every descendant of its nodes. */
  predicate Closed(w: Walk, a: int, x: int) {
    && Sound(w) && 1 <= a <= x + 1 && x <= |w.nodes|
    && forall k :: a <= k <= x ==> a <= IndexAt(w.first, k)
  }

  /** Later node q is an ancestor of earlier node p. */
  predicate Above(w: Walk, q: int, p: int) {
    1 <= q <= |w.first| && IndexAt(w.first, q) <= p
  }

  ghost predicate Inside(r: Ranges, m: Mapping) {
    forall i :: 0 <= i < |m| ==> r.a <= m[i].0 <= r.x && r.b <= m[i].1 <= r.y
  }

  predicate PairPreserved(w1: Walk, w2: Walk, p: (int, int), q: (int, int)) {
    && p.0 < q.0 && p.1 < q.1
    && (Above(w1, q.0, p.0) <==> Above(w2, q.1, p.1))
  }

  /** One-to-one, order preserving and ancestor preserving. */
  ghost predicate Preserves(w1: Walk, w2: Walk, m: Mapping) {
    forall i, j :: 0 <= i < j < |m| ==> PairPreserved(w1, w2, m[i], m[j])
  }

  ghost predicate IsMapping(r: Ranges, m: Mapping) {
    r.Valid() && Inside(r, m) && Preserves(r.w1, r.w2, m)
  }

  function PairCost(r: Ranges, p: (int, int)): real {
    if 1 <= p.0 <= |r.w1.nodes| && 1 <= p.1 <= |r.w2.nodes|
    then Rename(NodeAt(r.w1.nodes, p.0), NodeAt(r.w2.nodes, p.1))
    else 0.0
  }

  function Renames(r: Ranges, m: Mapping): real {
    if m == [] then 0.0 else Renames(r, Init(m)) + PairCost(r, Last(m))
  }

  /** Renames of matched nodes plus one for every node left unmatched. */
  function Cost(r: Ranges, m: Mapping): real {
    Renames(r, m) + (r.Span() - 2 * |m|) as real
  }

  lemma {:induction false} RenamesConcat(r: Ranges, m: Mapping, n: Mapping)
    ensures Renames(r, m + n) == Renames(r, m) + Renames(r, n)
    decreases |n|
  {
    if n == [] {
      assert m + n == m;
    } else {
      RenamesConcat(r, m, Init(n));
      assert Init(m + n) == m + Init(n);
    }
  }

  lemma {:induction false} RenamesAgree(r: Ranges, s: Ranges, m: Mapping)
    requires r.w1 == s.w1 && r.w2 == s.w2
    ensures Renames(r, m) == Renames(s, m)
    decreases |m|
  {
    if m != [] {
      RenamesAgree(r, s, Init(m));
    }
  }

  // ----- the ranges a match of the two last nodes leaves -----

  function Before(r: Ranges): Ranges
    requires r.Valid() && r.a <= r.x && r.b <= r.y
  {
    r.(x := IndexAt(r.w1.first, r.x) - 1, y := IndexAt(r.w2.first, r.y) - 1)
  }

  function Below(r: Ranges): Ranges
    requires r.Valid() && r.a <= r.x && r.b <= r.y
  {
    r.(a := IndexAt(r.w1.first, r.x), x := r.x - 1, b := IndexAt(r.w2.first, r.y), y := r.y - 1)
  }

  lemma ClosedParts(w: Walk, a: int, x: int)
    requires Closed(w, a, x) && a <= x
    ensures Closed(w, a, x - 1) && Closed(w, a, IndexAt(w.first, x) - 1) && Closed(w, IndexAt(w.first, x), x - 1)
    ensures Slice(w, a, x) != [] && Last(Slice(w, a, x)) == NodeAt(w.nodes, x)
    ensures Deleted(Slice(w, a, x)) == Slice(w, a, x - 1)
    ensures Init(Slice(w, a, x)) == Slice(w, a, IndexAt(w.first, x) - 1)
    ensures NodeAt(w.nodes, x).children == Slice(w, IndexAt(w.first, x), x - 1)
  {
    assert SoundAt(w, x);
    SliceDeleted(w, a, x);
    SliceOfTree(w, x);
  }

  lemma SpanSplits(r: Ranges)
    requires r.Valid() && r.a <= r.x && r.b <= r.y
    ensures Before(r).Valid() && Below(r).Valid()
    ensures r.Span() == Before(r).Span() + Below(r).Span() + 2
    ensures Paired(r.Left(), r.Right()) ==
            Dist(Before(r).Left(), Before(r).Right()) + Dist(Below(r).Left(), Below(r).Right()) + PairCost(r, (r.x, r.y))
  {
    hide Dist, Slice, Rename, Sound;
    ClosedParts(r.w1, r.a, r.x);
    ClosedParts(r.w2, r.b, r.y);
  }

  // ----- no mapping is cheaper -----

  lemma {:induction false} SplitPoint(m: Mapping, s: int) returns (j: nat)
    requires forall i, k :: 0 <= i < k < |m| ==> m[i].0 < m[k].0
    ensures j <= |m|
    ensures forall i :: 0 <= i < j ==> m[i].0 < s
    ensures forall i :: j <= i < |m| ==> s <= m[i].0
    decreases |m|
  {
    if m == [] || Last(m).0 < s {
      j := |m|;
    } else {
      j := SplitPoint(Init(m), s);
    }
  }

  /** Removing the match of the two last nodes leaves one mapping beside them and
      one below them. */
  lemma MappingSplits(r: Ranges, m: Mapping) returns (before: Mapping, below: Mapping)
    requires IsMapping(r, m) && m != [] && Last(m) == (r.x, r.y)
    ensures r.a <= r.x && r.b <= r.y
    ensures Init(m) == before + below
    ensures IsMapping(Before(r), before) && IsMapping(Below(r), below)
  {
    hide Slice, SoundAt;
    var i := Init(m);
    SpanSplits(r);
    forall p, q | 0 <= p < q < |i| ensures i[p].0 < i[q].0 {
      assert PairPreserved(r.w1, r.w2, m[p], m[q]);
    }
    var j := SplitPoint(i, IndexAt(r.w1.first, r.x));
    before, below := i[..j], i[j..];
    forall k | 0 <= k < |i|
      ensures r.a <= i[k].0 < r.x && r.b <= i[k].1 < r.y
      ensures IndexAt(r.w1.first, r.x) <= i[k].0 <==> IndexAt(r.w2.first, r.y) <= i[k].1
    {
      assert PairPreserved(r.w1, r.w2, m[k], m[|m| - 1]);
    }
    assert Inside(Before(r), before) && Inside(Below(r), below);
    forall p, q | 0 <= p < q < |before| ensures PairPreserved(r.w1, r.w2, before[p], before[q]) {
      assert PairPreserved(r.w1, r.w2, m[p], m[q]);
    }
    forall p, q | 0 <= p < q < |below| ensures PairPreserved(r.w1, r.w2, below[p], below[q]) {
      assert PairPreserved(r.w1, r.w2, m[j + p], m[j + q]);
    }
  }

  lemma NarrowLeft(r: Ranges, m: Mapping)
    requires IsMapping(r, m) && r.a <= r.x && (m == [] || Last(m).0 < r.x)
    ensures IsMapping(r.(x := r.x - 1), m)
    ensures Cost(r, m) == Cost(r.(x := r.x - 1), m) + 1.0
  {
    hide Slice, SoundAt;
    ClosedParts(r.w1, r.a, r.x);
    RenamesAgree(r, r.(x := r.x - 1), m);
    forall i | 0 <= i < |m| ensures m[i].0 < r.x {
      assert i < |m| - 1 ==> PairPreserved(r.w1, r.w2, m[i], m[|m| - 1]);
    }
  }

  lemma NarrowRight(r: Ranges, m: Mapping)
    requires IsMapping(r, m) && r.b <= r.y && (m == [] || Last(m).1 < r.y)
    ensures IsMapping(r.(y := r.y - 1), m)
    ensures Cost(r, m) == Cost(r.(y := r.y - 1), m) + 1.0
  {
    hide Slice, SoundAt;
    ClosedParts(r.w2, r.b, r.y);
    RenamesAgree(r, r.(y := r.y - 1), m);
    forall i | 0 <= i < |m| ensures m[i].1 < r.y {
      assert i < |m| - 1 ==> PairPreserved(r.w1, r.w2, m[i], m[|m| - 1]);
    }
  }

  lemma LastPairCost(r: Ranges, m: Mapping, before: Mapping, below: Mapping)
    requires r.Valid() && r.a <= r.x && r.b <= r.y
    requires m == before + below + [(r.x, r.y)]
    ensures Cost(r, m) == Cost(Before(r), before) + Cost(Below(r), below) + PairCost(r, (r.x, r.y))
  {
    SpanSplits(r);
    assert Init(m) == before + below;
    RenamesConcat(r, before, below);
    RenamesAgree(r, Before(r), before);
    RenamesAgree(r, Below(r), below);
  }

  lemma {:induction false} NoMappingCheaper(r: Ranges, m: Mapping)
    requires IsMapping(r, m)
    ensures Dist(r.Left(), r.Right()) <= Cost(r, m)
    decreases r.Span()
  {
    hide Dist, Slice, Sound, Renames, Rename, Preserves;
    if r.a > r.x && r.b > r.y {
      EmptyRanges(r, m);
    } else if r.a <= r.x && (m == [] || Last(m).0 < r.x) {
      NarrowLeft(r, m);
      ClosedParts(r.w1, r.a, r.x);
      NoMappingCheaper(r.(x := r.x - 1), m);
      DeleteStep(r.Left(), r.Right());
    } else if r.b <= r.y && (m == [] || Last(m).1 < r.y) {
      NarrowRight(r, m);
      ClosedParts(r.w2, r.b, r.y);
      NoMappingCheaper(r.(y := r.y - 1), m);
      InsertStep(r.Left(), r.Right());
    } else {
      LastIsLast(r, m);
      var before, below := MappingSplits(r, m);
      assert m == Init(m) + [Last(m)];
      LastPairCost(r, m, before, below);
      SpanSplits(r);
      SpansNonNegative(Before(r));
      SpansNonNegative(Below(r));
      NoMappingCheaper(Before(r), before);
      NoMappingCheaper(Below(r), below);
      ClosedParts(r.w1, r.a, r.x);
      ClosedParts(r.w2, r.b, r.y);
      DistStep(r.Left(), r.Right());
    }
  }

  lemma LastIsLast(r: Ranges, m: Mapping)
    requires IsMapping(r, m) && (r.a <= r.x || r.b <= r.y)
    requires r.a <= r.x ==> m != [] && Last(m).0 >= r.x
    requires r.b <= r.y ==> m != [] && Last(m).1 >= r.y
    ensures m != [] && Last(m) == (r.x, r.y) && r.a <= r.x && r.b <= r.y
  {
    assert m != [] && r.a <= m[|m| - 1].0 <= r.x && r.b <= m[|m| - 1].1 <= r.y;
  }

  lemma EmptyRanges(r: Ranges, m: Mapping)
    requires IsMapping(r, m) && r.a > r.x && r.b > r.y
    ensures m == [] && Cost(r, m) == 0.0 && Dist(r.Left(), r.Right()) == 0.0
  {
    InsideIsNonempty(r, m);
  }

  lemma InsideIsNonempty(r: Ranges, m: Mapping)
    requires Inside(r, m)
    ensures m != [] ==> r.a <= r.x && r.b <= r.y
  {
    if m != [] {
      assert r.a <= m[0].0 <= r.x;
    }
  }

  lemma SpansNonNegative(r: Ranges)
    requires r.Valid()
    ensures r.Span() >= 0
  {
  }

  // ----- and one mapping attains the distance -----

  lemma WidenLeft(r: Ranges, m: Mapping)
    requires r.Valid() && r.a <= r.x && IsMapping(r.(x := r.x - 1), m)
    ensures IsMapping(r, m) && Cost(r, m) == Cost(r.(x := r.x - 1), m) + 1.0
  {
    hide Slice, SoundAt;
    RenamesAgree(r, r.(x := r.x - 1), m);
  }

  lemma WidenRight(r: Ranges, m: Mapping)
    requires r.Valid() && r.b <= r.y && IsMapping(r.(y := r.y - 1), m)
    ensures IsMapping(r, m) && Cost(r, m) == Cost(r.(y := r.y - 1), m) + 1.0
  {
    hide Slice, SoundAt;
    RenamesAgree(r, r.(y := r.y - 1), m);
  }

  lemma MappingJoins(r: Ranges, before: Mapping, below: Mapping)
    requires r.Valid() && r.a <= r.x && r.b <= r.y
    requires IsMapping(Before(r), before) && IsMapping(Below(r), below)
    ensures IsMapping(r, before + below + [(r.x, r.y)])
  {
    hide Slice, SoundAt;
    var m := before + below + [(r.x, r.y)];
    var j, n := |before|, |m| - 1;
    forall i | 0 <= i < |m| ensures r.a <= m[i].0 <= r.x && r.b <= m[i].1 <= r.y {
      if j <= i < n {
        assert m[i] == below[i - j];
      }
    }
    forall p, q | 0 <= p < q < |m| ensures PairPreserved(r.w1, r.w2, m[p], m[q]) {
      if q < j {
        assert PairPreserved(r.w1, r.w2, before[p], before[q]);
      } else if q < n {
        assert m[q] == below[q - j];
        BelowIndex(r, m[q]);
        if p >= j {
          assert m[p] == below[p - j];
          assert PairPreserved(r.w1, r.w2, below[p - j], below[q - j]);
        }
      } else if p >= j {
        assert m[p] == below[p - j];
      }
    }
  }

  lemma BelowIndex(r: Ranges, p: (int, int))
    requires r.Valid() && r.a <= r.x && r.b <= r.y
    requires Below(r).a <= p.0 <= Below(r).x && Below(r).b <= p.1 <= Below(r).y
    ensures IndexAt(r.w1.first, r.x) <= IndexAt(r.w1.first, p.0)
    ensures IndexAt(r.w2.first, r.y) <= IndexAt(r.w2.first, p.1)
  {
    assert SoundAt(r.w1, r.x) && SoundAt(r.w2, r.y);
  }

  lemma {:induction false} CheapestMapping(r: Ranges) returns (m: Mapping)
    requires r.Valid()
    ensures IsMapping(r, m) && Cost(r, m) == Dist(r.Left(), r.Right())
    decreases r.Span()
  {
    hide Dist, Slice, Sound, Renames, Rename, Preserves;
    if r.a > r.x && r.b > r.y {
      m := [];
      EmptyIsMapping(r);
      EmptyRanges(r, m);
      return;
    }
    if r.a <= r.x {
      ClosedParts(r.w1, r.a, r.x);
    }
    if r.b <= r.y {
      ClosedParts(r.w2, r.b, r.y);
    }
    Choices(r);
    if r.a <= r.x && Dist(r.Left(), r.Right()) == Dist(Deleted(r.Left()), r.Right()) + 1.0 {
      m := CheapestMapping(r.(x := r.x - 1));
      WidenLeft(r, m);
    } else if r.b <= r.y && Dist(r.Left(), r.Right()) == Dist(r.Left(), Deleted(r.Right())) + 1.0 {
      m := CheapestMapping(r.(y := r.y - 1));
      WidenRight(r, m);
    } else {
      SpanSplits(r);
      SpansNonNegative(Before(r));
      SpansNonNegative(Below(r));
      var before := CheapestMapping(Before(r));
      var below := CheapestMapping(Below(r));
      m := before + below + [(r.x, r.y)];
      MappingJoins(r, before, below);
      LastPairCost(r, m, before, below);
    }
  }

  lemma EmptyIsMapping(r: Ranges)
    requires r.Valid()
    ensures IsMapping(r, [])
  {
  }

  lemma Choices(r: Ranges)
    requires r.Valid() && (r.a <= r.x || r.b <= r.y)
    ensures r.a <= r.x ==> r.Left() != []
    ensures r.b <= r.y ==> r.Right() != []
    ensures || (r.a <= r.x && Dist(r.Left(), r.Right()) == Dist(Deleted(r.Left()), r.Right()) + 1.0)
            || (r.b <= r.y && Dist(r.Left(), r.Right()) == Dist(r.Left(), Deleted(r.Right())) + 1.0)
            || (r.a <= r.x && r.b <= r.y && Dist(r.Left(), r.Right()) == Paired(r.Left(), r.Right()))
  {
    hide Dist, Paired, SoundAt, Size;
    assert r.a <= r.x ==> Slice(r.w1, r.a, r.x) != [];
    assert r.b <= r.y ==> Slice(r.w2, r.b, r.y) != [];
    hide Slice;
    if r.a > r.x {
      DistEmpty(r.Left(), r.Right());
      DistEmpty(r.Left(), Deleted(r.Right()));
    } else if r.b > r.y {
      DistEmpty(r.Right(), r.Left());
      DistEmpty(r.Right(), Deleted(r.Left()));
    } else {
      DistStep(r.Left(), r.Right());
    }
  }

  /** All node numbers of two trees. */
  function Whole(t: Tree, u: Tree): Ranges {
    Ranges(TrueWalk(t), 1, Size([t]), TrueWalk(u), 1, Size([u]))
  }

  /** The edit distance of two trees is the least cost of an order- and
      ancestor-preserving matching of their nodes. */
  lemma DistIsCheapestMapping(t: Tree, u: Tree)
    ensures exists m :: IsMapping(Whole(t, u), m) && Cost(Whole(t, u), m) == Dist([t], [u])
    ensures forall m :: IsMapping(Whole(t, u), m) ==> Dist([t], [u]) <= Cost(Whole(t, u), m)
  {
    var r := Whole(t, u);
    TrueWalkSound(t);
    TrueWalkSound(u);
    SizeOfTree(t);
    SizeOfTree(u);
    assert r.Valid();
    hide Dist, Nodes, Leftmost, Renames, Size;
    var best := CheapestMapping(r);
    forall m | IsMapping(r, m) ensures Dist([t], [u]) <= Cost(r, m) {
      NoMappingCheaper(r, m);
    }
  }
}
