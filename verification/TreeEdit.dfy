/** Ordered labelled trees, the forest edit distance by recursion on the
    rightmost root, and its laws. */
module TreeEdit {
  import opened Sequences
  import Levenshtein

  /** The four tags a table tree is built from. */
  datatype Tag = Table | Row | Header | Data

  datatype Tree = Node(tag: Tag, text: string, children: seq<Tree>)

  type Forest = seq<Tree>

  function Min(x: real, y: real): real {
    if x <= y then x else y
  }

  function Cheapest(deleted: real, inserted: real, paired: real): real {
    Min(Min(deleted + 1.0, inserted + 1.0), paired)
  }

  function Size(f: Forest): nat {
    if f == [] then 0 else Size(Init(f)) + Size(Last(f).children) + 1
  }

  /** A cell against a cell of the same kind costs its normalised text distance;
      any other pair costs a whole edit unless the tags agree. */
  function Rename(a: Tree, b: Tree): (r: real)
    ensures 0.0 <= r <= 1.0
  {
    if a.tag != b.tag then 1.0
    else if a.tag in {Header, Data} then Levenshtein.NormLev(a.text, b.text)
    else 0.0
  }

  lemma RenameSymmetric(a: Tree, b: Tree)
    ensures Rename(a, b) == Rename(b, a)
  {
    Levenshtein.NormLevSymmetric(a.text, b.text);
  }

  lemma {:induction false} SizeConcat(f: Forest, g: Forest)
    ensures Size(f + g) == Size(f) + Size(g)
    decreases |g|
  {
    if g == [] {
      assert f + g == f;
    } else {
      SizeConcat(f, Init(g));
      assert Init(f + g) == f + Init(g);
    }
  }

  /** Deleting the rightmost root leaves its children in its place. */
  function Deleted(f: Forest): (r: Forest)
    requires f != []
    ensures Size(r) == Size(f) - 1
  {
    SizeConcat(Init(f), Last(f).children);
    Init(f) + Last(f).children
  }

  /** Edit distance of two ordered forests. */
  function Dist(f: Forest, g: Forest): real
    decreases Size(f) + Size(g)
  {
    if f == [] then Size(g) as real
    else if g == [] then Size(f) as real
    else Cheapest(Dist(Deleted(f), g), Dist(f, Deleted(g)), Paired(f, g))
  }

  /** Cost when the two rightmost roots are matched with each other. */
  function Paired(f: Forest, g: Forest): real
    requires f != [] && g != []
    decreases Size(f) + Size(g), 0
  {
    Dist(Init(f), Init(g)) + Dist(Last(f).children, Last(g).children) + Rename(Last(f), Last(g))
  }

  lemma DistStep(f: Forest, g: Forest)
    requires f != [] && g != []
    ensures Dist(f, g) == Cheapest(Dist(Deleted(f), g), Dist(f, Deleted(g)), Paired(f, g))
  {
  }

  lemma DistEmpty(f: Forest, g: Forest)
    requires f == []
    ensures Dist(f, g) == Size(g) as real && Dist(g, f) == Size(g) as real
  {
  }

  // ----- laws -----

  lemma {:induction false} DistSymmetric(f: Forest, g: Forest)
    ensures Dist(f, g) == Dist(g, f)
    decreases Size(f) + Size(g)
  {
    hide Dist;
    if f == [] {
      DistEmpty(f, g);
    } else if g == [] {
      DistEmpty(g, f);
    } else {
      DistStep(f, g);
      DistStep(g, f);
      DistSymmetric(Deleted(f), g);
      DistSymmetric(f, Deleted(g));
      DistSymmetric(Init(f), Init(g));
      DistSymmetric(Last(f).children, Last(g).children);
      RenameSymmetric(Last(f), Last(g));
    }
  }

  lemma {:induction false} DistBounds(f: Forest, g: Forest)
    ensures Size(f) as real - Size(g) as real <= Dist(f, g)
    ensures Size(g) as real - Size(f) as real <= Dist(f, g)
    ensures 0.0 <= Dist(f, g) <= Size(f) as real + Size(g) as real
    decreases Size(f) + Size(g)
  {
    hide Dist;
    if f == [] {
      DistEmpty(f, g);
    } else if g == [] {
      DistEmpty(g, f);
    } else {
      DistStep(f, g);
      DistBounds(Deleted(f), g);
      DistBounds(f, Deleted(g));
      DistBounds(Init(f), Init(g));
      DistBounds(Last(f).children, Last(g).children);
    }
  }

  /** Two trees whose roots rename for free never cost the two roots. */
  lemma RootsFree(t: Tree, u: Tree)
    requires Rename(t, u) == 0.0
    ensures Dist([t], [u]) <= (Size([t]) + Size([u]) - 2) as real
  {
    hide Dist;
    DistStep([t], [u]);
    DistEmpty([], []);
    DistBounds(t.children, u.children);
    assert Init([t]) == [] && Init([u]) == [];
  }

  /** Equal shapes with every pair of corresponding labels renaming for free. */
  predicate Alike(f: Forest, g: Forest)
    decreases Size(f)
  {
    if f == [] || g == [] then f == g
    else
      && Alike(Init(f), Init(g))
      && Alike(Last(f).children, Last(g).children)
      && Rename(Last(f), Last(g)) == 0.0
  }

  lemma {:induction false} ZeroIffAlike(f: Forest, g: Forest)
    ensures Dist(f, g) == 0.0 <==> Alike(f, g)
    decreases Size(f) + Size(g)
  {
    hide Dist;
    if f == [] {
      DistEmpty(f, g);
    } else if g == [] {
      DistEmpty(g, f);
    } else {
      DistStep(f, g);
      DistBounds(Deleted(f), g);
      DistBounds(f, Deleted(g));
      DistBounds(Init(f), Init(g));
      DistBounds(Last(f).children, Last(g).children);
      ZeroIffAlike(Init(f), Init(g));
      ZeroIffAlike(Last(f).children, Last(g).children);
    }
  }

  /** Editing two halves separately is one way of editing the whole. */
  lemma {:induction false} Subadditive(f: Forest, g: Forest, x: Forest, y: Forest)
    ensures Dist(f + x, g + y) <= Dist(f, g) + Dist(x, y)
    decreases Size(x) + Size(y)
  {
    hide Dist;
    if x == [] && y == [] {
      assert f + x == f && g + y == g;
      DistEmpty(x, y);
    } else if y == [] {
      assert g + y == g && f + x != [];
      DistEmpty(y, x);
      DistEmpty(y, Deleted(x));
      Subadditive(f, g, Deleted(x), y);
      DeleteStep(f + x, g);
      DeletedConcat(f, x);
    } else if x == [] {
      assert f + x == f && g + y != [];
      DistEmpty(x, y);
      DistEmpty(x, Deleted(y));
      Subadditive(f, g, x, Deleted(y));
      InsertStep(f, g + y);
      DeletedConcat(g, y);
    } else {
      assert f + x != [] && g + y != [];
      DistStep(x, y);
      DistStep(f + x, g + y);
      DeletedConcat(f, x);
      DeletedConcat(g, y);
      Subadditive(f, g, Deleted(x), y);
      Subadditive(f, g, x, Deleted(y));
      Subadditive(f, g, Init(x), Init(y));
    }
  }

  lemma DeletedConcat(f: Forest, x: Forest)
    requires x != []
    ensures f + x != []
    ensures Init(f + x) == f + Init(x) && Last(f + x) == Last(x)
    ensures Deleted(f + x) == f + Deleted(x)
  {
  }

  lemma DeleteStep(f: Forest, g: Forest)
    requires f != []
    ensures Dist(f, g) <= Dist(Deleted(f), g) + 1.0
  {
    hide Dist;
    if g == [] {
      DistEmpty(g, f);
      DistEmpty(g, Deleted(f));
    } else {
      DistStep(f, g);
    }
  }

  lemma InsertStep(f: Forest, g: Forest)
    requires g != []
    ensures Dist(f, g) <= Dist(f, Deleted(g)) + 1.0
  {
    hide Dist;
    if f == [] {
      DistEmpty(f, g);
      DistEmpty(f, Deleted(g));
    } else {
      DistStep(f, g);
    }
  }

  /** Two single trees: delete one root, insert the other, or match the roots. */
  lemma DistOfTrees(t: Tree, u: Tree)
    ensures Dist([t], [u]) == Cheapest(Dist(t.children, [u]), Dist([t], u.children),
                                       Dist(t.children, u.children) + Rename(t, u))
  {
    hide Dist;
    DistStep([t], [u]);
    DistEmpty([], []);
    assert Init([t]) == [] && Init([u]) == [];
    assert Deleted([t]) == t.children && Deleted([u]) == u.children;
  }

  lemma CheapestOfSandwiched(deleted: real, inserted: real, paired: real, whole: real)
    requires Cheapest(deleted, inserted, paired) <= whole <= paired
    ensures Cheapest(deleted, inserted, paired) == Cheapest(deleted, inserted, whole)
  {
  }

  lemma WholeTreesSandwiched(f: Forest, g: Forest)
    requires f != [] && g != []
    ensures Dist(f, g) <= Dist(Init(f), Init(g)) + Dist([Last(f)], [Last(g)]) <= Paired(f, g)
  {
    hide Dist, Size, Rename;
    var t, u := Last(f), Last(g);
    assert f == Init(f) + [t] && g == Init(g) + [u];
    Subadditive(Init(f), Init(g), [t], [u]);
    DistOfTrees(t, u);
  }

  /** The form a keyroot table uses: the rightmost roots matched through the
      already known distance of their two whole subtrees. */
  lemma DistByWholeTrees(f: Forest, g: Forest)
    requires f != [] && g != []
    ensures Dist(f, g) == Cheapest(Dist(Deleted(f), g), Dist(f, Deleted(g)),
                                   Dist(Init(f), Init(g)) + Dist([Last(f)], [Last(g)]))
  {
    hide *;
    DistStep(f, g);
    WholeTreesSandwiched(f, g);
    CheapestOfSandwiched(Dist(Deleted(f), g), Dist(f, Deleted(g)), Paired(f, g),
                         Dist(Init(f), Init(g)) + Dist([Last(f)], [Last(g)]));
  }
}
