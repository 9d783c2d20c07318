/** Character edit distance of two cell texts: the two-row table, the recursion
    it refines, and the laws that make the recursion a distance. */
module Levenshtein {
  import opened Sequences

  function Min(x: int, y: int): int {
    if x <= y then x else y
  }

  function Min3(x: int, y: int, z: int): int {
    Min(Min(x, y), z)
  }

  function Differ(c: char, d: char): nat {
    if c == d then 0 else 1
  }

  /** One table cell: delete, insert, or keep/replace the pair of last characters. */
  function Cell(deleted: nat, inserted: nat, paired: nat, c: char, d: char): nat {
    Min3(deleted + 1, inserted + 1, paired + Differ(c, d))
  }

  /** The edit distance, peeling the last character of either text. */
  function Lev(a: string, b: string): nat
    decreases |a| + |b|
  {
    if a == [] then |b|
    else if b == [] then |a|
    else Cell(Lev(Init(a), b), Lev(a, Init(b)), Lev(Init(a), Init(b)), Last(a), Last(b))
  }

  // ----- laws -----

  lemma Step(a: string, b: string)
    requires a != [] && b != []
    ensures Lev(a, b) == Cell(Lev(Init(a), b), Lev(a, Init(b)), Lev(Init(a), Init(b)), Last(a), Last(b))
  {
  }

  lemma {:induction false} Symmetric(a: string, b: string)
    ensures Lev(a, b) == Lev(b, a)
    decreases |a| + |b|
  {
    if a != [] && b != [] {
      Symmetric(Init(a), b);
      Symmetric(a, Init(b));
      Symmetric(Init(a), Init(b));
    }
  }

  lemma {:induction false} LengthBounds(a: string, b: string)
    ensures |a| - |b| <= Lev(a, b)
    ensures |b| - |a| <= Lev(a, b)
    ensures Lev(a, b) <= |a| || Lev(a, b) <= |b|
    decreases |a| + |b|
  {
    if a != [] && b != [] {
      LengthBounds(Init(a), b);
      LengthBounds(a, Init(b));
      LengthBounds(Init(a), Init(b));
    }
  }

  lemma {:induction false} ZeroIffEqual(a: string, b: string)
    ensures Lev(a, b) == 0 <==> a == b
    decreases |a| + |b|
  {
    if a != [] && b != [] {
      ZeroIffEqual(Init(a), Init(b));
      assert a == Init(a) + [Last(a)];
      assert b == Init(b) + [Last(b)];
    }
  }

  /** The triangle inequality, by cases on the last edit of each half. */
  lemma {:induction false} Triangle(a: string, b: string, c: string)
    ensures Lev(a, c) <= Lev(a, b) + Lev(b, c)
    decreases |a| + |b| + |c|
  {
    hide Lev;
    LengthBounds(a, b);
    LengthBounds(b, c);
    if a == [] || b == [] || c == [] {
      LengthBounds(a, c);
    } else {
      Step(a, b);
      Step(b, c);
      Step(a, c);
      Triangle(Init(a), b, c);
      Triangle(a, b, Init(c));
      Triangle(a, Init(b), c);
      Triangle(a, Init(b), Init(c));
      Triangle(Init(a), Init(b), c);
      Triangle(Init(a), Init(b), Init(c));
    }
  }

  // ----- the independent meaning: shortest chain of single-character edits -----

  ghost predicate Inserts(s: string, t: string) {
    exists k :: 0 <= k < |t| && s == t[..k] + t[k + 1..]
  }

  ghost predicate Substitutes(s: string, t: string) {
    |s| == |t| && exists k :: 0 <= k < |t| && s == t[k := s[k]]
  }

  /** One insertion, deletion or substitution. */
  ghost predicate OneEdit(s: string, t: string) {
    Inserts(s, t) || Inserts(t, s) || Substitutes(s, t)
  }

  ghost predicate Chain(steps: seq<string>, a: string, b: string) {
    && steps != []
    && steps[0] == a
    && Last(steps) == b
    && forall i :: 0 <= i < |steps| - 1 ==> OneEdit(steps[i], steps[i + 1])
  }

  lemma {:induction false} CommonSuffix(s: string, t: string, tail: string)
    ensures Lev(s + tail, t + tail) <= Lev(s, t)
    decreases |tail|
  {
    if tail == [] {
      assert s + tail == s && t + tail == t;
    } else {
      CommonSuffix(s, t, Init(tail));
      assert Init(s + tail) == s + Init(tail);
      assert Init(t + tail) == t + Init(tail);
    }
  }

  lemma AppendCostsOne(s: string, c: char)
    ensures Lev(s, s + [c]) <= 1
  {
    ZeroIffEqual(s, s);
    assert Init(s + [c]) == s;
  }

  lemma InsertCostsOne(s: string, t: string)
    requires Inserts(s, t)
    ensures Lev(s, t) <= 1
  {
    hide Lev;
    var k :| 0 <= k < |t| && s == t[..k] + t[k + 1..];
    var head, grown := t[..k], t[..k + 1];
    assert grown == head + [t[k]];
    AppendCostsOne(head, t[k]);
    CommonSuffix(head, grown, t[k + 1..]);
    assert grown + t[k + 1..] == t;
  }

  lemma OneEditCostsOne(s: string, t: string)
    requires OneEdit(s, t)
    ensures Lev(s, t) <= 1
  {
    hide Lev;
    if Inserts(s, t) {
      InsertCostsOne(s, t);
    } else if Inserts(t, s) {
      InsertCostsOne(t, s);
      Symmetric(s, t);
    } else {
      var k :| 0 <= k < |t| && s == t[k := s[k]];
      var left, right := s[..k + 1], t[..k + 1];
      assert Init(left) == Init(right);
      Step(left, right);
      ZeroIffEqual(Init(left), Init(right));
      assert Lev(left, right) <= 1;
      CommonSuffix(left, right, t[k + 1..]);
      assert left + t[k + 1..] == s && right + t[k + 1..] == t;
    }
  }

  /** No chain of single edits is shorter than the distance. */
  lemma {:induction false} ChainIsNoShorter(steps: seq<string>, a: string, b: string)
    requires Chain(steps, a, b)
    ensures Lev(a, b) <= |steps| - 1
    decreases |steps|
  {
    if |steps| == 1 {
      ZeroIffEqual(a, b);
    } else {
      var mid := steps[|steps| - 2];
      ChainIsNoShorter(Init(steps), a, mid);
      OneEditCostsOne(mid, b);
      Triangle(a, mid, b);
    }
  }

  function AppendAll(steps: seq<string>, c: char): (r: seq<string>)
    ensures |r| == |steps|
    ensures forall i :: 0 <= i < |steps| ==> r[i] == steps[i] + [c]
  {
    seq(|steps|, i requires 0 <= i < |steps| => steps[i] + [c])
  }

  lemma OneEditExtends(s: string, t: string, c: char)
    requires OneEdit(s, t)
    ensures OneEdit(s + [c], t + [c])
  {
    if Inserts(s, t) {
      var k :| 0 <= k < |t| && s == t[..k] + t[k + 1..];
      assert s + [c] == (t + [c])[..k] + (t + [c])[k + 1..];
    } else if Inserts(t, s) {
      var k :| 0 <= k < |s| && t == s[..k] + s[k + 1..];
      assert t + [c] == (s + [c])[..k] + (s + [c])[k + 1..];
    } else {
      var k :| 0 <= k < |t| && s == t[k := s[k]];
      assert s + [c] == (t + [c])[k := (s + [c])[k]];
    }
  }

  lemma ChainExtends(steps: seq<string>, a: string, b: string, c: char)
    requires Chain(steps, a, b)
    ensures Chain(AppendAll(steps, c), a + [c], b + [c])
  {
    var r := AppendAll(steps, c);
    forall i | 0 <= i < |r| - 1 ensures OneEdit(r[i], r[i + 1]) {
      OneEditExtends(steps[i], steps[i + 1], c);
    }
  }

  lemma DropLastIsOneEdit(s: string)
    requires s != []
    ensures OneEdit(s, Init(s)) && OneEdit(Init(s), s)
  {
    var k := |s| - 1;
    assert Init(s) == s[..k] + s[k + 1..];
    assert Inserts(Init(s), s);
  }

  lemma ChainOfOne(a: string)
    ensures Chain([a], a, a)
  {
  }

  lemma ChainFrom(rest: seq<string>, a: string, b: string) returns (steps: seq<string>)
    requires a != [] && Chain(rest, Init(a), b)
    ensures Chain(steps, a, b) && |steps| == |rest| + 1
  {
    hide OneEdit;
    DropLastIsOneEdit(a);
    steps := [a] + rest;
    assert forall i :: 1 <= i < |steps| ==> steps[i] == rest[i - 1];
  }

  lemma ChainTo(rest: seq<string>, a: string, b: string) returns (steps: seq<string>)
    requires b != [] && Chain(rest, a, Init(b))
    ensures Chain(steps, a, b) && |steps| == |rest| + 1
  {
    hide OneEdit;
    DropLastIsOneEdit(b);
    steps := rest + [b];
  }

  /** A chain between the shortened texts, carried over to the whole ones. */
  lemma ChainOfPair(rest: seq<string>, a: string, b: string) returns (steps: seq<string>)
    requires a != [] && b != [] && Chain(rest, Init(a), Init(b))
    ensures Chain(steps, a, b) && |steps| == |rest| + Differ(Last(a), Last(b))
  {
    ChainExtends(rest, Init(a), Init(b), Last(a));
    steps := AppendAll(rest, Last(a));
    assert a == Init(a) + [Last(a)] && b == Init(b) + [Last(b)];
    if Last(a) != Last(b) {
      var k := |b| - 1;
      var mid := Init(b) + [Last(a)];
      assert mid == b[k := mid[k]];
      assert Substitutes(mid, b);
      steps := steps + [b];
    }
  }

  /** A chain as short as the distance always exists. */
  lemma {:induction false} ShortestChain(a: string, b: string) returns (steps: seq<string>)
    ensures Chain(steps, a, b)
    ensures |steps| - 1 == Lev(a, b)
    decreases |a| + |b|
  {
    hide OneEdit, Chain;
    if a == [] && b == [] {
      steps := [a];
      ChainOfOne(a);
    } else if b == [] || (a != [] && Lev(a, b) == Lev(Init(a), b) + 1) {
      var rest := ShortestChain(Init(a), b);
      steps := ChainFrom(rest, a, b);
    } else if a == [] || Lev(a, b) == Lev(a, Init(b)) + 1 {
      var rest := ShortestChain(a, Init(b));
      steps := ChainTo(rest, a, b);
    } else {
      var rest := ShortestChain(Init(a), Init(b));
      steps := ChainOfPair(rest, a, b);
    }
  }

  /** The distance is the length of a shortest chain of single-character edits. */
  lemma LevIsShortestChain(a: string, b: string)
    ensures exists steps :: Chain(steps, a, b) && |steps| - 1 == Lev(a, b)
    ensures forall steps :: Chain(steps, a, b) ==> Lev(a, b) <= |steps| - 1
  {
    var best := ShortestChain(a, b);
    forall steps | Chain(steps, a, b) ensures Lev(a, b) <= |steps| - 1 {
      ChainIsNoShorter(steps, a, b);
    }
  }

  // ----- the two-row table -----

  lemma PrefixStep(a: string, b: string, i: nat, j: nat)
    requires 1 <= i <= |a| && 1 <= j <= |b|
    ensures Lev(a[..i], b[..j]) ==
            Cell(Lev(a[..i - 1], b[..j]), Lev(a[..i], b[..j - 1]), Lev(a[..i - 1], b[..j - 1]),
                 a[i - 1], b[j - 1])
  {
    hide Lev;
    Step(a[..i], b[..j]);
    assert Init(a[..i]) == a[..i - 1] && Init(b[..j]) == b[..j - 1];
  }

  lemma EmptyRow(a: string, b: string)
    requires a == []
    ensures Lev(a, b) == |b| && Lev(b, a) == |b|
  {
  }

  /** Row i of the table: distances from the first i characters of a to every prefix of b. */
  ghost predicate IsRow(row: seq<nat>, a: string, b: string, i: nat)
    requires i <= |a|
  {
    && |row| <= |b| + 1
    && forall j :: 0 <= j < |row| ==> row[j] == Lev(a[..i], b[..j])
  }

  lemma FirstRow(row: seq<nat>, a: string, b: string)
    requires |row| == |b| + 1 && forall j :: 0 <= j <= |b| ==> row[j] == j
    ensures IsRow(row, a, b, 0)
  {
    hide Lev;
    forall j | 0 <= j < |row| ensures row[j] == Lev(a[..0], b[..j]) {
      EmptyRow(a[..0], b[..j]);
    }
  }

  lemma RowGrows(prev: seq<nat>, cur: seq<nat>, a: string, b: string, i: nat)
    requires 1 <= i <= |a|
    requires IsRow(prev, a, b, i - 1) && |prev| == |b| + 1
    requires IsRow(cur, a, b, i) && 1 <= |cur| <= |b|
    ensures IsRow(cur + [Cell(prev[|cur|], cur[|cur| - 1], prev[|cur| - 1], a[i - 1], b[|cur| - 1])], a, b, i)
  {
    hide Lev;
    PrefixStep(a, b, i, |cur|);
  }

  /** The row loop: `prev` and `cur` are the only two rows ever held. */
  method EditDistance(a: string, b: string) returns (d: nat)
    ensures d == Lev(a, b)
  {
    hide Lev;
    if a == b {
      ZeroIffEqual(a, b);
      return 0;
    }
    if a == [] {
      EmptyRow(a, b);
      return |b|;
    }
    if b == [] {
      EmptyRow(b, a);
      return |a|;
    }
    var prev: seq<nat> := seq(|b| + 1, j => j);
    FirstRow(prev, a, b);
    for i := 1 to |a| + 1
      invariant |prev| == |b| + 1 && IsRow(prev, a, b, i - 1)
    {
      var cur: seq<nat> := [i];
      EmptyRow(b[..0], a[..i]);
      for j := 1 to |b| + 1
        invariant |cur| == j && IsRow(cur, a, b, i)
      {
        RowGrows(prev, cur, a, b, i);
        cur := cur + [Cell(prev[j], cur[j - 1], prev[j - 1], a[i - 1], b[j - 1])];
      }
      prev := cur;
    }
    assert a[..|a|] == a && b[..|b|] == b;
    d := prev[|b|];
  }

  // ----- the normalised cost -----

  lemma RatioBounds(x: nat, m: nat)
    requires x <= m && m > 0
    ensures 0.0 <= x as real / m as real <= 1.0
    ensures x as real / m as real == 0.0 <==> x == 0
    ensures x as real / m as real == 1.0 <==> x == m
  {
    var q := x as real / m as real;
    assert q * m as real == x as real;
  }

  /** Distance divided by the longer length: 0 exactly on equal texts, 1 exactly
      when no aligned pair of characters could be kept. */
  function NormLev(a: string, b: string): (r: real)
    ensures 0.0 <= r <= 1.0
    ensures r == 0.0 <==> a == b
    ensures r == 1.0 <==> a != b && Lev(a, b) >= |a| && Lev(a, b) >= |b|
  {
    hide Lev;
    LengthBounds(a, b);
    ZeroIffEqual(a, b);
    var m := if |a| >= |b| then |a| else |b|;
    if m == 0 then 0.0
    else
      RatioBounds(Lev(a, b), m);
      Lev(a, b) as real / m as real
  }

  lemma NormLevSymmetric(a: string, b: string)
    ensures NormLev(a, b) == NormLev(b, a)
  {
    Symmetric(a, b);
  }
}
