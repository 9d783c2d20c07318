/** Tier-two answer matching: does some sentence state the key, unit by unit? */
module Judge {
  import opened Options

  /** A word, or a figure with all the notations it may be written in. */
  datatype Unit = Word(token: string) | Figure(forms: set<string>)

  /** The word relation is a parameter: nothing below depends on what it is. */
  type WordMatch = (string, string) -> bool

  predicate UnitMatch(words: WordMatch, expected: Unit, actual: Unit) {
    match (expected, actual)
    case (Figure(e), Figure(a)) => e * a != {}
    case (Word(e), Word(a)) => words(e, a)
    case _ => false
  }

  // ----- the ordered branch -----

  /** Strictly increasing positions at which the expected units are matched. */
  ghost predicate Embeds(words: WordMatch, expected: seq<Unit>, actual: seq<Unit>, at: seq<int>) {
    && |at| == |expected|
    && (forall i :: 0 <= i < |at| ==> 0 <= at[i] < |actual| && UnitMatch(words, expected[i], actual[at[i]]))
    && forall i, j :: 0 <= i < j < |at| ==> at[i] < at[j]
  }

  ghost predicate Embeddable(words: WordMatch, expected: seq<Unit>, actual: seq<Unit>) {
    exists at :: Embeds(words, expected, actual, at)
  }

  /** Positions used so far, and no embedding of the same units ends earlier. */
  ghost predicate Leftmost(words: WordMatch, expected: seq<Unit>, actual: seq<Unit>, n: nat, position: int, at: seq<int>)
    requires n <= |expected|
  {
    && Embeds(words, expected[..n], actual, at)
    && position == (if n == 0 then 0 else at[n - 1] + 1)
    && forall other :: Embeds(words, expected[..n], actual, other) && n > 0 ==> at[n - 1] <= other[n - 1]
  }

  /** The scan: each expected unit consumes the text up to its first match. */
  method OrderedMatch(words: WordMatch, expected: seq<Unit>, actual: seq<Unit>) returns (found: bool)
    ensures found <==> Embeddable(words, expected, actual)
  {
    var position := 0;
    ghost var at: seq<int> := [];
    for n := 0 to |expected|
      invariant 0 <= position <= |actual|
      invariant Leftmost(words, expected, actual, n, position, at)
    {
      ghost var from := position;
      var matched := false;
      while position < |actual| && !matched
        invariant from <= position <= |actual|
        invariant forall k :: from <= k < (if matched then position - 1 else position) ==>
                    !UnitMatch(words, expected[n], actual[k])
        invariant matched ==> from < position && UnitMatch(words, expected[n], actual[position - 1])
        decreases |actual| - position, !matched
      {
        matched := UnitMatch(words, expected[n], actual[position]);
        position := position + 1;
      }
      if !matched {
        NoRoomLeft(words, expected, actual, n, from, at);
        return false;
      }
      StaysLeftmost(words, expected, actual, n, from, position - 1, at);
      at := at + [position - 1];
    }
    assert expected[..|expected|] == expected;
    found := true;
  }

  /** Cutting an embedding of n + 1 units to its first n. */
  lemma EmbeddingPrefix(words: WordMatch, expected: seq<Unit>, actual: seq<Unit>, n: nat, at: seq<int>)
    requires n <= |expected| && Embeds(words, expected, actual, at)
    ensures Embeds(words, expected[..n], actual, at[..n])
  {
  }

  lemma NextIsLater(words: WordMatch, expected: seq<Unit>, actual: seq<Unit>, n: nat, from: int, at: seq<int>, other: seq<int>)
    requires n < |expected| && Leftmost(words, expected, actual, n, from, at)
    requires Embeds(words, expected[..n + 1], actual, other)
    ensures from <= other[n] < |actual| && UnitMatch(words, expected[n], actual[other[n]])
  {
    EmbeddingPrefix(words, expected[..n + 1], actual, n, other);
    assert expected[..n + 1][..n] == expected[..n];
    assert expected[..n + 1][n] == expected[n];
    if n > 0 {
      assert other[..n][n - 1] == other[n - 1];
    }
  }

  lemma NoRoomLeft(words: WordMatch, expected: seq<Unit>, actual: seq<Unit>, n: nat, from: int, at: seq<int>)
    requires n < |expected| && Leftmost(words, expected, actual, n, from, at)
    requires forall k :: from <= k < |actual| ==> !UnitMatch(words, expected[n], actual[k])
    ensures !Embeddable(words, expected, actual)
  {
    if other :| Embeds(words, expected, actual, other) {
      EmbeddingPrefix(words, expected, actual, n + 1, other);
      NextIsLater(words, expected, actual, n, from, at, other[..n + 1]);
    }
  }

  lemma StaysLeftmost(words: WordMatch, expected: seq<Unit>, actual: seq<Unit>, n: nat, from: int, hit: int, at: seq<int>)
    requires n < |expected| && Leftmost(words, expected, actual, n, from, at)
    requires 0 <= from <= hit < |actual| && UnitMatch(words, expected[n], actual[hit])
    requires forall k :: from <= k < hit ==> !UnitMatch(words, expected[n], actual[k])
    ensures Leftmost(words, expected, actual, n + 1, hit + 1, at + [hit])
  {
    var longer := at + [hit];
    forall i | 0 <= i < n + 1
      ensures UnitMatch(words, expected[..n + 1][i], actual[longer[i]]) && 0 <= longer[i] <= hit && (i < n ==> longer[i] < hit)
    {
      assert i < n ==> expected[..n][i] == expected[..n + 1][i];
    }
    forall other | Embeds(words, expected[..n + 1], actual, other) ensures hit <= other[n] {
      NextIsLater(words, expected, actual, n, from, at, other);
    }
  }

  // ----- the one-figure branch -----

  /** Distinct positions, in any order. */
  ghost predicate Assigns(words: WordMatch, expected: seq<Unit>, actual: seq<Unit>, at: seq<int>) {
    && |at| == |expected|
    && (forall i :: 0 <= i < |at| ==> 0 <= at[i] < |actual| && UnitMatch(words, expected[i], actual[at[i]]))
    && forall i, j :: 0 <= i < j < |at| ==> at[i] != at[j]
  }

  ghost predicate Assignable(words: WordMatch, expected: seq<Unit>, actual: seq<Unit>) {
    exists at :: Assigns(words, expected, actual, at)
  }

  /** `remaining` is the text with some positions taken out; `where` says which stay. */
  ghost predicate Remains(remaining: seq<Unit>, actual: seq<Unit>, stay: seq<int>, at: seq<int>) {
    && |stay| == |remaining|
    && (forall k :: 0 <= k < |stay| ==> 0 <= stay[k] < |actual| && actual[stay[k]] == remaining[k])
    && (forall k, l :: 0 <= k < l < |stay| ==> stay[k] < stay[l])
    && (forall k, i :: 0 <= k < |stay| && 0 <= i < |at| ==> stay[k] != at[i])
    && (forall p :: 0 <= p < |actual| ==> p in stay || p in at)
  }

  function Without<T>(s: seq<T>, i: nat): seq<T>
    requires i < |s|
  {
    s[..i] + s[i + 1..]
  }

  /** Index of the first unit that matches, or the length. */
  function FirstMatch(words: WordMatch, unit: Unit, remaining: seq<Unit>): (k: nat)
    ensures k <= |remaining|
    ensures k < |remaining| ==> UnitMatch(words, unit, remaining[k])
    ensures forall i :: 0 <= i < k ==> !UnitMatch(words, unit, remaining[i])
  {
    if remaining == [] || UnitMatch(words, unit, remaining[0]) then 0
    else 1 + FirstMatch(words, unit, remaining[1..])
  }

  /** Each expected unit in turn takes its first match out of what is left. */
  predicate TakesAll(words: WordMatch, expected: seq<Unit>, remaining: seq<Unit>) {
    expected == [] ||
    var k := FirstMatch(words, expected[0], remaining);
    k < |remaining| && TakesAll(words, expected[1..], Without(remaining, k))
  }

  lemma WithoutAt<T>(s: seq<T>, i: nat)
    requires i < |s|
    ensures |Without(s, i)| == |s| - 1
    ensures forall k :: 0 <= k < |s| - 1 ==> Without(s, i)[k] == s[if k < i then k else k + 1]
  {
  }

  lemma RemainsWithout(remaining: seq<Unit>, actual: seq<Unit>, stay: seq<int>, at: seq<int>, index: nat)
    requires Remains(remaining, actual, stay, at) && index < |remaining|
    ensures Remains(Without(remaining, index), actual, Without(stay, index), at + [stay[index]])
  {
    hide Without;
    WithoutAt(stay, index);
    WithoutAt(remaining, index);
    var fewer, more := Without(stay, index), at + [stay[index]];
    forall p | 0 <= p < |actual| ensures p in fewer || p in more {
      if p in stay {
        var k :| 0 <= k < |stay| && stay[k] == p;
        if k < index {
          assert fewer[k] == p;
        } else if k > index {
          assert fewer[k - 1] == p;
        } else {
          assert more[|at|] == p;
        }
      } else {
        var i :| 0 <= i < |at| && at[i] == p;
        assert more[i] == p;
      }
    }
    forall k, i | 0 <= k < |fewer| && 0 <= i < |more| ensures fewer[k] != more[i] {
    }
  }

  lemma UsedUp(words: WordMatch, unit: Unit, remaining: seq<Unit>, actual: seq<Unit>, stay: seq<int>, at: seq<int>)
    requires Remains(remaining, actual, stay, at)
    requires forall k :: 0 <= k < |remaining| ==> !UnitMatch(words, unit, remaining[k])
    ensures forall p :: 0 <= p < |actual| && UnitMatch(words, unit, actual[p]) ==> p in at
  {
    forall p | 0 <= p < |actual| && p in stay ensures !UnitMatch(words, unit, actual[p]) {
      var k :| 0 <= k < |stay| && stay[k] == p;
      assert !UnitMatch(words, unit, remaining[k]);
    }
  }

  /** The popping loop. Success means a one-to-one assignment exists; failure means the
      units before the failing one have used up all that match it. */
  method UnorderedMatch(words: WordMatch, expected: seq<Unit>, actual: seq<Unit>) returns (found: bool, ghost at: seq<int>)
    ensures found <==> TakesAll(words, expected, actual)
    ensures found ==> Assigns(words, expected, actual, at)
    ensures !found ==>
              && |at| < |expected| && Assigns(words, expected[..|at|], actual, at)
              && forall p :: 0 <= p < |actual| && UnitMatch(words, expected[|at|], actual[p]) ==> p in at
  {
    hide TakenSoFar, Assigns, TakesAll;
    var remaining := actual;
    ghost var stay := NothingTaken(actual);
    at := [];
    TakenNothing(words, expected, actual, stay);
    for n := 0 to |expected|
      invariant TakenSoFar(words, expected, actual, n, remaining, stay, at)
    {
      var index := 0;
      while index < |remaining| && !UnitMatch(words, expected[n], remaining[index])
        invariant index <= |remaining|
        invariant forall k :: 0 <= k < index ==> !UnitMatch(words, expected[n], remaining[k])
      {
        index := index + 1;
      }
      if index == |remaining| {
        NothingMatches(words, expected, actual, n, remaining, stay, at);
        return false, at;
      }
      TakenOneMore(words, expected, actual, n, remaining, stay, at, index);
      at := at + [stay[index]];
      remaining, stay := Without(remaining, index), Without(stay, index);
    }
    TakenToTheEnd(words, expected, actual, remaining, stay, at);
    found := true;
  }

  /** The first n units are assigned, and whether the loop succeeds is decided by the rest. */
  ghost predicate TakenSoFar(words: WordMatch, expected: seq<Unit>, actual: seq<Unit>, n: nat,
                             remaining: seq<Unit>, stay: seq<int>, at: seq<int>) {
    && n <= |expected| && Assigns(words, expected[..n], actual, at) && Remains(remaining, actual, stay, at)
    && TakesAll(words, expected, actual) == TakesAll(words, expected[n..], remaining)
  }

  lemma TakenNothing(words: WordMatch, expected: seq<Unit>, actual: seq<Unit>, stay: seq<int>)
    requires Remains(actual, actual, stay, [])
    ensures TakenSoFar(words, expected, actual, 0, actual, stay, [])
  {
    hide TakesAll, Remains;
    assert expected[0..] == expected && expected[..0] == [];
  }

  lemma TakenOneMore(words: WordMatch, expected: seq<Unit>, actual: seq<Unit>, n: nat,
                     remaining: seq<Unit>, stay: seq<int>, at: seq<int>, index: nat)
    requires TakenSoFar(words, expected, actual, n, remaining, stay, at) && n < |expected| && index < |remaining|
    requires UnitMatch(words, expected[n], remaining[index])
    requires forall k :: 0 <= k < index ==> !UnitMatch(words, expected[n], remaining[k])
    ensures |stay| == |remaining|
    ensures TakenSoFar(words, expected, actual, n + 1, Without(remaining, index), Without(stay, index), at + [stay[index]])
  {
    hide TakesAll, Remains, Assigns, UnitMatch, Without;
    TakesStep(words, expected, n, remaining);
    StayFacts(words, expected[n], remaining, actual, stay, at, index);
    AssignsOneMore(words, expected, actual, n, at, stay[index]);
    RemainsWithout(remaining, actual, stay, at, index);
  }

  lemma NothingMatches(words: WordMatch, expected: seq<Unit>, actual: seq<Unit>, n: nat,
                       remaining: seq<Unit>, stay: seq<int>, at: seq<int>)
    requires TakenSoFar(words, expected, actual, n, remaining, stay, at) && n < |expected|
    requires forall k :: 0 <= k < |remaining| ==> !UnitMatch(words, expected[n], remaining[k])
    ensures !TakesAll(words, expected, actual) && |at| == n && Assigns(words, expected[..n], actual, at)
    ensures forall p :: 0 <= p < |actual| && UnitMatch(words, expected[n], actual[p]) ==> p in at
  {
    hide TakesAll, Remains, UnitMatch;
    TakesStep(words, expected, n, remaining);
    UsedUp(words, expected[n], remaining, actual, stay, at);
  }

  lemma TakenToTheEnd(words: WordMatch, expected: seq<Unit>, actual: seq<Unit>,
                      remaining: seq<Unit>, stay: seq<int>, at: seq<int>)
    requires TakenSoFar(words, expected, actual, |expected|, remaining, stay, at)
    ensures TakesAll(words, expected, actual) && Assigns(words, expected, actual, at)
  {
    hide Remains;
    assert expected[..|expected|] == expected && expected[|expected|..] == [];
  }

  lemma TakesStep(words: WordMatch, expected: seq<Unit>, n: nat, remaining: seq<Unit>)
    requires n < |expected|
    ensures var k := FirstMatch(words, expected[n], remaining);
            TakesAll(words, expected[n..], remaining) <==>
              k < |remaining| && TakesAll(words, expected[n + 1..], Without(remaining, k))
  {
    assert expected[n..][0] == expected[n] && expected[n..][1..] == expected[n + 1..];
  }

  lemma AssignsOneMore(words: WordMatch, expected: seq<Unit>, actual: seq<Unit>, n: nat, at: seq<int>, p: int)
    requires n < |expected| && Assigns(words, expected[..n], actual, at)
    requires 0 <= p < |actual| && p !in at && UnitMatch(words, expected[n], actual[p])
    ensures Assigns(words, expected[..n + 1], actual, at + [p])
  {
    var more := at + [p];
    forall i | 0 <= i < n + 1 ensures UnitMatch(words, expected[..n + 1][i], actual[more[i]]) {
      assert i < n ==> expected[..n][i] == expected[..n + 1][i];
    }
    forall i, j | 0 <= i < j < |more| ensures more[i] != more[j] {
      assert more[i] == at[i] && at[i] in at;
    }
  }

  /** Two expected units that share a match agree on all of them. */
  ghost predicate MatchesInBlocks(words: WordMatch, expected: seq<Unit>, actual: seq<Unit>) {
    forall i, j, p, q ::
      && 0 <= i < |expected| && 0 <= j < |expected| && 0 <= p < |actual| && 0 <= q < |actual|
      && UnitMatch(words, expected[i], actual[p]) && UnitMatch(words, expected[j], actual[p])
      && UnitMatch(words, expected[i], actual[q])
      ==> UnitMatch(words, expected[j], actual[q])
  }

  /** Sound for every word relation; complete as well when matches fall into blocks. */
  method UnorderedDecides(words: WordMatch, expected: seq<Unit>, actual: seq<Unit>) returns (found: bool)
    ensures found <==> TakesAll(words, expected, actual)
    ensures found ==> Assignable(words, expected, actual)
    ensures MatchesInBlocks(words, expected, actual) ==> (found <==> Assignable(words, expected, actual))
  {
    ghost var at;
    found, at := UnorderedMatch(words, expected, actual);
    if !found && MatchesInBlocks(words, expected, actual) {
      forall other ensures !Assigns(words, expected, actual, other) {
        BlockIsFull(words, expected, actual, at, other);
      }
    }
  }

  /** Every place that matches unit |at| has been taken. */
  ghost predicate Exhausted(words: WordMatch, expected: seq<Unit>, actual: seq<Unit>, at: seq<int>)
    requires |at| < |expected|
  {
    forall p :: 0 <= p < |actual| && UnitMatch(words, expected[|at|], actual[p]) ==> p in at
  }

  /** Index k took a place that unit |at| matches too. */
  ghost predicate TookOne(words: WordMatch, expected: seq<Unit>, actual: seq<Unit>, at: seq<int>, k: int)
    requires |at| < |expected|
  {
    0 <= k < |at| && 0 <= at[k] < |actual| && UnitMatch(words, expected[|at|], actual[at[k]])
  }

  /** If unit n finds all its matches taken, then by blocks everything that took one
      matches the same places, and n + 1 units cannot share them. */
  lemma BlockIsFull(words: WordMatch, expected: seq<Unit>, actual: seq<Unit>, at: seq<int>, other: seq<int>)
    requires MatchesInBlocks(words, expected, actual)
    requires |at| < |expected| && Assigns(words, expected[..|at|], actual, at)
    requires Exhausted(words, expected, actual, at)
    ensures !Assigns(words, expected, actual, other)
  {
    hide *;
    if Assigns(words, expected, actual, other) {
      AssignsFacts(words, expected, actual, other);
      var n := |at|;
      var block := set i | 0 <= i < n && TookOne(words, expected, actual, at, i);
      forall i | i in block + {n} ensures Hits(block, at, other[i]) {
        BlockTakesMatches(words, expected, actual, at, other, i, block);
      }
      Pigeonhole(block + {n}, block, other, at);
      assert false;
    }
  }

  lemma AssignsFacts(words: WordMatch, expected: seq<Unit>, actual: seq<Unit>, at: seq<int>)
    requires Assigns(words, expected, actual, at)
    ensures Distinct(at) && |at| == |expected|
  {
  }

  lemma BlockTakesMatches(words: WordMatch, expected: seq<Unit>, actual: seq<Unit>, at: seq<int>, other: seq<int>, i: int, block: set<int>)
    requires MatchesInBlocks(words, expected, actual)
    requires |at| < |expected| && Assigns(words, expected[..|at|], actual, at)
    requires Exhausted(words, expected, actual, at)
    requires Assigns(words, expected, actual, other)
    requires 0 <= i <= |at| && (i < |at| ==> TookOne(words, expected, actual, at, i))
    requires forall k :: 0 <= k < |at| && TookOne(words, expected, actual, at, k) ==> k in block
    ensures Hits(block, at, other[i])
  {
    hide UnitMatch, MatchesInBlocks;
    var n := |at|;
    if i < n {
      assert expected[..n][i] == expected[i];
      SameBlock(words, expected, actual, i, n, at[i], other[i]);
    }
    assert UnitMatch(words, expected[n], actual[other[i]]);
    var k :| 0 <= k < n && at[k] == other[i];
    assert TookOne(words, expected, actual, at, k);
  }

  lemma SameBlock(words: WordMatch, expected: seq<Unit>, actual: seq<Unit>, i: int, j: int, p: int, q: int)
    requires MatchesInBlocks(words, expected, actual)
    requires 0 <= i < |expected| && 0 <= j < |expected| && 0 <= p < |actual| && 0 <= q < |actual|
    requires UnitMatch(words, expected[i], actual[p]) && UnitMatch(words, expected[j], actual[p])
    requires UnitMatch(words, expected[i], actual[q])
    ensures UnitMatch(words, expected[j], actual[q])
  {
  }

  ghost predicate Hits(t: set<int>, g: seq<int>, v: int) {
    exists k :: k in t && 0 <= k < |g| && g[k] == v
  }

  predicate Distinct(f: seq<int>) {
    forall i, j :: 0 <= i < j < |f| ==> f[i] != f[j]
  }

  lemma StillHits(t: set<int>, g: seq<int>, v: int, k: int)
    requires Hits(t, g, v) && 0 <= k < |g| && g[k] != v
    ensures Hits(t - {k}, g, v)
  {
    var l :| l in t && 0 <= l < |g| && g[l] == v;
    assert l in t - {k};
  }

  /** An injective list cannot send a larger set into the image of a smaller one. */
  lemma {:induction false} Pigeonhole(s: set<int>, t: set<int>, f: seq<int>, g: seq<int>)
    requires forall i :: i in s ==> 0 <= i < |f| && Hits(t, g, f[i])
    requires Distinct(f)
    ensures |s| <= |t|
    decreases |s|
  {
    hide Distinct, Hits;
    if s != {} {
      var i := Pick(s);
      var k := Witness(t, g, f[i]);
      forall j | j in s - {i} ensures Hits(t - {k}, g, f[j]) {
        Apart(f, i, j);
        StillHits(t, g, f[j], k);
      }
      Pigeonhole(s - {i}, t - {k}, f, g);
    }
  }

  lemma Witness(t: set<int>, g: seq<int>, v: int) returns (k: int)
    requires Hits(t, g, v)
    ensures k in t && 0 <= k < |g| && g[k] == v
  {
    k :| k in t && 0 <= k < |g| && g[k] == v;
  }

  lemma Apart(f: seq<int>, i: int, j: int)
    requires Distinct(f) && 0 <= i < |f| && 0 <= j < |f| && i != j
    ensures f[i] != f[j]
  {
  }

  function Figures(units: seq<Unit>): nat {
    if units == [] then 0 else Figures(units[..|units| - 1]) + (if units[|units| - 1].Figure? then 1 else 0)
  }

  /** Words that share a partner have the same partners. */
  ghost predicate Blocks(words: WordMatch) {
    forall a, b, x, y :: words(a, x) && words(a, y) && words(b, x) ==> words(b, y)
  }

  /** One-figure keys that could be assigned are found. */
  ghost predicate CompleteForOneFigure(words: WordMatch) {
    forall expected, actual :: Figures(expected) == 1 && Assignable(words, expected, actual) ==>
      TakesAll(words, expected, actual)
  }

  lemma {:induction false} OneFigure(expected: seq<Unit>, i: int, j: int)
    requires Figures(expected) <= 1 && 0 <= i < j < |expected|
    ensures !(expected[i].Figure? && expected[j].Figure?)
    decreases |expected|
  {
    if j == |expected| - 1 {
      if expected[i].Figure? {
        FigureCounts(expected[..j], i);
      }
    } else {
      OneFigure(expected[..|expected| - 1], i, j);
    }
  }

  lemma {:induction false} FigureCounts(units: seq<Unit>, i: int)
    requires 0 <= i < |units| && units[i].Figure?
    ensures Figures(units) >= 1
    decreases |units|
  {
    if i < |units| - 1 {
      FigureCounts(units[..|units| - 1], i);
    }
  }

  lemma BlocksMatchInBlocks(words: WordMatch, expected: seq<Unit>, actual: seq<Unit>)
    requires Blocks(words) && Figures(expected) == 1
    ensures MatchesInBlocks(words, expected, actual)
  {
    forall i, j, p, q |
      && 0 <= i < |expected| && 0 <= j < |expected| && 0 <= p < |actual| && 0 <= q < |actual|
      && UnitMatch(words, expected[i], actual[p]) && UnitMatch(words, expected[j], actual[p])
      && UnitMatch(words, expected[i], actual[q])
      ensures UnitMatch(words, expected[j], actual[q])
    {
      if i < j {
        OneFigure(expected, i, j);
      } else if j < i {
        OneFigure(expected, j, i);
      }
    }
  }

  /** Where taking first matches fails: the units before have used up all that match. */
  lemma {:induction false} GreedyFailure(words: WordMatch, expected: seq<Unit>, actual: seq<Unit>, n: nat,
      remaining: seq<Unit>, stay: seq<int>, at: seq<int>) returns (all: seq<int>)
    requires n <= |expected| && |at| == n && Assigns(words, expected[..n], actual, at)
    requires Remains(remaining, actual, stay, at) && !TakesAll(words, expected[n..], remaining)
    ensures |all| < |expected| && Assigns(words, expected[..|all|], actual, all) && Exhausted(words, expected, actual, all)
    decreases |expected| - n
  {
    hide Assigns, Remains;
    assert n < |expected| && |stay| == |remaining| by {
      RemainsSameLength(remaining, actual, stay, at);
    }
    TakesStep(words, expected, n, remaining);
    var k := FirstMatch(words, expected[n], remaining);
    if k == |remaining| {
      UsedUp(words, expected[n], remaining, actual, stay, at);
      all := at;
    } else {
      StayFacts(words, expected[n], remaining, actual, stay, at, k);
      AssignsOneMore(words, expected, actual, n, at, stay[k]);
      RemainsWithout(remaining, actual, stay, at, k);
      all := GreedyFailure(words, expected, actual, n + 1, Without(remaining, k), Without(stay, k), at + [stay[k]]);
    }
  }

  lemma RemainsSameLength(remaining: seq<Unit>, actual: seq<Unit>, stay: seq<int>, at: seq<int>)
    requires Remains(remaining, actual, stay, at)
    ensures |stay| == |remaining|
  {
  }

  lemma StayFacts(words: WordMatch, unit: Unit, remaining: seq<Unit>, actual: seq<Unit>, stay: seq<int>, at: seq<int>, k: nat)
    requires Remains(remaining, actual, stay, at) && k < |remaining| && UnitMatch(words, unit, remaining[k])
    ensures |stay| == |remaining| && 0 <= stay[k] < |actual| && stay[k] !in at && UnitMatch(words, unit, actual[stay[k]])
  {
  }

  lemma NothingTaken(actual: seq<Unit>) returns (stay: seq<int>)
    ensures Remains(actual, actual, stay, [])
  {
    stay := seq(|actual|, i => i);
    forall p | 0 <= p < |actual| ensures p in stay {
      assert stay[p] == p;
    }
  }

  lemma BlocksAreComplete(words: WordMatch, expected: seq<Unit>, actual: seq<Unit>)
    requires Blocks(words) && Figures(expected) == 1 && Assignable(words, expected, actual)
    ensures TakesAll(words, expected, actual)
  {
    hide Blocks, TakesAll, MatchesInBlocks, Exhausted;
    if !TakesAll(words, expected, actual) {
      BlocksMatchInBlocks(words, expected, actual);
      var stay := NothingTaken(actual);
      assert expected[0..] == expected && expected[..0] == [];
      var at := GreedyFailure(words, expected, actual, 0, actual, stay, []);
      var other :| Assigns(words, expected, actual, other);
      BlockIsFull(words, expected, actual, at, other);
    }
  }

  /** The word that fits either place takes the only one the next word could have had. */
  lemma GreedyCanMiss(words: WordMatch, a: string, b: string, x: string, y: string)
    requires words(a, x) && words(a, y) && words(b, x) && !words(b, y)
    ensures var expected, actual := [Figure({"7"}), Word(a), Word(b)], [Figure({"7"}), Word(x), Word(y)];
            Figures(expected) == 1 && Assignable(words, expected, actual) && !TakesAll(words, expected, actual)
  {
    var seven, expected, actual := Figure({"7"}), [Figure({"7"}), Word(a), Word(b)], [Figure({"7"}), Word(x), Word(y)];
    assert expected[..2] == [seven, Word(a)] && [seven, Word(a)][..1] == [seven] && [seven][..0] == [];
    assert Figures([seven]) == 1 && Figures([seven, Word(a)]) == 1;
    assert "7" in {"7"} * {"7"};
    assert UnitMatch(words, seven, seven);
    hide TakesAll, FirstMatch;
    assert Assigns(words, expected, actual, [0, 2, 1]);
    TakesFirst(words, seven, expected[1..], actual);
    assert expected[1..] == [Word(a), Word(b)] && actual[1..] == [Word(x), Word(y)];
    TakesFirst(words, Word(a), [Word(b)], [Word(x), Word(y)]);
    NothingToTake(words, Word(b), Word(y));
  }

  lemma TakesFirst(words: WordMatch, unit: Unit, more: seq<Unit>, remaining: seq<Unit>)
    requires remaining != [] && UnitMatch(words, unit, remaining[0])
    ensures TakesAll(words, [unit] + more, remaining) == TakesAll(words, more, remaining[1..])
  {
    assert Without(remaining, 0) == remaining[1..];
    assert ([unit] + more)[1..] == more;
  }

  lemma NothingToTake(words: WordMatch, unit: Unit, other: Unit)
    requires !UnitMatch(words, unit, other)
    ensures !TakesAll(words, [unit], [other])
  {
  }

  /** The one-figure branch finds every assignable key exactly when words that share a
      partner have the same partners. */
  lemma CompleteIffBlocks(words: WordMatch)
    ensures CompleteForOneFigure(words) <==> Blocks(words)
  {
    if Blocks(words) {
      forall expected, actual | Figures(expected) == 1 && Assignable(words, expected, actual)
        ensures TakesAll(words, expected, actual)
      {
        BlocksAreComplete(words, expected, actual);
      }
    } else {
      var a, b, x, y :| words(a, x) && words(a, y) && words(b, x) && !words(b, y);
      GreedyCanMiss(words, a, b, x, y);
    }
  }

  // ----- the source's own word relation -----

  const SUFFIXES: set<string> := {
    "nden", "ndan", "larin", "lerin", "lari", "leri", "imiz", "iniz", "umuz", "unuz", "nin", "nun", "lar", "ler",
    "den", "dan", "ten", "tan", "dir", "dur", "tir", "tur", "yle", "yla", "ya", "ye", "yi", "yu", "de", "da", "te",
    "ta", "le", "la", "in", "un", "im", "um", "si", "su", "ni", "nu", "ne", "na", "i", "u", "e", "a"}

  const KEY_CASE_SUFFIXES: set<string> := {
    "a", "e", "ya", "ye", "i", "u", "yi", "yu", "na", "ne", "da", "de", "ta", "te", "dan", "den", "tan", "ten"}

  const ANSWER_SUFFIXES: set<string> := {
    "dir", "dur", "tir", "tur", "da", "de", "ta", "te", "dan", "den", "tan", "ten"}

  predicate EndsWith(word: string, suffix: string) {
    |suffix| <= |word| && word[|word| - |suffix|..] == suffix
  }

  function Shortened(word: string): set<string> {
    set suffix | suffix in SUFFIXES && |word| >= 3 && EndsWith(word, suffix) && |word| - |suffix| >= 2 ::
      word[..|word| - |suffix|]
  }

  /** Every form reached from the frontier by taking off one ending a round. */
  function StemsFrom(frontier: set<string>, found: set<string>, rounds: nat): set<string>
    decreases rounds
  {
    if rounds == 0 then found
    else
      var next := (set w, s | w in frontier && s in Shortened(w) :: s) - found;
      StemsFrom(next, found + next, rounds - 1)
  }

  function Stems(word: string): set<string> {
    StemsFrom({word}, {word}, 3)
  }

  /** A common root is accepted if long, or if one word is the bare root and the other
      adds a case or copula ending in the allowed direction. */
  predicate RootAccepts(expected: string, actual: string, root: string) {
    && root <= expected && root <= actual
    && (|root| >= 4
        || (actual == root && expected[|root|..] in KEY_CASE_SUFFIXES)
        || (expected == root && actual[|root|..] in ANSWER_SUFFIXES))
  }

  predicate SourceWordMatch(expected: string, actual: string) {
    expected == actual || exists root | root in Stems(expected) * Stems(actual) :: RootAccepts(expected, actual, root)
  }

  lemma {:induction false} FoundStays(frontier: set<string>, found: set<string>, rounds: nat, w: string)
    requires w in found
    ensures w in StemsFrom(frontier, found, rounds)
    decreases rounds
  {
    if rounds > 0 {
      var next := (set v, s | v in frontier && s in Shortened(v) :: s) - found;
      FoundStays(next, found + next, rounds - 1, w);
    }
  }

  lemma OneEnding(word: string, suffix: string)
    requires suffix in SUFFIXES && |word| >= 3 && EndsWith(word, suffix) && |word| - |suffix| >= 2
    ensures word in Stems(word) && word[..|word| - |suffix|] in Stems(word)
  {
    hide SUFFIXES, EndsWith;
    var shorter := word[..|word| - |suffix|];
    assert shorter in Shortened(word);
    var next := (set v, s | v in {word} && s in Shortened(v) :: s) - {word};
    FoundStays({word}, {word}, 3, word);
    FoundStays(next, {word} + next, 2, shorter);
  }

  lemma KattaEnds()
    ensures "katta"[3..] == "ta" && "kat" in Stems("katta")
  {
    assert "katta"[..3] == "kat" && "katta"[3..] == "ta";
    hide Stems;
    OneEnding("katta", "ta");
  }

  lemma KataEnds()
    ensures "kata"[3..] == "a" && "kat" in Stems("kata")
  {
    assert "kata"[..3] == "kat" && "kata"[3..] == "a";
    hide Stems;
    OneEnding("kata", "a");
  }

  lemma BareRootAgainstEnding()
    ensures SourceWordMatch("kat", "katta")
  {
    hide Stems;
    KattaEnds();
    BareWord("kat");
    assert RootAccepts("kat", "katta", "kat");
  }

  lemma BareWord(word: string)
    ensures word in Stems(word)
  {
    FoundStays({word}, {word}, 3, word);
  }

  lemma EndingAgainstBareRoot()
    ensures SourceWordMatch("kata", "kat")
  {
    hide Stems;
    KataEnds();
    BareWord("kat");
    assert RootAccepts("kata", "kat", "kat");
  }

  lemma PrefixesPart(root: string, s: string, t: string, n: nat)
    requires root <= s && root <= t && n < |s| && n < |t| && s[n] != t[n]
    ensures |root| <= n
  {
  }

  lemma TwoEndingsDiffer()
    ensures !SourceWordMatch("kata", "katta")
  {
    hide Stems;
    forall root ensures !RootAccepts("kata", "katta", root) {
      if root <= "kata" && root <= "katta" {
        PrefixesPart(root, "kata", "katta", 3);
      }
    }
  }

  /** The source's relation has no blocks: the bare root goes with two words that the
      inflected key does not both go with. So a key of one figure can be missed. */
  lemma SourceRelationMisses()
    ensures !Blocks(SourceWordMatch) && !CompleteForOneFigure(SourceWordMatch)
    ensures var expected, actual := [Figure({"7"}), Word("kat"), Word("kata")], [Figure({"7"}), Word("kat"), Word("katta")];
            Assignable(SourceWordMatch, expected, actual) && !TakesAll(SourceWordMatch, expected, actual)
  {
    BareRootAgainstEnding();
    EndingAgainstBareRoot();
    TwoEndingsDiffer();
    assert SourceWordMatch("kat", "kat");
    hide SourceWordMatch, TakesAll, Assignable;
    GreedyCanMiss(SourceWordMatch, "kat", "kata", "kat", "katta");
    CompleteIffBlocks(SourceWordMatch);
  }

  // ----- all sentences -----

  /** A folded sentence: its units, its polarity, whether it disowns its claim. */
  datatype Sentence = Sentence(units: seq<Unit>, negated: bool, refutes: bool)

  predicate Eligible(s: Sentence, negated: bool) {
    s.negated == negated && !s.refutes
  }

  /** A key of several figures, or of none, is stated by some eligible sentence iff the
      sentence contains its units in order; a key of one figure iff taking first matches
      succeeds on one, and then that sentence contains its units one to one. `literal`
      stands for the literal tier. */
  method NotationMatch(words: WordMatch, keyed: bool, literal: bool, expected: seq<Unit>, negated: bool, text: seq<Sentence>)
    returns (stated: bool)
    ensures !keyed ==> !stated
    ensures keyed && literal ==> stated
    ensures keyed && !literal && expected == [] ==> !stated
    ensures keyed && !literal && expected != [] && Figures(expected) != 1 ==>
      (stated <==> exists i :: 0 <= i < |text| && Eligible(text[i], negated) && Embeddable(words, expected, text[i].units))
    ensures keyed && !literal && Figures(expected) == 1 ==>
      (stated <==> exists i :: 0 <= i < |text| && Eligible(text[i], negated) && TakesAll(words, expected, text[i].units))
    ensures keyed && !literal && Figures(expected) == 1 && stated ==>
      exists i :: 0 <= i < |text| && Eligible(text[i], negated) && Assignable(words, expected, text[i].units)
  {
    if !keyed {
      return false;
    }
    if literal {
      return true;
    }
    if expected == [] {
      return false;
    }
    var unordered := Figures(expected) == 1;
    for i := 0 to |text|
      invariant !unordered ==> forall k :: 0 <= k < i ==>
                  !(Eligible(text[k], negated) && Embeddable(words, expected, text[k].units))
      invariant unordered ==> forall k :: 0 <= k < i ==>
                  !(Eligible(text[k], negated) && TakesAll(words, expected, text[k].units))
    {
      if Eligible(text[i], negated) {
        var found;
        if unordered {
          found := UnorderedDecides(words, expected, text[i].units);
        } else {
          found := OrderedMatch(words, expected, text[i].units);
        }
        if found {
          return true;
        }
      }
    }
    stated := false;
  }
}
