/** The terminology registry and the token-bounded hotword pack compiled from it. */
module Hotwords {
  import opened Options

  datatype Term = Term(canonical: string, aliases: seq<string>, contexts: set<string>, priority: int)

  function Variants(t: Term): seq<string> {
    [t.canonical] + t.aliases
  }

  function Phrases(terms: seq<Term>): seq<string> {
    if terms == [] then [] else Phrases(terms[..|terms| - 1]) + Variants(terms[|terms| - 1])
  }

  // ----- loading: every phrase is registered once -----

  /** One entry of the document, before any check. */
  datatype Raw = Raw(canonical: string, aliases: seq<string>, contexts: seq<string>, priority: int)

  /** Unicode facts about text, as the host defines them. */
  datatype Host = Host(
    normal: string -> string,      // normal form under which phrases are compared
    clean: string -> bool,         // trimmed, no control characters
    identifier: string -> bool)

  const MAX_TERM_CHARS := 96
  const MAX_ALIASES := 8
  const MAX_CONTEXTS := 16
  const MAX_PRIORITY := 1000
  const MAX_TERMS := 10000
  const DEFAULT_CONTEXT := "default"

  predicate TextOk(h: Host, s: string) {
    h.clean(s) && 0 < |s| <= MAX_TERM_CHARS && ',' !in s
  }

  predicate DistinctNormals(h: Host, s: seq<string>) {
    forall i, j :: 0 <= i < j < |s| ==> h.normal(s[i]) != h.normal(s[j])
  }

  /** The checks on one entry alone. */
  predicate EntryOk(h: Host, r: Raw) {
    && TextOk(h, r.canonical)
    && |r.aliases| <= MAX_ALIASES && (forall i :: 0 <= i < |r.aliases| ==> TextOk(h, r.aliases[i]))
    && DistinctNormals(h, r.aliases)
    && 1 <= |r.contexts| <= MAX_CONTEXTS && (forall i :: 0 <= i < |r.contexts| ==> h.identifier(r.contexts[i]))
    && DistinctNormals(h, r.contexts)
    && 0 <= r.priority <= MAX_PRIORITY
  }

  function TermOf(r: Raw): Term {
    Term(r.canonical, r.aliases, (set c | c in r.contexts), r.priority)
  }

  function TermsOf(rs: seq<Raw>): (t: seq<Term>)
    ensures |t| == |rs|
    ensures forall i :: 0 <= i < |rs| ==> t[i] == TermOf(rs[i])
  {
    seq(|rs|, i requires 0 <= i < |rs| => TermOf(rs[i]))
  }

  function Normals(h: Host, s: seq<string>): set<string> {
    set i | 0 <= i < |s| :: h.normal(s[i])
  }

  /** Extending a list of distinct phrases by one keeps it distinct iff its normal form is new. */
  lemma NormalsGrow(h: Host, s: seq<string>, p: string)
    ensures Normals(h, s + [p]) == Normals(h, s) + {h.normal(p)}
    ensures DistinctNormals(h, s + [p]) <==> DistinctNormals(h, s) && h.normal(p) !in Normals(h, s)
  {
    var t := s + [p];
    assert forall i :: 0 <= i < |s| ==> t[i] == s[i];
    assert t[|s|] == p;
    if DistinctNormals(h, t) {
      forall i | 0 <= i < |s| ensures h.normal(s[i]) != h.normal(p) {
        assert h.normal(t[i]) != h.normal(t[|s|]);
      }
    }
    forall n ensures n in Normals(h, t) <==> n in Normals(h, s) + {h.normal(p)} {
      if n in Normals(h, s) {
        var i :| 0 <= i < |s| && h.normal(s[i]) == n;
        assert h.normal(t[i]) == n;
      }
      if n == h.normal(p) {
        assert h.normal(t[|s|]) == n;
      }
    }
  }

  /** A shorter list of a distinct one is distinct. */
  lemma DistinctPrefix(h: Host, s: seq<string>, t: seq<string>)
    requires DistinctNormals(h, s + t)
    ensures DistinctNormals(h, s)
  {
    assert forall i :: 0 <= i < |s| ==> (s + t)[i] == s[i];
  }

  /** Adds an entry's phrases to `seen`, refusing the first that is already there. */
  method Register(h: Host, phrases: seq<string>, before: seq<string>, seen: set<string>)
    returns (ok: bool, r: set<string>)
    requires DistinctNormals(h, before) && seen == Normals(h, before)
    ensures ok <==> DistinctNormals(h, before + phrases)
    ensures ok ==> r == Normals(h, before + phrases)
  {
    hide DistinctNormals, Normals;
    r := seen;
    assert before + phrases[..0] == before;
    for i := 0 to |phrases|
      invariant DistinctNormals(h, before + phrases[..i]) && r == Normals(h, before + phrases[..i])
    {
      var key := h.normal(phrases[i]);
      assert before + phrases[..i + 1] == before + phrases[..i] + [phrases[i]];
      NormalsGrow(h, before + phrases[..i], phrases[i]);
      if key in r {
        assert before + phrases == before + phrases[..i + 1] + phrases[i + 1..];
        if DistinctNormals(h, before + phrases) {
          DistinctPrefix(h, before + phrases[..i + 1], phrases[i + 1..]);
        }
        return false, r;
      }
      r := r + {key};
    }
    assert phrases[..|phrases|] == phrases;
    ok := true;
  }

  predicate Supports(terms: seq<Term>, context: string) {
    exists i :: 0 <= i < |terms| && context in terms[i].contexts
  }

  /** The registry loads exactly when every entry passes alone, some entry serves the
      default context, and no two phrases anywhere share a normal form. */
  method LoadTerms(h: Host, values: seq<Raw>) returns (r: Option<seq<Term>>)
    ensures r.Some? <==>
              && 1 <= |values| <= MAX_TERMS
              && (forall i :: 0 <= i < |values| ==> EntryOk(h, values[i]))
              && DistinctNormals(h, Phrases(TermsOf(values)))
              && Supports(TermsOf(values), DEFAULT_CONTEXT)
    ensures r.Some? ==> r.value == TermsOf(values)
  {
    hide EntryOk, DistinctNormals, Normals, Phrases;
    if !(1 <= |values| <= MAX_TERMS) {
      return None;
    }
    var seen: set<string> := {};
    NothingSeen(h);
    assert TermsOf(values[..0]) == [];
    for i := 0 to |values|
      invariant forall k :: 0 <= k < i ==> EntryOk(h, values[k])
      invariant DistinctNormals(h, Phrases(TermsOf(values[..i]))) && seen == Normals(h, Phrases(TermsOf(values[..i])))
    {
      if !EntryOk(h, values[i]) {
        return None;
      }
      var ok, more := Register(h, Variants(TermOf(values[i])), Phrases(TermsOf(values[..i])), seen);
      PhrasesGrow(values, i);
      if !ok {
        PhrasesPrefix(h, values, i + 1);
        return None;
      }
      seen := more;
    }
    assert values[..|values|] == values;
    r := if Supports(TermsOf(values), DEFAULT_CONTEXT) then Some(TermsOf(values)) else None;
  }

  lemma NothingSeen(h: Host)
    ensures Phrases([]) == [] && DistinctNormals(h, []) && Normals(h, []) == {}
  {
  }

  lemma PhrasesGrow(values: seq<Raw>, i: nat)
    requires i < |values|
    ensures Phrases(TermsOf(values[..i + 1])) == Phrases(TermsOf(values[..i])) + Variants(TermOf(values[i]))
  {
    var t := TermsOf(values[..i + 1]);
    assert t[..|t| - 1] == TermsOf(values[..i]);
  }

  lemma {:induction false} PhrasesPrefix(h: Host, values: seq<Raw>, n: nat)
    requires n <= |values|
    ensures DistinctNormals(h, Phrases(TermsOf(values))) ==> DistinctNormals(h, Phrases(TermsOf(values[..n])))
    decreases |values| - n
  {
    hide DistinctNormals, Phrases;
    if n == |values| {
      assert values[..n] == values;
    } else {
      PhrasesPrefix(h, values, n + 1);
      PhrasesGrow(values, n);
      if DistinctNormals(h, Phrases(TermsOf(values))) {
        DistinctPrefix(h, Phrases(TermsOf(values[..n])), Variants(TermOf(values[n])));
      }
    }
  }

  // ----- the selection order -----

  predicate LexLeq(a: string, b: string) {
    a == [] || (b != [] && (a[0] < b[0] || (a[0] == b[0] && LexLeq(a[1..], b[1..]))))
  }

  lemma {:induction false} LexTotal(a: string, b: string)
    ensures LexLeq(a, b) || LexLeq(b, a)
    ensures LexLeq(a, b) && LexLeq(b, a) ==> a == b
    decreases |a|
  {
    if a != [] && b != [] {
      LexTotal(a[1..], b[1..]);
      assert a == [a[0]] + a[1..] && b == [b[0]] + b[1..];
    }
  }

  lemma {:induction false} LexTransitive(a: string, b: string, c: string)
    requires LexLeq(a, b) && LexLeq(b, c)
    ensures LexLeq(a, c)
    decreases |a|
  {
    if a != [] && b != [] && c != [] && a[0] == b[0] == c[0] {
      LexTransitive(a[1..], b[1..], c[1..]);
    }
  }

  /** Higher priority first, then the normalised canonical spelling. */
  predicate Before(h: Host, t: Term, u: Term) {
    t.priority > u.priority || (t.priority == u.priority && LexLeq(h.normal(t.canonical), h.normal(u.canonical)))
  }

  predicate Ordered(h: Host, s: seq<Term>) {
    forall i, j :: 0 <= i < j < |s| ==> Before(h, s[i], s[j])
  }

  function Insert(h: Host, t: Term, s: seq<Term>): (r: seq<Term>)
    ensures multiset(r) == multiset(s) + multiset{t}
  {
    if s == [] then [t]
    else if Before(h, s[|s| - 1], t) then s + [t]
    else
      assert s == s[..|s| - 1] + [s[|s| - 1]];
      Insert(h, t, s[..|s| - 1]) + [s[|s| - 1]]
  }

  /** Python's stable `sorted` under the selection key. */
  function Sorted(h: Host, s: seq<Term>): (r: seq<Term>)
    ensures multiset(r) == multiset(s)
  {
    if s == [] then []
    else
      assert s == s[..|s| - 1] + [s[|s| - 1]];
      Insert(h, s[|s| - 1], Sorted(h, s[..|s| - 1]))
  }

  lemma {:induction false} InsertOrdered(h: Host, t: Term, s: seq<Term>)
    requires Ordered(h, s)
    ensures Ordered(h, Insert(h, t, s))
    decreases |s|
  {
    if s != [] {
      var init, last := s[..|s| - 1], s[|s| - 1];
      LexTotal(h.normal(last.canonical), h.normal(t.canonical));
      if Before(h, last, t) {
        forall i | 0 <= i < |s| ensures Before(h, s[i], t) {
          if i < |s| - 1 {
            BeforeTransitive(h, s[i], last, t);
          }
        }
      } else {
        InsertOrdered(h, t, init);
        var r := Insert(h, t, init);
        forall i | 0 <= i < |r| ensures Before(h, r[i], last) {
          assert r[i] in multiset(r);
          assert r[i] in init || r[i] == t;
        }
      }
    }
  }

  lemma BeforeTransitive(h: Host, t: Term, u: Term, v: Term)
    requires Before(h, t, u) && Before(h, u, v)
    ensures Before(h, t, v)
  {
    if t.priority == u.priority == v.priority {
      LexTransitive(h.normal(t.canonical), h.normal(u.canonical), h.normal(v.canonical));
    }
  }

  lemma {:induction false} SortedOrdered(h: Host, s: seq<Term>)
    ensures Ordered(h, Sorted(h, s))
    decreases |s|
  {
    if s != [] {
      SortedOrdered(h, s[..|s| - 1]);
      InsertOrdered(h, s[|s| - 1], Sorted(h, s[..|s| - 1]));
    }
  }

  /** Different terms have different keys. */
  ghost predicate KeyInjective(h: Host, s: seq<Term>) {
    forall t, u :: t in s && u in s && h.normal(t.canonical) == h.normal(u.canonical) ==> t == u
  }

  lemma LastsEqual(h: Host, s: seq<Term>, t: seq<Term>)
    requires s != [] && t != [] && multiset(s) == multiset(t)
    requires Ordered(h, s) && Ordered(h, t) && KeyInjective(h, s)
    ensures s[|s| - 1] == t[|t| - 1]
  {
    var a, b := s[|s| - 1], t[|t| - 1];
    assert a in multiset(t) && b in multiset(s);
    var i :| 0 <= i < |t| && t[i] == a;
    var j :| 0 <= j < |s| && s[j] == b;
    LexTotal(h.normal(a.canonical), h.normal(b.canonical));
    hide LexLeq;
    assert a == b || (Before(h, a, b) && Before(h, b, a));
  }

  lemma DropLast(s: seq<Term>)
    requires s != []
    ensures multiset(s[..|s| - 1]) == multiset(s) - multiset{s[|s| - 1]}
  {
    assert s == s[..|s| - 1] + [s[|s| - 1]];
  }

  lemma InitOrdered(h: Host, s: seq<Term>)
    requires s != [] && Ordered(h, s) && KeyInjective(h, s)
    ensures Ordered(h, s[..|s| - 1]) && KeyInjective(h, s[..|s| - 1])
  {
    hide Before;
    assert forall t :: t in s[..|s| - 1] ==> t in s;
  }

  lemma InitOrderedOnly(h: Host, s: seq<Term>)
    requires s != [] && Ordered(h, s)
    ensures Ordered(h, s[..|s| - 1])
  {
    hide Before;
  }

  /** With an injective key an ordered list is determined by its elements. */
  lemma {:induction false} OrderedUnique(h: Host, s: seq<Term>, t: seq<Term>)
    requires multiset(s) == multiset(t) && Ordered(h, s) && Ordered(h, t) && KeyInjective(h, s)
    ensures s == t
    decreases |s|
  {
    hide Before, LexLeq, Ordered, KeyInjective;
    assert |s| == |multiset(s)| == |multiset(t)| == |t|;
    if s != [] {
      var n := |s| - 1;
      LastsEqual(h, s, t);
      InitOrdered(h, s);
      InitOrderedOnly(h, t);
      DropLast(s);
      DropLast(t);
      OrderedUnique(h, s[..n], t[..n]);
      assert s == s[..n] + [s[n]] && t == t[..n] + [t[n]];
    }
  }

  // ----- packing -----

  /** The phrases joined as the model receives them. */
  function Join(phrases: seq<string>): string {
    if phrases == [] then ""
    else if |phrases| == 1 then phrases[0]
    else Join(phrases[..|phrases| - 1]) + ", " + phrases[|phrases| - 1]
  }

  datatype Pack = Invalid | Pack(phrases: seq<string>, tokens: int)

  /** One variant: skipped when the pack is full or the phrase would cross the token
      budget; an impossible token count ends the selection. */
  function Offer(count: string -> int, maxTokens: int, maxPhrases: int, p: Pack, phrase: string): Pack {
    if p.Invalid? || |p.phrases| >= maxPhrases then p
    else
      var measured := count(Join(p.phrases + [phrase]));
      if measured < 1 then Invalid
      else if measured <= maxTokens then Pack(p.phrases + [phrase], measured)
      else p
  }

  function Offers(count: string -> int, maxTokens: int, maxPhrases: int, offered: seq<string>): Pack {
    if offered == [] then Pack([], 0)
    else Offer(count, maxTokens, maxPhrases, Offers(count, maxTokens, maxPhrases, offered[..|offered| - 1]),
               offered[|offered| - 1])
  }

  /** Both budgets hold, the token count is the tokenizer's own for the joined text,
      and the pack lists offered phrases in order. */
  lemma {:induction false} PackWithinBudget(count: string -> int, maxTokens: int, maxPhrases: int, offered: seq<string>)
    requires 1 <= maxTokens && 1 <= maxPhrases
    ensures var p := Offers(count, maxTokens, maxPhrases, offered);
      p.Pack? ==>
        && |p.phrases| <= maxPhrases
        && (p.phrases == [] ==> p.tokens == 0)
        && (p.phrases != [] ==> 1 <= p.tokens <= maxTokens && p.tokens == count(Join(p.phrases)))
        && (forall x :: x in p.phrases ==> x in offered)
    decreases |offered|
  {
    if offered != [] {
      PackWithinBudget(count, maxTokens, maxPhrases, offered[..|offered| - 1]);
    }
  }

  /** Offering more never drops a phrase. */
  lemma {:induction false} PackGrows(count: string -> int, maxTokens: int, maxPhrases: int, offered: seq<string>, n: nat)
    requires n <= |offered|
    requires Offers(count, maxTokens, maxPhrases, offered).Pack?
    ensures Offers(count, maxTokens, maxPhrases, offered[..n]).Pack?
    ensures Offers(count, maxTokens, maxPhrases, offered[..n]).phrases <= Offers(count, maxTokens, maxPhrases, offered).phrases
    decreases |offered|
  {
    if n < |offered| {
      var init := offered[..|offered| - 1];
      PackGrows(count, maxTokens, maxPhrases, init, n);
      assert init[..n] == offered[..n];
    } else {
      assert offered[..n] == offered;
    }
  }

  /** The final pack is the greedy one: the n-th offered phrase is in it, at the place it
      was offered for, exactly when room remained and it fitted after what was taken before. */
  lemma TakenIffFits(count: string -> int, maxTokens: int, maxPhrases: int, offered: seq<string>, n: nat)
    requires n < |offered| && Offers(count, maxTokens, maxPhrases, offered).Pack?
    ensures Offers(count, maxTokens, maxPhrases, offered[..n]).Pack?
    ensures Offers(count, maxTokens, maxPhrases, offered[..n + 1]).Pack?
    ensures var before := Offers(count, maxTokens, maxPhrases, offered[..n]).phrases;
      var after := Offers(count, maxTokens, maxPhrases, offered[..n + 1]).phrases;
      var pack := Offers(count, maxTokens, maxPhrases, offered).phrases;
      && before <= after <= pack
      && (|after| > |before| <==> |before| < maxPhrases && count(Join(before + [offered[n]])) <= maxTokens)
      && (|after| > |before| ==> pack[|before|] == offered[n])
  {
    PackGrows(count, maxTokens, maxPhrases, offered, n);
    PackGrows(count, maxTokens, maxPhrases, offered, n + 1);
    assert offered[..n + 1][..n] == offered[..n];
  }

  function InContext(terms: seq<Term>, context: string): seq<Term> {
    if terms == [] then []
    else InContext(terms[..|terms| - 1], context)
         + (if context in terms[|terms| - 1].contexts then [terms[|terms| - 1]] else [])
  }

  datatype Selection = Refused | Selected(text: string, phraseCount: nat, tokens: int)

  function SelectionOf(h: Host, count: string -> int, terms: seq<Term>, context: string, maxTokens: int, maxPhrases: int): Selection {
    if !Supports(terms, context) then Refused
    else if !(1 <= maxTokens <= 1024) || !(1 <= maxPhrases <= 256) then Refused
    else
      var p := Offers(count, maxTokens, maxPhrases, Phrases(Sorted(h, InContext(terms, context))));
      if p.Invalid? || p.phrases == [] then Refused else Selected(Join(p.phrases), |p.phrases|, p.tokens)
  }

  /** The selector's loops; the inner one stops at a full pack. */
  method Select(h: Host, count: string -> int, terms: seq<Term>, context: string, maxTokens: int, maxPhrases: int)
    returns (r: Selection)
    ensures r == SelectionOf(h, count, terms, context, maxTokens, maxPhrases)
  {
    hide Phrases, Offers, Sorted, InContext, Supports, Join, OffersTo, OffersWithin;
    if !Supports(terms, context) {
      return Refused;
    }
    if !(1 <= maxTokens <= 1024) || !(1 <= maxPhrases <= 256) {
      return Refused;
    }
    var phrases: seq<string>, tokens := [], 0;
    var ordered := Sorted(h, InContext(terms, context));
    OfferEnds(count, maxTokens, maxPhrases, ordered);
    for i := 0 to |ordered|
      invariant OffersTo(count, maxTokens, maxPhrases, ordered, i) == Pack(phrases, tokens)
    {
      var variants := Variants(ordered[i]);
      WithinEnds(count, maxTokens, maxPhrases, ordered, i);
      for j := 0 to |variants|
        invariant OffersWithin(count, maxTokens, maxPhrases, ordered, i, j) == Pack(phrases, tokens)
      {
        WithinNext(count, maxTokens, maxPhrases, ordered, i, j);
        if |phrases| >= maxPhrases {
          FullWithin(count, maxTokens, maxPhrases, ordered, i, j);
          break;
        }
        var measured := count(Join(phrases + [variants[j]]));
        if measured < 1 {
          InvalidWithin(count, maxTokens, maxPhrases, ordered, i, j + 1);
          return Refused;
        }
        if measured <= maxTokens {
          phrases, tokens := phrases + [variants[j]], measured;
        }
      }
    }
    r := if phrases == [] then Refused else Selected(Join(phrases), |phrases|, tokens);
  }

  /** The pack after the first i terms. */
  function OffersTo(count: string -> int, maxTokens: int, maxPhrases: int, ordered: seq<Term>, i: nat): Pack
    requires i <= |ordered|
  {
    Offers(count, maxTokens, maxPhrases, Phrases(ordered[..i]))
  }

  /** The pack after j variants of term i as well. */
  function OffersWithin(count: string -> int, maxTokens: int, maxPhrases: int, ordered: seq<Term>, i: nat, j: nat): Pack
    requires i < |ordered| && j <= |Variants(ordered[i])|
  {
    Offers(count, maxTokens, maxPhrases, Phrases(ordered[..i]) + Variants(ordered[i])[..j])
  }

  lemma OfferEnds(count: string -> int, maxTokens: int, maxPhrases: int, ordered: seq<Term>)
    ensures OffersTo(count, maxTokens, maxPhrases, ordered, 0) == Pack([], 0)
    ensures OffersTo(count, maxTokens, maxPhrases, ordered, |ordered|) == Offers(count, maxTokens, maxPhrases, Phrases(ordered))
  {
    hide Phrases, Offers;
    NothingOffered(count, maxTokens, maxPhrases);
    assert ordered[..0] == [] && ordered[..|ordered|] == ordered;
  }

  lemma WithinEnds(count: string -> int, maxTokens: int, maxPhrases: int, ordered: seq<Term>, i: nat)
    requires i < |ordered|
    ensures OffersWithin(count, maxTokens, maxPhrases, ordered, i, 0) == OffersTo(count, maxTokens, maxPhrases, ordered, i)
    ensures OffersWithin(count, maxTokens, maxPhrases, ordered, i, |Variants(ordered[i])|)
         == OffersTo(count, maxTokens, maxPhrases, ordered, i + 1)
  {
    hide Phrases, Offers, Variants;
    TermOffered(ordered, i);
    var offered, variants := Phrases(ordered[..i]), Variants(ordered[i]);
    assert offered + variants[..0] == offered && variants[..|variants|] == variants;
  }

  lemma WithinNext(count: string -> int, maxTokens: int, maxPhrases: int, ordered: seq<Term>, i: nat, j: nat)
    requires i < |ordered| && j < |Variants(ordered[i])|
    ensures OffersWithin(count, maxTokens, maxPhrases, ordered, i, j + 1)
         == Offer(count, maxTokens, maxPhrases, OffersWithin(count, maxTokens, maxPhrases, ordered, i, j), Variants(ordered[i])[j])
  {
    hide Phrases, Offers, Variants, Offer;
    OfferNext(count, maxTokens, maxPhrases, Phrases(ordered[..i]), Variants(ordered[i]), j);
  }

  lemma FullWithin(count: string -> int, maxTokens: int, maxPhrases: int, ordered: seq<Term>, i: nat, j: nat)
    requires i < |ordered| && j <= |Variants(ordered[i])|
    requires var p := OffersWithin(count, maxTokens, maxPhrases, ordered, i, j); p.Pack? && |p.phrases| >= maxPhrases
    ensures OffersTo(count, maxTokens, maxPhrases, ordered, i + 1) == OffersWithin(count, maxTokens, maxPhrases, ordered, i, j)
  {
    hide Phrases, Offers, Variants;
    TermOffered(ordered, i);
    FullStaysFull(count, maxTokens, maxPhrases, Phrases(ordered[..i]), Variants(ordered[i]), j);
  }

  lemma InvalidWithin(count: string -> int, maxTokens: int, maxPhrases: int, ordered: seq<Term>, i: nat, j: nat)
    requires i < |ordered| && j <= |Variants(ordered[i])|
    requires OffersWithin(count, maxTokens, maxPhrases, ordered, i, j).Invalid?
    ensures Offers(count, maxTokens, maxPhrases, Phrases(ordered)).Invalid?
  {
    hide Phrases, Offers, Variants;
    TermOffered(ordered, i);
    InvalidStays(count, maxTokens, maxPhrases, Phrases(ordered[..i]), Variants(ordered[i]), j);
    InvalidTerms(count, maxTokens, maxPhrases, ordered, i + 1);
  }

  lemma NothingOffered(count: string -> int, maxTokens: int, maxPhrases: int)
    ensures Phrases([]) == [] && Offers(count, maxTokens, maxPhrases, []) == Pack([], 0)
  {
  }

  lemma TermOffered(ordered: seq<Term>, i: nat)
    requires i < |ordered|
    ensures Phrases(ordered[..i + 1]) == Phrases(ordered[..i]) + Variants(ordered[i])
  {
    assert ordered[..i + 1][..i] == ordered[..i];
  }

  lemma OfferNext(count: string -> int, maxTokens: int, maxPhrases: int, offered: seq<string>, variants: seq<string>, j: nat)
    requires j < |variants|
    ensures Offers(count, maxTokens, maxPhrases, offered + variants[..j + 1])
         == Offer(count, maxTokens, maxPhrases, Offers(count, maxTokens, maxPhrases, offered + variants[..j]), variants[j])
  {
    var s := offered + variants[..j + 1];
    assert s[..|s| - 1] == offered + variants[..j];
  }

  lemma {:induction false} FullStaysFull(count: string -> int, maxTokens: int, maxPhrases: int, offered: seq<string>,
                                         variants: seq<string>, j: nat)
    requires j <= |variants|
    requires var p := Offers(count, maxTokens, maxPhrases, offered + variants[..j]); p.Pack? && |p.phrases| >= maxPhrases
    ensures Offers(count, maxTokens, maxPhrases, offered + variants) == Offers(count, maxTokens, maxPhrases, offered + variants[..j])
    decreases |variants| - j
  {
    hide Offers;
    if j < |variants| {
      OfferNext(count, maxTokens, maxPhrases, offered, variants, j);
      FullStaysFull(count, maxTokens, maxPhrases, offered, variants, j + 1);
    } else {
      assert variants[..j] == variants;
    }
  }

  lemma {:induction false} InvalidStays(count: string -> int, maxTokens: int, maxPhrases: int, offered: seq<string>,
                                        variants: seq<string>, j: nat)
    requires j <= |variants|
    requires Offers(count, maxTokens, maxPhrases, offered + variants[..j]).Invalid?
    ensures Offers(count, maxTokens, maxPhrases, offered + variants).Invalid?
    decreases |variants| - j
  {
    hide Offers;
    if j < |variants| {
      OfferNext(count, maxTokens, maxPhrases, offered, variants, j);
      InvalidStays(count, maxTokens, maxPhrases, offered, variants, j + 1);
    } else {
      assert variants[..j] == variants;
    }
  }

  lemma {:induction false} InvalidTerms(count: string -> int, maxTokens: int, maxPhrases: int, ordered: seq<Term>, i: nat)
    requires i <= |ordered|
    requires Offers(count, maxTokens, maxPhrases, Phrases(ordered[..i])).Invalid?
    ensures Offers(count, maxTokens, maxPhrases, Phrases(ordered)).Invalid?
    decreases |ordered| - i
  {
    hide Offers, Phrases;
    if i < |ordered| {
      TermOffered(ordered, i);
      var offered, variants := Phrases(ordered[..i]), Variants(ordered[i]);
      assert offered + variants[..0] == offered;
      InvalidStays(count, maxTokens, maxPhrases, offered, variants, 0);
      InvalidTerms(count, maxTokens, maxPhrases, ordered, i + 1);
    } else {
      assert ordered[..i] == ordered;
    }
  }

  // ----- the order of terms in the file does not matter -----

  lemma {:induction false} InContextPart(terms: seq<Term>, context: string, t: Term)
    ensures multiset(InContext(terms, context))[t] == if context in t.contexts then multiset(terms)[t] else 0
    decreases |terms|
  {
    if terms != [] {
      InContextPart(terms[..|terms| - 1], context, t);
      assert terms == terms[..|terms| - 1] + [terms[|terms| - 1]];
    }
  }

  lemma {:induction false} PhrasesHold(terms: seq<Term>, i: nat)
    requires i < |terms|
    ensures exists k :: 0 <= k < |Phrases(terms)| && Phrases(terms)[k] == terms[i].canonical
    decreases |terms|
  {
    var init, last := terms[..|terms| - 1], terms[|terms| - 1];
    if i < |init| {
      PhrasesHold(init, i);
      var k :| 0 <= k < |Phrases(init)| && Phrases(init)[k] == init[i].canonical;
      assert Phrases(terms)[k] == terms[i].canonical;
    } else {
      assert Phrases(terms)[|Phrases(init)|] == last.canonical;
    }
  }

  /** Canonical phrases of two different places share no normal form. */
  lemma {:induction false} CanonicalsApart(h: Host, terms: seq<Term>, i: nat, j: nat)
    requires i < j < |terms| && DistinctNormals(h, Phrases(terms))
    ensures h.normal(terms[i].canonical) != h.normal(terms[j].canonical)
    decreases |terms|
  {
    var init, last := terms[..|terms| - 1], terms[|terms| - 1];
    if j < |init| {
      DistinctPrefix(h, Phrases(init), Variants(last));
      CanonicalsApart(h, init, i, j);
    } else {
      PhrasesHold(init, i);
      var k :| 0 <= k < |Phrases(init)| && Phrases(init)[k] == init[i].canonical;
      assert Phrases(terms)[k] == init[i].canonical;
      assert Phrases(terms)[|Phrases(init)|] == last.canonical;
    }
  }

  /** Two registries with the same terms in any order select the same pack. */
  lemma SelectionIgnoresFileOrder(h: Host, count: string -> int, terms: seq<Term>, other: seq<Term>, context: string,
                                  maxTokens: int, maxPhrases: int)
    requires DistinctNormals(h, Phrases(terms)) && multiset(terms) == multiset(other)
    ensures SelectionOf(h, count, terms, context, maxTokens, maxPhrases)
         == SelectionOf(h, count, other, context, maxTokens, maxPhrases)
  {
    SameOrder(h, terms, other, context);
    SameContexts(terms, other, context);
    SameContexts(other, terms, context);
    hide Offers, Phrases, DistinctNormals, Join, Sorted, InContext, Supports;
  }

  lemma SameOrder(h: Host, terms: seq<Term>, other: seq<Term>, context: string)
    requires DistinctNormals(h, Phrases(terms)) && multiset(terms) == multiset(other)
    ensures Sorted(h, InContext(terms, context)) == Sorted(h, InContext(other, context))
  {
    hide Phrases, DistinctNormals, Sorted, InContext, Ordered, KeyInjective;
    var a, b := InContext(terms, context), InContext(other, context);
    forall t ensures multiset(a)[t] == multiset(b)[t] {
      InContextPart(terms, context, t);
      InContextPart(other, context, t);
    }
    assert multiset(a) == multiset(b);
    SortedOrdered(h, a);
    SortedOrdered(h, b);
    KeysInjective(h, terms, context);
    OrderedUnique(h, Sorted(h, a), Sorted(h, b));
  }

  lemma SameContexts(terms: seq<Term>, other: seq<Term>, context: string)
    requires multiset(terms) == multiset(other)
    ensures Supports(terms, context) ==> Supports(other, context)
  {
    if i :| 0 <= i < |terms| && context in terms[i].contexts {
      assert terms[i] in multiset(other);
      var j :| 0 <= j < |other| && other[j] == terms[i];
    }
  }

  lemma SelectedIsTerm(h: Host, terms: seq<Term>, context: string, t: Term) returns (i: nat)
    requires t in Sorted(h, InContext(terms, context))
    ensures i < |terms| && terms[i] == t
  {
    hide Sorted, InContext;
    assert t in multiset(Sorted(h, InContext(terms, context)));
    InContextPart(terms, context, t);
    assert t in multiset(terms);
    i :| 0 <= i < |terms| && terms[i] == t;
  }

  lemma KeysInjective(h: Host, terms: seq<Term>, context: string)
    requires DistinctNormals(h, Phrases(terms))
    ensures KeyInjective(h, Sorted(h, InContext(terms, context)))
  {
    hide DistinctNormals, Phrases, Sorted, InContext;
    var s := Sorted(h, InContext(terms, context));
    forall t, u | t in s && u in s && h.normal(t.canonical) == h.normal(u.canonical) ensures t == u {
      var i := SelectedIsTerm(h, terms, context, t);
      var j := SelectedIsTerm(h, terms, context, u);
      if i < j {
        CanonicalsApart(h, terms, i, j);
      } else if j < i {
        CanonicalsApart(h, terms, j, i);
      }
    }
  }

  // ----- the joined text keeps the phrases apart -----

  /** Position of the first comma, or the length. */
  function Comma(s: string): (i: nat)
    ensures i <= |s| && ',' !in s[..i] && (i < |s| ==> s[i] == ',')
  {
    if s == [] || s[0] == ',' then 0
    else
      assert s[..1 + Comma(s[1..])] == [s[0]] + s[1..][..Comma(s[1..])];
      1 + Comma(s[1..])
  }

  /** Splits at every ", ". */
  function Split(s: string): seq<string>
    decreases |s|
  {
    var i := Comma(s);
    if i + 2 > |s| then [s] else [s[..i]] + Split(s[i + 2..])
  }

  lemma {:induction false} CommaAfter(a: string, rest: string)
    requires ',' !in a
    ensures Comma(a + ", " + rest) == |a|
    ensures Comma(a) == |a|
    decreases |a|
  {
    if a != [] {
      assert a[0] in a;
      assert forall c :: c in a[1..] ==> c in a;
      CommaAfter(a[1..], rest);
      assert (a + ", " + rest)[1..] == a[1..] + ", " + rest;
    }
  }

  lemma {:induction false} JoinFront(phrases: seq<string>)
    requires |phrases| >= 2
    ensures Join(phrases) == phrases[0] + ", " + Join(phrases[1..])
    decreases |phrases|
  {
    if |phrases| == 2 {
      assert phrases[..1] == [phrases[0]] && phrases[1..] == [phrases[1]];
    } else {
      var init := phrases[..|phrases| - 1];
      JoinFront(init);
      assert phrases[1..][..|phrases| - 2] == init[1..];
      assert Join(phrases) == phrases[0] + ", " + (Join(init[1..]) + ", " + phrases[|phrases| - 1]);
    }
  }

  /** Splitting the joined text gives back the very phrases, because none holds a comma. */
  lemma {:induction false} SplitJoin(phrases: seq<string>)
    requires phrases != [] && forall p :: p in phrases ==> ',' !in p
    ensures Split(Join(phrases)) == phrases
    decreases |phrases|
  {
    if |phrases| == 1 {
      assert phrases[0] in phrases;
      CommaAfter(phrases[0], "");
    } else {
      JoinFront(phrases);
      assert phrases[0] in phrases;
      var rest := Join(phrases[1..]);
      CommaAfter(phrases[0], rest);
      assert (phrases[0] + ", " + rest)[|phrases[0]| + 2..] == rest;
      assert (phrases[0] + ", " + rest)[..|phrases[0]|] == phrases[0];
      SplitJoin(phrases[1..]);
    }
  }
}
