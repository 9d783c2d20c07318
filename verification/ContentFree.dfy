/** The second layer under the report schema: no long piece of a locked case, and no
    name of its set or sources, may appear in the written report. */
module ContentFree {
  import opened Options
  import opened Text

  const SHORTEST := 12
  const WINDOW := 16
  const STEP := 8

  /** The least length at which a quotation is sure to hold a window. */
  const COVERED := 23

  /** Pieces of a text whose white space is already single spaces. */
  function Pieces(t: string): seq<string> {
    if |t| < SHORTEST then []
    else if |t| < WINDOW then [t]
    else seq((|t| - WINDOW) / STEP + 1, i requires 0 <= i <= (|t| - WINDOW) / STEP => t[STEP * i..STEP * i + WINDOW])
  }

  method LongPieces(raw: string) returns (pieces: seq<string>)
    ensures pieces == Pieces(Collapse(raw))
  {
    var text := Collapse(raw);
    if |text| < 12 {
      return [];
    }
    if |text| < 16 {
      return [text];
    }
    pieces := [];
    var start := 0;
    while start < |text| - 15
      invariant start == STEP * |pieces|
      invariant |pieces| <= |Pieces(text)|
      invariant pieces == Pieces(text)[..|pieces|]
    {
      pieces := pieces + [text[start..start + 16]];
      start := start + 8;
    }
  }

  // ----- coverage -----

  /** Some piece of t lies inside its stretch of n characters from i on. */
  predicate QuoteHoldsPiece(t: string, i: nat, n: nat)
    requires i + n <= |t|
  {
    exists p | p in Pieces(t) :: Occurs(p, t[i..i + n])
  }

  lemma PartOfPart(s: string, a: nat, b: nat, i: nat, j: nat)
    requires a <= b <= |s| && i <= j <= b - a
    ensures s[a..b][i..j] == s[a + i..a + j]
  {
    var l, r := s[a..b][i..j], s[a + i..a + j];
    assert |l| == |r|;
    assert forall x :: 0 <= x < |l| ==> l[x] == r[x];
  }

  lemma PieceAt(t: string, k: nat)
    requires STEP * k + WINDOW <= |t|
    ensures k < |Pieces(t)| && Pieces(t)[k] == t[STEP * k..STEP * k + WINDOW]
  {
  }

  /** Every stretch of 23 characters or more holds an aligned piece. */
  lemma LongQuoteHoldsPiece(t: string, i: nat, n: nat)
    requires |t| >= WINDOW && n >= COVERED && i + n <= |t|
    ensures QuoteHoldsPiece(t, i, n)
  {
    var k := (i + STEP - 1) / STEP;
    var start := STEP * k;
    assert i <= start && start + WINDOW <= i + n;
    PieceAt(t, k);
    hide Pieces;
    var p := Pieces(t)[k];
    assert p in Pieces(t);
    PartOfPart(t, i, i + n, start - i, start - i + WINDOW);
    assert OccursAt(p, t[i..i + n], start - i);
  }

  /** Twenty-four different characters. */
  function Alphabet(): (t: string)
    ensures |t| == 24
    ensures forall i, j :: 0 <= i < j < 24 ==> t[i] != t[j]
  {
    "abcdefghijklmnopqrstuvwx"
  }

  lemma OccursHead(p: string, s: string, k: nat)
    requires p != ""
    ensures OccursAt(p, s, k) ==> k < |s| && s[k] == p[0]
  {
    if OccursAt(p, s, k) {
      assert s[k..k + |p|][0] == s[k];
    }
  }

  lemma ShortQuoteEscapes(n: nat)
    requires n < COVERED
    ensures 1 + n <= |Alphabet()| && !QuoteHoldsPiece(Alphabet(), 1, n)
  {
    hide Alphabet;
    var t := Alphabet();
    var quote := t[1..1 + n];
    forall p | p in Pieces(t) ensures !Occurs(p, quote) {
      var i :| 0 <= i < |Pieces(t)| && Pieces(t)[i] == p;
      assert i == 0 || i == 1;
      forall k | 0 <= k <= |quote| ensures !OccursAt(p, quote, k) {
        OccursHead(p, quote, k);
        assert p[0] == t[STEP * i];
        assert k < |quote| ==> quote[k] == t[1 + k];
      }
    }
  }

  ghost predicate AlwaysCaught(n: nat) {
    forall t: string, i: nat :: |t| >= WINDOW && i + n <= |t| ==> QuoteHoldsPiece(t, i, n)
  }

  /** 23 is the least length that is always caught. */
  lemma AlwaysCaughtIff(n: nat)
    ensures AlwaysCaught(n) <==> n >= COVERED
  {
    if n >= COVERED {
      forall t: string, i: nat | |t| >= WINDOW && i + n <= |t| ensures QuoteHoldsPiece(t, i, n) {
        LongQuoteHoldsPiece(t, i, n);
      }
    } else {
      ShortQuoteEscapes(n);
    }
  }

  // ----- the gate -----

  datatype Passage = Passage(text: string, source: Option<string>)
  datatype Case = Case(setName: string, question: string, answer: string, key: string,
                       passages: seq<Passage>, quotes: seq<string>)

  /** Unicode facts, as the host defines them. */
  datatype Host = Host(
    letters: string -> string,   // lower-cased, decomposed, combining marks dropped
    digits: string -> bool)

  function Fold(h: Host, s: string): string {
    Collapse(h.letters(s))
  }

  function Texts(ps: seq<Passage>): (r: seq<string>)
    ensures |r| == |ps| && forall i :: 0 <= i < |ps| ==> r[i] == ps[i].text
  {
    seq(|ps|, i requires 0 <= i < |ps| => ps[i].text)
  }

  function Fragments(c: Case): seq<string> {
    [c.question, c.answer, c.key] + Texts(c.passages) + c.quotes
  }

  function Sources(c: Case): set<string> {
    set p | p in c.passages && p.source.Some? && p.source.value != "" :: p.source.value
  }

  /** Set names and passage sources over all cases. */
  function Names(cases: seq<Case>): set<string> {
    (set c | c in cases :: c.setName) + (set c, name | c in cases && name in Sources(c) :: name)
  }

  predicate WordChar(c: char) {
    'a' <= c <= 'z' || '0' <= c <= '9' || c == '_'
  }

  /** The name stands in the text as a whole token. */
  predicate TokenAt(name: string, s: string, k: nat) {
    && OccursAt(name, s, k)
    && (k > 0 ==> !WordChar(s[k - 1]))
    && (k + |name| < |s| ==> !WordChar(s[k + |name|]))
  }

  predicate NameShows(h: Host, name: string, blob: string) {
    var token := Fold(h, name);
    |token| >= 2 && !h.digits(token) && exists k | 0 <= k <= |blob| :: TokenAt(token, blob, k)
  }

  predicate PieceShows(pieces: seq<string>, blob: string) {
    exists i | 0 <= i < |pieces| :: Occurs(pieces[i], blob)
  }

  predicate FragmentShows(h: Host, fragment: string, blob: string) {
    PieceShows(Pieces(Fold(h, fragment)), blob)
  }

  predicate CaseShows(h: Host, c: Case, blob: string) {
    exists i | 0 <= i < |Fragments(c)| :: FragmentShows(h, Fragments(c)[i], blob)
  }

  ghost predicate Shows(h: Host, cases: seq<Case>, blob: string) {
    || (exists i | 0 <= i < |cases| :: CaseShows(h, cases[i], blob))
    || (exists name | name in Names(cases) :: NameShows(h, name, blob))
  }

  method FragmentCheck(h: Host, fragment: string, blob: string) returns (refused: bool)
    ensures refused == FragmentShows(h, fragment, blob)
  {
    var pieces := LongPieces(Fold(h, fragment));
    CollapseTwice(h.letters(fragment));
    var i := 0;
    while i < |pieces|
      invariant 0 <= i <= |pieces|
      invariant forall j :: 0 <= j < i ==> !Occurs(pieces[j], blob)
    {
      if Occurs(pieces[i], blob) {
        return true;
      }
      i := i + 1;
    }
    return false;
  }

  method CaseCheck(h: Host, c: Case, blob: string) returns (refused: bool)
    ensures refused == CaseShows(h, c, blob)
  {
    var fragments := Fragments(c);
    var i := 0;
    while i < |fragments|
      invariant 0 <= i <= |fragments|
      invariant forall j :: 0 <= j < i ==> !FragmentShows(h, fragments[j], blob)
    {
      var shown := FragmentCheck(h, fragments[i], blob);
      if shown {
        return true;
      }
      i := i + 1;
    }
    return false;
  }

  /** Whether writing the serialized report is refused. */
  method AssertContentFree(h: Host, report: string, cases: seq<Case>) returns (refused: bool)
    ensures refused == Shows(h, cases, Fold(h, report))
  {
    var blob := Fold(h, report);
    var i := 0;
    while i < |cases|
      invariant 0 <= i <= |cases|
      invariant forall j :: 0 <= j < i ==> !CaseShows(h, cases[j], blob)
    {
      var shown := CaseCheck(h, cases[i], blob);
      if shown {
        return true;
      }
      i := i + 1;
    }
    ghost var all := Names(cases);
    var tokens := Names(cases);
    while tokens != {}
      invariant tokens <= all
      invariant forall name :: name in all - tokens ==> !NameShows(h, name, blob)
    {
      var name :| name in tokens;
      if NameShows(h, name, blob) {
        return true;
      }
      tokens := tokens - {name};
    }
    return false;
  }

  lemma OccursInPart(p: string, quote: string, s: string)
    requires Occurs(p, quote) && Occurs(quote, s)
    ensures Occurs(p, s)
  {
    var k: nat :| k <= |quote| && OccursAt(p, quote, k);
    var at: nat :| at <= |s| && OccursAt(quote, s, at);
    PartOfPart(s, at, at + |quote|, k, k + |p|);
    assert OccursAt(p, s, at + k);
  }

  lemma LongQuoteShows(h: Host, c: Case, fragment: string, blob: string, i: nat, n: nat)
    requires fragment in Fragments(c)
    requires n >= COVERED && i + n <= |Fold(h, fragment)|
    requires Occurs(Fold(h, fragment)[i..i + n], blob)
    ensures CaseShows(h, c, blob)
  {
    hide Fold, Fragments, Occurs, Pieces;
    var t := Fold(h, fragment);
    LongQuoteHoldsPiece(t, i, n);
    var p :| p in Pieces(t) && Occurs(p, t[i..i + n]);
    OccursInPart(p, t[i..i + n], blob);
    assert FragmentShows(h, fragment, blob);
  }

  /** A report that passes quotes nothing: it shares no stretch of 23 characters with
      the folded text of any fragment of any case. */
  lemma PassingReportQuotesNothing(h: Host, report: string, cases: seq<Case>, c: Case, fragment: string,
      i: nat, n: nat)
    requires !Shows(h, cases, Fold(h, report))
    requires c in cases && fragment in Fragments(c)
    requires n >= COVERED && i + n <= |Fold(h, fragment)|
    ensures !Occurs(Fold(h, fragment)[i..i + n], Fold(h, report))
  {
    hide Fold, Fragments, Names, CaseShows, Occurs;
    if Occurs(Fold(h, fragment)[i..i + n], Fold(h, report)) {
      LongQuoteShows(h, c, fragment, Fold(h, report), i, n);
    }
  }
}
