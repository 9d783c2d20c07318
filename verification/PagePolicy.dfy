/** Which page a missing page citation may be derived from, under three ever wider
    policies, and what each would publish. */
module PagePolicy {
  import opened Options
  import opened Tally
  import L = GuardLedger

  datatype Passage = Passage(page: Option<int>, text: string)
  datatype Status = Unsettled | Settled(verdict: L.Verdict) | Unknown

  datatype Row = Row(answer: string, raw: string, claims: seq<L.Claim>, context: string,
                     status: Status, answerRight: bool)

  /** The helpers on saved text, as the host defines them: passages by handle, the
      structured check, and the figure checks. */
  datatype Host = Host(
    passages: string -> map<int, Passage>,
    checkStructured: (L.Reply, string) -> seq<L.Flag>,
    isAbstention: string -> bool,
    citedPages: string -> seq<int>,
    hasFigures: string -> bool,
    unsupportedFigures: (string, string) -> seq<string>)

  datatype Policy = OnePassage | OnePage | FigurePage

  datatype Reason =
    | MalformedEvidence | NoEvidence | UnknownHandle | MissingPageMetadata
    | SinglePassage | SamePage | SamePageNotEnabled
    | MultiPage | MultiPageWithoutFigures | MultiPageNoUniqueFigurePage | UniqueFigurePage

  const BLOCK := "\n\n---\n\n"

  // ----- the cited passages -----

  datatype Evidence = Problem(reason: Reason) | Found(passages: seq<Passage>)

  predicate WellFormed(claims: seq<L.Claim>) {
    forall i :: 0 <= i < |claims| ==> claims[i].Cites?
  }

  function CitedHandles(claims: seq<L.Claim>): seq<int>
    requires WellFormed(claims)
  {
    seq(|claims|, i requires 0 <= i < |claims| => claims[i].handle)
  }

  /** First occurrences only, in order. */
  function Distinct(s: seq<int>): seq<int> {
    if s == [] then []
    else
      var front, last := Distinct(s[..|s| - 1]), s[|s| - 1];
      if last in front then front else front + [last]
  }

  lemma {:induction false} DistinctKeepsMembers(s: seq<int>, x: int)
    ensures x in Distinct(s) <==> x in s
    ensures s == [] <==> Distinct(s) == []
    decreases |s|
  {
    if s != [] {
      assert s == s[..|s| - 1] + [s[|s| - 1]];
      DistinctKeepsMembers(s[..|s| - 1], x);
      DistinctKeepsMembers(s[..|s| - 1], s[|s| - 1]);
    }
  }

  predicate AllKnown(handles: seq<int>, known: map<int, Passage>) {
    forall i :: 0 <= i < |handles| ==> handles[i] in known
  }

  function Lookup(handles: seq<int>, known: map<int, Passage>): seq<Passage>
    requires AllKnown(handles, known)
  {
    seq(|handles|, i requires 0 <= i < |handles| => known[handles[i]])
  }

  predicate AllPaged(ps: seq<Passage>) {
    forall i :: 0 <= i < |ps| ==> ps[i].page.Some?
  }

  function EvidencePassages(h: Host, row: Row): (r: Evidence)
    ensures r.Found? ==> AllPaged(r.passages)
  {
    if !WellFormed(row.claims) then Problem(MalformedEvidence)
    else
      var handles, known := Distinct(CitedHandles(row.claims)), h.passages(row.context);
      if handles == [] then Problem(NoEvidence)
      else if !AllKnown(handles, known) then Problem(UnknownHandle)
      else if !AllPaged(Lookup(handles, known)) then Problem(MissingPageMetadata)
      else Found(Lookup(handles, known))
  }

  method CollectEvidence(h: Host, row: Row) returns (r: Evidence)
    ensures r == EvidencePassages(h, row)
  {
    var known := h.passages(row.context);
    var handles: seq<int> := [];
    var i := 0;
    while i < |row.claims|
      invariant 0 <= i <= |row.claims|
      invariant WellFormed(row.claims[..i]) && handles == Distinct(CitedHandles(row.claims[..i]))
    {
      var item := row.claims[i];
      if !item.Cites? {
        return Problem(MalformedEvidence);
      }
      assert CitedHandles(row.claims[..i + 1])[..i] == CitedHandles(row.claims[..i]);
      if item.handle !in handles {
        handles := handles + [item.handle];
      }
      i := i + 1;
    }
    assert row.claims[..|row.claims|] == row.claims;
    if handles == [] {
      return Problem(NoEvidence);
    }
    if !AllKnown(handles, known) {
      return Problem(UnknownHandle);
    }
    var passages := Lookup(handles, known);
    if !AllPaged(passages) {
      return Problem(MissingPageMetadata);
    }
    return Found(passages);
  }

  // ----- candidate pages -----

  function Pages(ps: seq<Passage>): set<int>
    requires AllPaged(ps)
  {
    set i | 0 <= i < |ps| :: ps[i].page.value
  }

  /** The texts of the passages on one page, in order, joined by block marks. */
  function Scope(ps: seq<Passage>, page: int): string {
    if ps == [] then ""
    else
      var front, last := Scope(ps[..|ps| - 1], page), ps[|ps| - 1];
      if last.page != Some(page) then front
      else if exists i | 0 <= i < |ps| - 1 :: ps[i].page == Some(page) then front + BLOCK + last.text
      else last.text
  }

  predicate Supports(h: Host, answer: string, ps: seq<Passage>, page: int) {
    h.unsupportedFigures(answer, Scope(ps, page)) == []
  }

  /** Pages whose own text supports every figure of the answer. */
  function SupportedPages(h: Host, answer: string, ps: seq<Passage>): set<int>
    requires AllPaged(ps)
  {
    set page | page in Pages(ps) && Supports(h, answer, ps, page)
  }

  datatype Candidate = Candidate(page: Option<int>, reason: Reason)

  /** What the selected policy makes of the evidence. */
  ghost predicate IsCandidate(h: Host, row: Row, policy: Policy, c: Candidate) {
    match EvidencePassages(h, row)
    case Problem(reason) => c == Candidate(None, reason)
    case Found(ps) =>
      if |ps| == 1 then c == Candidate(ps[0].page, SinglePassage)
      else if |Pages(ps)| == 1 then
        if policy == OnePassage then c == Candidate(None, SamePageNotEnabled)
        else c.reason == SamePage && c.page.Some? && Pages(ps) == {c.page.value}
      else if policy != FigurePage then c == Candidate(None, MultiPage)
      else if !h.hasFigures(row.answer) then c == Candidate(None, MultiPageWithoutFigures)
      else if |SupportedPages(h, row.answer, ps)| == 1 then
        c.reason == UniqueFigurePage && c.page.Some? && SupportedPages(h, row.answer, ps) == {c.page.value}
      else c == Candidate(None, MultiPageNoUniqueFigurePage)
  }

  /** The pages, in whatever order the set is walked, that support every figure. */
  method FindSupported(h: Host, answer: string, ps: seq<Passage>) returns (supported: seq<int>)
    requires AllPaged(ps)
    ensures forall page :: page in supported <==> page in SupportedPages(h, answer, ps)
    ensures |supported| == |SupportedPages(h, answer, ps)|
  {
    hide Pages, Scope;
    ghost var all := SupportedPages(h, answer, ps);
    supported := [];
    var rest := Pages(ps);
    while rest != {}
      invariant rest <= Pages(ps)
      invariant forall page :: page in supported <==> page in all && page !in rest
      invariant |supported| == |all - rest|
    {
      var page :| page in rest;
      if h.unsupportedFigures(answer, Scope(ps, page)) == [] {
        supported := supported + [page];
        assert all - (rest - {page}) == all - rest + {page};
      } else {
        assert all - (rest - {page}) == all - rest;
      }
      rest := rest - {page};
    }
    assert all - rest == all;
  }

  method CandidatePage(h: Host, row: Row, policy: Policy) returns (c: Candidate)
    ensures IsCandidate(h, row, policy, c)
  {
    hide Pages, SupportedPages, EvidencePassages, Scope;
    var evidence := CollectEvidence(h, row);
    if evidence.Problem? {
      return Candidate(None, evidence.reason);
    }
    var ps := evidence.passages;
    if |ps| == 1 {
      return Candidate(ps[0].page, SinglePassage);
    }
    var pages := Pages(ps);
    if |pages| == 1 {
      if policy == OnePassage {
        return Candidate(None, SamePageNotEnabled);
      }
      assert exists page :: page in pages by {
        var page := Pick(pages);
      }
      var page :| page in pages;
      Alone(pages, page);
      return Candidate(Some(page), SamePage);
    }
    if policy == FigurePage {
      if !h.hasFigures(row.answer) {
        return Candidate(None, MultiPageWithoutFigures);
      }
      var supported := FindSupported(h, row.answer, ps);
      if |supported| == 1 {
        Alone(SupportedPages(h, row.answer, ps), supported[0]);
        return Candidate(Some(supported[0]), UniqueFigurePage);
      }
      return Candidate(None, MultiPageNoUniqueFigurePage);
    }
    return Candidate(None, MultiPage);
  }

  // ----- cumulative policies -----

  predicate Widens(p: Policy, q: Policy) {
    p == q || p == OnePassage || q == FigurePage
  }

  /** The rule gives one answer. */
  lemma CandidateIsUnique(h: Host, row: Row, policy: Policy, c: Candidate, d: Candidate)
    requires IsCandidate(h, row, policy, c) && IsCandidate(h, row, policy, d)
    ensures c == d
  {
    hide Pages, SupportedPages, EvidencePassages;
    forall x: int, y: int | {x} == {y} ensures x == y {
      assert x in {y};
    }
  }

  lemma CandidateExists(h: Host, row: Row, policy: Policy) returns (c: Candidate)
    ensures IsCandidate(h, row, policy, c)
  {
    hide Pages, SupportedPages, EvidencePassages;
    var evidence := EvidencePassages(h, row);
    if evidence.Problem? {
      return Candidate(None, evidence.reason);
    }
    var ps := evidence.passages;
    if |ps| == 1 {
      return Candidate(ps[0].page, SinglePassage);
    }
    if |Pages(ps)| == 1 {
      if policy == OnePassage {
        return Candidate(None, SamePageNotEnabled);
      }
      var x := TheOnly(Pages(ps));
      return Candidate(Some(x), SamePage);
    }
    if policy != FigurePage {
      return Candidate(None, MultiPage);
    }
    if !h.hasFigures(row.answer) {
      return Candidate(None, MultiPageWithoutFigures);
    }
    if |SupportedPages(h, row.answer, ps)| == 1 {
      var x := TheOnly(SupportedPages(h, row.answer, ps));
      return Candidate(Some(x), UniqueFigurePage);
    }
    return Candidate(None, MultiPageNoUniqueFigurePage);
  }

  lemma TheOnly(s: set<int>) returns (x: int)
    requires |s| == 1
    ensures s == {x}
  {
    x := Pick(s);
    Alone(s, x);
  }

  /** The candidate as a value. */
  ghost function CandidateOf(h: Host, row: Row, policy: Policy): (c: Candidate)
    ensures IsCandidate(h, row, policy, c)
  {
    assert exists c :: IsCandidate(h, row, policy, c) by {
      var c := CandidateExists(h, row, policy);
    }
    var c :| IsCandidate(h, row, policy, c);
    c
  }

  /** A page derived under one policy is derived, the same page, under every wider one. */
  lemma DerivedPagePersists(h: Host, row: Row, p: Policy, q: Policy)
    requires Widens(p, q)
    ensures CandidateOf(h, row, p).page.Some? ==> CandidateOf(h, row, q) == CandidateOf(h, row, p)
  {
    hide CandidateOf;
    var c, d := CandidateOf(h, row, p), CandidateOf(h, row, q);
    if c.page.Some? {
      CandidateCarries(h, row, p, q, c);
      CandidateIsUnique(h, row, q, c, d);
    }
  }

  lemma CandidateCarries(h: Host, row: Row, p: Policy, q: Policy, c: Candidate)
    requires Widens(p, q)
    requires IsCandidate(h, row, p, c) && c.page.Some?
    ensures IsCandidate(h, row, q, c)
  {
    hide Pages, SupportedPages, EvidencePassages;
  }

  lemma EvidenceIsSome(h: Host, row: Row)
    requires EvidencePassages(h, row).Found?
    ensures var ps := EvidencePassages(h, row).passages; |ps| > 0 && |Pages(ps)| > 0
  {
    var ps := EvidencePassages(h, row).passages;
    assert ps[0].page.value in Pages(ps);
  }

  lemma FigureCandidate(h: Host, row: Row, page: int)
    requires EvidencePassages(h, row).Found?
    requires IsCandidate(h, row, FigurePage, Candidate(Some(page), UniqueFigurePage))
    ensures var ps := EvidencePassages(h, row).passages;
            |ps| != 1 && |Pages(ps)| != 1 && h.hasFigures(row.answer)
            && SupportedPages(h, row.answer, ps) == {page}
  {
    hide Pages, EvidencePassages, SupportedPages;
  }

  /** A page is derived from figures only when its own passages support them all and no
      other cited page's do. */
  lemma FigurePageIsTheOnlyOne(h: Host, row: Row, page: int)
    requires EvidencePassages(h, row).Found?
    ensures CandidateOf(h, row, FigurePage) == Candidate(Some(page), UniqueFigurePage) <==>
              var ps := EvidencePassages(h, row).passages;
              && |ps| > 1 && |Pages(ps)| > 1 && h.hasFigures(row.answer)
              && page in Pages(ps) && Supports(h, row.answer, ps, page)
              && forall other :: other in Pages(ps) && Supports(h, row.answer, ps, other) ==> other == page
  {
    hide Pages, EvidencePassages, Supports, CandidateOf;
    var ps := EvidencePassages(h, row).passages;
    var c := CandidateOf(h, row, FigurePage);
    var supported := SupportedPages(h, row.answer, ps);
    EvidenceIsSome(h, row);
    forall other ensures other in supported <==> other in Pages(ps) && Supports(h, row.answer, ps, other) {
    }
    if c == Candidate(Some(page), UniqueFigurePage) {
      FigureCandidate(h, row, page);
      assert page in supported && forall other :: other in supported ==> other == page;
    } else if page in supported {
      Alone(supported, page);
      assert (forall other :: other in supported ==> other == page) ==> supported == {page};
    }
  }

  // ----- measuring saved rows -----

  predicate MissingExplicitPage(h: Host, row: Row) {
    !h.isAbstention(row.answer) && h.citedPages(row.answer) == []
  }

  function MissingRows(h: Host, rows: seq<Row>): seq<Row> {
    if rows == [] then []
    else
      var front, last := MissingRows(h, rows[..|rows| - 1]), rows[|rows| - 1];
      if MissingExplicitPage(h, last) then front + [last] else front
  }

  function ReplyOf(row: Row): L.Reply {
    if row.raw != "" then L.Raw(row.raw) else L.Parsed(row.claims, row.answer)
  }

  /** A flag other than the missing page still stands. */
  predicate HasOtherFlag(h: Host, row: Row) {
    var flags := h.checkStructured(ReplyOf(row), row.context);
    exists i | 0 <= i < |flags| :: flags[i].code != L.MISSING_PAGE
  }

  predicate Right(row: Row) {
    row.status == Settled(L.Correct) || (row.status == Unsettled && row.answerRight)
  }

  datatype Metric = Derived | Unresolved | StillReview | Rescued | Noncorrect | ReviewNew | WrongNew
  datatype Shape = Trouble(reason: Reason) | OneShape | SameShape | MultipleShape

  function ShapeOf(h: Host, row: Row): Shape {
    match EvidencePassages(h, row)
    case Problem(reason) => Trouble(reason)
    case Found(ps) => if |ps| == 1 then OneShape else if |Pages(ps)| == 1 then SameShape else MultipleShape
  }

  /** What a row with this candidate adds to a policy's counters. */
  predicate Moves(h: Host, row: Row, c: Candidate, m: Metric) {
    var open := HasOtherFlag(h, row) || c.page.None?;
    match m
    case Derived => c.page.Some?
    case Unresolved => c.page.None?
    case StillReview => open
    case Rescued => !open && Right(row)
    case Noncorrect => !open && !Right(row)
    case ReviewNew => !open && row.status == Settled(L.Review)
    case WrongNew => !open && row.status == Settled(L.Wrong)
  }

  datatype Tick = OfMetric(policy: Policy, metric: Metric) | OfReason(policy: Policy, reason: Reason) | OfShape(shape: Shape)

  ghost predicate Ticks(h: Host, t: Tick, row: Row) {
    match t
    case OfMetric(p, m) => Moves(h, row, CandidateOf(h, row, p), m)
    case OfReason(p, r) => CandidateOf(h, row, p).reason == r
    case OfShape(s) => ShapeOf(h, row) == s
  }

  ghost function Count(h: Host, t: Tick, rows: seq<Row>): nat {
    if rows == [] then 0
    else Count(h, t, rows[..|rows| - 1]) + if Ticks(h, t, rows[|rows| - 1]) then 1 else 0
  }

  lemma CountOneMore(h: Host, t: Tick, rows: seq<Row>, row: Row)
    ensures Count(h, t, rows + [row]) == Count(h, t, rows) + One(Ticks(h, t, row))
  {
    assert (rows + [row])[..|rows|] == rows;
  }

  lemma NothingCounted(h: Host, t: Tick)
    ensures Count(h, t, []) == 0
  {
  }

  datatype PolicyReport = PolicyReport(counts: map<Metric, nat>, reasons: map<Reason, nat>)

  datatype Report = Report(rows: nat, missing: nat, shapes: map<Shape, nat>,
                           policies: map<Policy, PolicyReport>, ambiguous: nat)

  method CountRow(h: Host, row: Row, c: Candidate, counts: map<Metric, nat>) returns (r: map<Metric, nat>)
    ensures forall m: Metric :: At(r, m) == At(counts, m) + One(Moves(h, row, c, m))
  {
    hide At, Plus, HasOtherFlag;
    r := counts;
    var open := HasOtherFlag(h, row);
    if c.page.None? {
      open := true;
      r := Plus(r, Unresolved, 1);
    } else {
      r := Plus(r, Derived, 1);
    }
    if open {
      r := Plus(r, StillReview, 1);
    } else if row.status == Settled(L.Correct) || (row.status == Unsettled && row.answerRight) {
      r := Plus(r, Rescued, 1);
    } else {
      r := Plus(r, Noncorrect, 1);
      if row.status == Settled(L.Review) {
        r := Plus(r, ReviewNew, 1);
      } else if row.status == Settled(L.Wrong) {
        r := Plus(r, WrongNew, 1);
      }
    }
  }

  ghost predicate Measured(h: Host, rows: seq<Row>, policy: Policy, r: PolicyReport) {
    && (forall m: Metric :: At(r.counts, m) == Count(h, OfMetric(policy, m), rows))
    && (forall reason: Reason :: At(r.reasons, reason) == Count(h, OfReason(policy, reason), rows))
  }

  lemma MeasuredStep(h: Host, rows: seq<Row>, policy: Policy, row: Row, c: Candidate,
      before: PolicyReport, after: PolicyReport)
    requires Measured(h, rows, policy, before) && IsCandidate(h, row, policy, c)
    requires forall m: Metric :: At(after.counts, m) == At(before.counts, m) + One(Moves(h, row, c, m))
    requires forall reason: Reason ::
               At(after.reasons, reason) == At(before.reasons, reason) + One(reason == c.reason)
    ensures Measured(h, rows + [row], policy, after)
  {
    hide At, One, Moves, IsCandidate, CandidateOf, Count;
    CandidateIsUnique(h, row, policy, c, CandidateOf(h, row, policy));
    forall m: Metric ensures At(after.counts, m) == Count(h, OfMetric(policy, m), rows + [row]) {
      CountOneMore(h, OfMetric(policy, m), rows, row);
    }
    forall reason: Reason ensures At(after.reasons, reason) == Count(h, OfReason(policy, reason), rows + [row]) {
      CountOneMore(h, OfReason(policy, reason), rows, row);
      assert (reason == c.reason) == Ticks(h, OfReason(policy, reason), row);
    }
  }

  method MeasurePolicy(h: Host, rows: seq<Row>, policy: Policy) returns (r: PolicyReport)
    ensures Measured(h, rows, policy, r)
  {
    hide IsCandidate, Moves, Count, At, Plus;
    r := PolicyReport(map[], map[]);
    NothingMeasured(h, policy);
    var i := 0;
    while i < |rows|
      invariant 0 <= i <= |rows|
      invariant Measured(h, rows[..i], policy, r)
    {
      hide Measured;
      var row := rows[i];
      var c := CandidatePage(h, row, policy);
      var counts := CountRow(h, row, c, r.counts);
      var next := PolicyReport(counts, Plus(r.reasons, c.reason, 1));
      MeasuredStep(h, rows[..i], policy, row, c, r, next);
      assert rows[..i + 1] == rows[..i] + [row];
      r := next;
      i := i + 1;
    }
    assert rows[..|rows|] == rows;
  }

  lemma NothingShaped(h: Host, shapes: map<Shape, nat>)
    requires shapes == map[]
    ensures forall s: Shape :: At(shapes, s) == Count(h, OfShape(s), [])
  {
  }

  lemma NothingMeasured(h: Host, policy: Policy)
    ensures Measured(h, [], policy, PolicyReport(map[], map[]))
  {
  }

  method MeasureShapes(h: Host, rows: seq<Row>) returns (shapes: map<Shape, nat>)
    ensures forall s: Shape :: At(shapes, s) == Count(h, OfShape(s), rows)
  {
    hide At, Plus, Count, ShapeOf;
    shapes := map[];
    NothingShaped(h, shapes);
    var i := 0;
    while i < |rows|
      invariant 0 <= i <= |rows|
      invariant forall s: Shape :: At(shapes, s) == Count(h, OfShape(s), rows[..i])
    {
      var next := Plus(shapes, ShapeOf(h, rows[i]), 1);
      assert rows[..i + 1] == rows[..i] + [rows[i]];
      forall s: Shape ensures At(next, s) == Count(h, OfShape(s), rows[..i + 1]) {
        CountOneMore(h, OfShape(s), rows[..i], rows[i]);
      }
      shapes := next;
      i := i + 1;
    }
    assert rows[..|rows|] == rows;
  }

  ghost predicate Reports(h: Host, rows: seq<Row>, r: Report) {
    var missing := MissingRows(h, rows);
    && r.rows == |rows| && r.missing == |missing|
    && (forall s: Shape :: At(r.shapes, s) == Count(h, OfShape(s), missing))
    && (forall p: Policy :: p in r.policies && Measured(h, missing, p, r.policies[p]))
    && r.ambiguous == Count(h, OfReason(FigurePage, MultiPage), missing)
                    + Count(h, OfReason(FigurePage, MultiPageWithoutFigures), missing)
                    + Count(h, OfReason(FigurePage, MultiPageNoUniqueFigurePage), missing)
  }

  method MeasureRows(h: Host, rows: seq<Row>) returns (r: Report)
    ensures Reports(h, rows, r)
  {
    hide At, Count, MissingRows;
    var missing := MissingRows(h, rows);
    var shapes := MeasureShapes(h, missing);
    var first := MeasurePolicy(h, missing, OnePassage);
    var second := MeasurePolicy(h, missing, OnePage);
    var third := MeasurePolicy(h, missing, FigurePage);
    var ambiguous := At(third.reasons, MultiPage) + At(third.reasons, MultiPageWithoutFigures)
                     + At(third.reasons, MultiPageNoUniqueFigurePage);
    r := Report(|rows|, |missing|, shapes,
                map[OnePassage := first, OnePage := second, FigurePage := third], ambiguous);
    forall p: Policy ensures p in r.policies && Measured(h, missing, p, r.policies[p]) {
      match p
      case OnePassage =>
      case OnePage =>
      case FigurePage =>
    }
  }

  // ----- what the counts say -----

  /** Under each policy every row is derived or unresolved, and is still held, rescued or
      newly publishable though not right. */
  lemma {:induction false} PolicyPartitions(h: Host, p: Policy, rows: seq<Row>)
    ensures |rows| == Count(h, OfMetric(p, Derived), rows) + Count(h, OfMetric(p, Unresolved), rows)
    ensures |rows| == Count(h, OfMetric(p, StillReview), rows) + Count(h, OfMetric(p, Rescued), rows)
                    + Count(h, OfMetric(p, Noncorrect), rows)
    ensures Count(h, OfMetric(p, ReviewNew), rows) + Count(h, OfMetric(p, WrongNew), rows)
         <= Count(h, OfMetric(p, Noncorrect), rows)
    ensures Count(h, OfMetric(p, Unresolved), rows) <= Count(h, OfMetric(p, StillReview), rows)
    decreases |rows|
  {
    hide CandidateOf, HasOtherFlag;
    if rows != [] {
      PolicyPartitions(h, p, rows[..|rows| - 1]);
    }
  }

  /** Every row has one reason. */
  lemma {:induction false} ReasonsPartition(h: Host, p: Policy, rows: seq<Row>)
    ensures |rows| == Count(h, OfReason(p, MalformedEvidence), rows) + Count(h, OfReason(p, NoEvidence), rows)
                    + Count(h, OfReason(p, UnknownHandle), rows) + Count(h, OfReason(p, MissingPageMetadata), rows)
                    + Count(h, OfReason(p, SinglePassage), rows) + Count(h, OfReason(p, SamePage), rows)
                    + Count(h, OfReason(p, SamePageNotEnabled), rows) + Count(h, OfReason(p, MultiPage), rows)
                    + Count(h, OfReason(p, MultiPageWithoutFigures), rows)
                    + Count(h, OfReason(p, MultiPageNoUniqueFigurePage), rows)
                    + Count(h, OfReason(p, UniqueFigurePage), rows)
    decreases |rows|
  {
    hide CandidateOf;
    if rows != [] {
      ReasonsPartition(h, p, rows[..|rows| - 1]);
    }
  }

  predicate Rises(m: Metric) {
    m == Derived || m == Rescued || m == Noncorrect || m == ReviewNew || m == WrongNew
  }

  lemma MovesPersist(h: Host, row: Row, p: Policy, q: Policy, m: Metric)
    requires Widens(p, q)
    ensures Rises(m) ==> (Ticks(h, OfMetric(p, m), row) ==> Ticks(h, OfMetric(q, m), row))
    ensures !Rises(m) ==> (Ticks(h, OfMetric(q, m), row) ==> Ticks(h, OfMetric(p, m), row))
  {
    hide CandidateOf, HasOtherFlag;
    DerivedPagePersists(h, row, p, q);
  }

  /** A wider policy derives, rescues and newly publishes no fewer, and leaves no more
      unresolved or under review. */
  lemma {:induction false} PoliciesAreCumulative(h: Host, p: Policy, q: Policy, m: Metric, rows: seq<Row>)
    requires Widens(p, q)
    ensures Rises(m) ==> Count(h, OfMetric(p, m), rows) <= Count(h, OfMetric(q, m), rows)
    ensures !Rises(m) ==> Count(h, OfMetric(p, m), rows) >= Count(h, OfMetric(q, m), rows)
    decreases |rows|
  {
    hide Ticks;
    if rows != [] {
      PoliciesAreCumulative(h, p, q, m, rows[..|rows| - 1]);
      MovesPersist(h, rows[|rows| - 1], p, q, m);
    }
  }

  predicate IsMulti(r: Reason) {
    r == MultiPage || r == MultiPageWithoutFigures || r == MultiPageNoUniqueFigurePage
  }

  /** How the reason follows from the shape of the evidence. */
  lemma ReasonByShape(h: Host, row: Row)
    ensures CandidateOf(h, row, OnePassage).page.Some? <==> ShapeOf(h, row) == OneShape
    ensures CandidateOf(h, row, OnePage).page.Some? <==> ShapeOf(h, row) == OneShape || ShapeOf(h, row) == SameShape
    ensures CandidateOf(h, row, FigurePage).page.Some? <==>
              || ShapeOf(h, row) == OneShape || ShapeOf(h, row) == SameShape
              || CandidateOf(h, row, FigurePage).reason == UniqueFigurePage
    ensures ShapeOf(h, row) == MultipleShape <==>
              || IsMulti(CandidateOf(h, row, FigurePage).reason)
              || CandidateOf(h, row, FigurePage).reason == UniqueFigurePage
  {
    hide Pages, SupportedPages, CandidateOf;
    ProblemReason(h, row);
    if EvidencePassages(h, row).Found? {
      EvidenceIsSome(h, row);
    }
    hide EvidencePassages;
  }

  lemma ProblemReason(h: Host, row: Row)
    ensures var e := EvidencePassages(h, row);
            e.Problem? ==> !IsMulti(e.reason) && e.reason != UniqueFigurePage
  {
  }

  /** Derivations by shape: each policy adds exactly one kind of row to the last, and the
      rows left ambiguous are the multi-page rows without a unique figure page. */
  lemma {:induction false} DerivedByShape(h: Host, rows: seq<Row>)
    ensures Count(h, OfMetric(OnePassage, Derived), rows) == Count(h, OfShape(OneShape), rows)
    ensures Count(h, OfMetric(OnePage, Derived), rows)
         == Count(h, OfShape(OneShape), rows) + Count(h, OfShape(SameShape), rows)
    ensures Count(h, OfMetric(FigurePage, Derived), rows)
         == Count(h, OfShape(OneShape), rows) + Count(h, OfShape(SameShape), rows)
          + Count(h, OfReason(FigurePage, UniqueFigurePage), rows)
    ensures Count(h, OfReason(FigurePage, MultiPage), rows)
          + Count(h, OfReason(FigurePage, MultiPageWithoutFigures), rows)
          + Count(h, OfReason(FigurePage, MultiPageNoUniqueFigurePage), rows)
         == Count(h, OfShape(MultipleShape), rows) - Count(h, OfReason(FigurePage, UniqueFigurePage), rows)
    decreases |rows|
  {
    hide CandidateOf, ShapeOf;
    if rows != [] {
      DerivedByShape(h, rows[..|rows| - 1]);
      ReasonByShape(h, rows[|rows| - 1]);
      SinglesAreNotMulti(h, rows[|rows| - 1]);
    }
  }

  lemma SinglesAreNotMulti(h: Host, row: Row)
    ensures CandidateOf(h, row, FigurePage).reason == UniqueFigurePage ==>
              ShapeOf(h, row) != OneShape && ShapeOf(h, row) != SameShape
  {
    hide CandidateOf, EvidencePassages, Pages, SupportedPages;
    ProblemReason(h, row);
  }

  /** The report in those terms. */
  lemma ReportAddsUp(h: Host, rows: seq<Row>, r: Report, p: Policy)
    requires Reports(h, rows, r)
    ensures p in r.policies
    ensures var counts := r.policies[p].counts;
            && At(counts, Derived) + At(counts, Unresolved) == r.missing
            && At(counts, StillReview) + At(counts, Rescued) + At(counts, Noncorrect) == r.missing
    ensures r.ambiguous == At(r.shapes, MultipleShape) - At(r.policies[FigurePage].reasons, UniqueFigurePage)
  {
    hide Count, MissingRows;
    var missing := MissingRows(h, rows);
    PolicyPartitions(h, p, missing);
    DerivedByShape(h, missing);
    assert FigurePage in r.policies;
  }

  lemma ReportIsCumulative(h: Host, rows: seq<Row>, r: Report, p: Policy, q: Policy, m: Metric)
    requires Reports(h, rows, r) && Widens(p, q)
    ensures p in r.policies && q in r.policies
    ensures var before, after := At(r.policies[p].counts, m), At(r.policies[q].counts, m);
            if Rises(m) then before <= after else before >= after
  {
    hide Count, MissingRows;
    PoliciesAreCumulative(h, p, q, m, MissingRows(h, rows));
  }
}
