/** The locked screening report: the counters the replay builds, the gate summary
    derived from them, and the validator that re-derives every field. */
module GateReport {
  import opened Options
  import Binomial
  import opened Tally

  datatype ClassName = WrongRow | LabelValueSwap | ArithmeticRestatement | UnsupportedFigure
                     | QuestionAnswerMismatch | ForcedAnswer | CorruptedQuote | InventedProvenance

  const CLASS_ORDER: seq<ClassName> :=
    [WrongRow, LabelValueSwap, ArithmeticRestatement, UnsupportedFigure,
     QuestionAnswerMismatch, ForcedAnswer, CorruptedQuote, InventedProvenance]

  const FROZEN: seq<string> := ["plain", "structured_derived", "structured_explicit_page"]

  const TARGET := 30

  datatype Basis = ManualUpperBound | DeterministicLowerBound
  datatype Role = Candidate | Confirmed
  datatype Recall = SafetyCatch | ExpectedDiagnostic

  function BasisOf(c: ClassName): Basis {
    if c.WrongRow? || c.LabelValueSwap? || c.QuestionAnswerMismatch? then ManualUpperBound
    else DeterministicLowerBound
  }

  function RoleOf(c: ClassName): Role {
    if BasisOf(c).ManualUpperBound? then Candidate else Confirmed
  }

  /** The preregistered diagnostic, for the three classes that have one. */
  function Diagnostic(c: ClassName): Option<string> {
    match c
    case UnsupportedFigure => Some("kaynaksiz_sayi")
    case CorruptedQuote => Some("uydurma_alinti")
    case InventedProvenance => Some("uydurma_pasaj")
    case _ => None
  }

  function RecallOf(c: ClassName): Recall {
    if Diagnostic(c).None? then SafetyCatch else ExpectedDiagnostic
  }

  type Counter = map<string, int>

  datatype Result = Result(counts: Counter, flags: Counter)

  datatype ClassBody = ClassBody(mutants: int, basis: Basis, role: Role, eligible: bool, expected: Option<string>,
                                 policies: map<string, Result>, excluded: Counter)

  datatype Cell = Cell(clusters: int, caught: int, anyFlag: int, recall: Recall, missed: int, floor: bool,
                       bound: Option<real>)

  datatype GateBody = GateBody(role: Role, eligible: bool, policies: map<string, Cell>)

  type Classes = map<ClassName, ClassBody>
  type Summary = map<ClassName, GateBody>

  function Get(c: Counter, key: string): int {
    if key in c then c[key] else 0
  }

  // ----- the gate summary -----

  const CONFIDENCE := 0.95

  /** The exact bound, before rounding; impossible counts have none. */
  function BoundFor(missed: int, n: int): Option<real> {
    if 0 <= missed <= n && n > 0 then Some(Binomial.UpperBound(missed, n, CONFIDENCE)) else None
  }

  function Caught(c: ClassName, counts: Counter): int {
    if Diagnostic(c).None? then Get(counts, "caught") else Get(counts, "expected_diagnostic")
  }

  function GateCell(c: ClassName, eligible: bool, counts: Counter): Cell {
    var n, caught := Get(counts, "n"), Caught(c, counts);
    Cell(n, caught, Get(counts, "caught"), RecallOf(c), n - caught, n >= TARGET,
         if eligible && n >= TARGET then BoundFor(n - caught, n) else None)
  }

  /** A cell that owes no bound, or whose counts have one. */
  predicate Priced(c: ClassName, eligible: bool, counts: Counter) {
    eligible && Get(counts, "n") >= TARGET ==> 0 <= Caught(c, counts) <= Get(counts, "n")
  }

  predicate AllPriced(c: ClassName, body: ClassBody) {
    forall p :: p in body.policies ==> Priced(c, body.role != Candidate, body.policies[p].counts)
  }

  function GateOf(c: ClassName, body: ClassBody): GateBody {
    var eligible := body.role != Candidate;
    GateBody(body.role, eligible,
             map p | p in body.policies :: GateCell(c, eligible, body.policies[p].counts))
  }

  predicate Complete(classes: Classes) {
    classes.Keys == (set c | c in CLASS_ORDER)
  }

  /** One cell that owes a bound its counts do not have refuses the whole summary. */
  function GateSummary(classes: Classes): Option<Summary>
    requires Complete(classes)
  {
    if forall c :: c in classes ==> AllPriced(c, classes[c]) then Some(map c | c in classes :: GateOf(c, classes[c]))
    else None
  }

  /** One cell; the bound is computed only where it is owed. */
  method BuildCell(c: ClassName, eligible: bool, counts: Counter) returns (cell: Option<Cell>)
    ensures cell.Some? <==> Priced(c, eligible, counts)
    ensures cell.Some? ==> cell.value == GateCell(c, eligible, counts)
  {
    hide Binomial.UpperBound, Get;
    var n, caught := Get(counts, "n"), Caught(c, counts);
    var owed: Option<real> := None;
    if eligible && n >= TARGET {
      var bound := Binomial.OneSidedUpperBound(n - caught, n, CONFIDENCE);
      if bound.Refused? {
        return None;
      }
      owed := Some(bound.value);
    }
    cell := Some(Cell(n, caught, Get(counts, "caught"), RecallOf(c), n - caught, n >= TARGET, owed));
  }

  /** The cells of one class, policy by policy. */
  method BuildGate(c: ClassName, body: ClassBody) returns (gate: Option<GateBody>)
    ensures gate.Some? <==> AllPriced(c, body)
    ensures gate.Some? ==> gate.value == GateOf(c, body)
  {
    hide Priced, GateCell;
    var eligible := body.role != Candidate;
    var perPolicy: map<string, Cell> := map[];
    var left := body.policies.Keys;
    while left != {}
      invariant left <= body.policies.Keys && perPolicy.Keys == body.policies.Keys - left
      invariant forall p :: p in perPolicy ==>
        Priced(c, eligible, body.policies[p].counts) && perPolicy[p] == GateCell(c, eligible, body.policies[p].counts)
      decreases left
    {
      var p :| p in left;
      left := left - {p};
      var cell := BuildCell(c, eligible, body.policies[p].counts);
      if cell.None? {
        assert !Priced(c, eligible, body.policies[p].counts);
        return None;
      }
      perPolicy := perPolicy[p := cell.value];
    }
    gate := Some(GateBody(body.role, eligible, perPolicy));
  }

  /** The loop over the classes. It refuses as soon as one class is refused. */
  method BuildGateSummary(classes: Classes) returns (summary: Option<Summary>)
    requires Complete(classes)
    ensures summary == GateSummary(classes)
  {
    hide AllPriced, GateOf;
    var built: Summary := map[];
    for i := 0 to |CLASS_ORDER|
      invariant built.Keys == set c | c in CLASS_ORDER[..i]
      invariant forall c :: c in built ==> c in classes && AllPriced(c, classes[c]) && built[c] == GateOf(c, classes[c])
    {
      var name := CLASS_ORDER[i];
      assert name in CLASS_ORDER;
      var gate := BuildGate(name, classes[name]);
      if gate.None? {
        return None;
      }
      built := built[name := gate.value];
      assert CLASS_ORDER[..i + 1] == CLASS_ORDER[..i] + [name];
    }
    assert CLASS_ORDER[..|CLASS_ORDER|] == CLASS_ORDER;
    assert built.Keys == classes.Keys;
    assert built == map c | c in classes :: GateOf(c, classes[c]);
    summary := Some(built);
  }

  /** When there is a summary: every cell of a confirmed class that reaches the floor
      counts its catches within its clusters. */
  lemma SummaryExistsIff(classes: Classes)
    requires Complete(classes)
    ensures GateSummary(classes).Some? <==>
            forall c, p :: c in classes && p in classes[c].policies && classes[c].role == Confirmed
                           && Get(classes[c].policies[p].counts, "n") >= TARGET ==>
              0 <= Caught(c, classes[c].policies[p].counts) <= Get(classes[c].policies[p].counts, "n")
  {
    if GateSummary(classes).Some? {
      forall c, p | c in classes && p in classes[c].policies
        ensures Priced(c, classes[c].role != Candidate, classes[c].policies[p].counts)
      {
        assert AllPriced(c, classes[c]);
      }
    } else {
      var c :| c in classes && !AllPriced(c, classes[c]);
      var p :| p in classes[c].policies && !Priced(c, classes[c].role != Candidate, classes[c].policies[p].counts);
      assert Get(classes[c].policies[p].counts, "n") >= TARGET;
    }
  }

  // ----- the validator -----

  const COUNT_KEYS: set<string> :=
    {"n", "caught", "expected_diagnostic", "published", "control_review", "control_published"}

  predicate LowerUnderscore(s: string) {
    3 <= |s| <= 40 && forall i :: 0 <= i < |s| ==> 'a' <= s[i] <= 'z' || s[i] == '_'
  }

  /** `^[a-z_]{3,40}$` as a match: the end anchor tolerates one final newline. */
  predicate FlagCode(s: string) {
    LowerUnderscore(s) || (s != [] && s[|s| - 1] == '\n' && LowerUnderscore(s[..|s| - 1]))
  }

  predicate NonNegative(c: Counter) {
    forall k :: k in c ==> c[k] >= 0
  }

  predicate AcceptsCell(cell: Cell, eligible: bool, recall: Recall) {
    && cell.clusters >= 0 && cell.caught >= 0 && cell.anyFlag >= 0 && cell.missed >= 0
    && (cell.bound.Some? ==> 0.0 <= cell.bound.value <= 1.0)
    && cell.caught <= cell.clusters && cell.anyFlag <= cell.clusters
    && cell.missed == cell.clusters - cell.caught
    && cell.caught <= cell.anyFlag
    && cell.recall == recall
    && (recall == SafetyCatch ==> cell.caught == cell.anyFlag)
    && cell.floor == (cell.clusters >= TARGET)
    && (cell.bound.Some? <==> eligible && cell.clusters >= TARGET)
    && (cell.bound.Some? ==> cell.bound == BoundFor(cell.missed, cell.clusters))
  }

  predicate AcceptsGate(c: ClassName, body: GateBody) {
    && body.role == RoleOf(c)
    && body.eligible == (RoleOf(c) != Candidate)
    && body.policies.Keys == (set p | p in FROZEN)
    && forall p :: p in body.policies ==> FlagCode(p) && AcceptsCell(body.policies[p], body.eligible, RecallOf(c))
  }

  ghost predicate AcceptsCounts(counts: Counter, flags: Counter, mutants: int) {
    if counts == map[] then mutants == 0 && flags == map[]
    else
      && counts.Keys == COUNT_KEYS
      && counts["n"] == mutants
      && counts["published"] == counts["n"] - counts["caught"]
      && counts["expected_diagnostic"] <= counts["caught"]
      && counts["control_review"] + counts["control_published"] == counts["n"]
      && (counts["caught"] > 0 <==> flags != map[])
      && (flags != map[] ==> SumValues(flags) >= counts["caught"] && forall k :: k in flags ==> flags[k] <= counts["n"])
  }

  ghost predicate AcceptsResult(r: Result, mutants: int) {
    && (forall k :: k in r.counts ==> k in COUNT_KEYS)
    && NonNegative(r.counts) && NonNegative(r.flags)
    && (forall k :: k in r.flags ==> FlagCode(k))
    && AcceptsCounts(r.counts, r.flags, mutants)
  }

  ghost predicate AcceptsClass(c: ClassName, body: ClassBody) {
    && body.mutants >= 0
    && body.basis == BasisOf(c) && body.role == RoleOf(c)
    && body.eligible == (RoleOf(c) != Candidate)
    && body.expected == Diagnostic(c)
    && body.policies.Keys == (set p | p in FROZEN)
    && (forall p :: p in body.policies ==> FlagCode(p) && AcceptsResult(body.policies[p], body.mutants))
    && NonNegative(body.excluded) && (forall k :: k in body.excluded ==> FlagCode(k))
  }

  /** The two sections tell one story: each gate cell comes from its class counters. */
  predicate Derivable(c: ClassName, gate: GateBody, body: ClassBody) {
    forall p :: p in gate.policies ==>
      && p in body.policies
      && gate.policies[p].clusters == Get(body.policies[p].counts, "n")
      && gate.policies[p].anyFlag == Get(body.policies[p].counts, "caught")
      && gate.policies[p].caught == Caught(c, body.policies[p].counts)
  }

  ghost predicate Accepts(gate: Summary, classes: Classes) {
    && Complete(classes) && gate.Keys == classes.Keys
    && (forall c :: c in gate ==> AcceptsGate(c, gate[c]))
    && (forall c :: c in classes ==> AcceptsClass(c, classes[c]))
    && (forall c :: c in gate ==> Derivable(c, gate[c], classes[c]))
  }

  // ----- an accepted report leaves the summary no freedom -----

  lemma AcceptedCellIsDerived(c: ClassName, eligible: bool, cell: Cell, counts: Counter)
    requires AcceptsCell(cell, eligible, RecallOf(c))
    requires cell.clusters == Get(counts, "n") && cell.anyFlag == Get(counts, "caught") && cell.caught == Caught(c, counts)
    ensures cell == GateCell(c, eligible, counts) && Priced(c, eligible, counts)
  {
    hide BoundFor, Get, Caught, RecallOf;
  }

  lemma AcceptedClassIsDerived(c: ClassName, gate: GateBody, body: ClassBody)
    requires AcceptsGate(c, gate) && AcceptsClass(c, body) && Derivable(c, gate, body)
    ensures gate == GateOf(c, body) && AllPriced(c, body)
  {
    hide AcceptsCell, GateCell, Priced, AcceptsResult, RecallOf, Get, Caught, FlagCode, RoleOf, BasisOf, Diagnostic;
    forall p | p in gate.policies 
      ensures gate.policies[p] == GateCell(c, gate.eligible, body.policies[p].counts)
      ensures Priced(c, gate.eligible, body.policies[p].counts)
    {
      AcceptedCellIsDerived(c, gate.eligible, gate.policies[p], body.policies[p].counts);
    }
    assert gate.policies == GateOf(c, body).policies;
  }

  /** Whoever wrote it, an accepted report's summary is the one its classes give. */
  lemma AcceptedSummaryIsDerived(gate: Summary, classes: Classes)
    requires Accepts(gate, classes)
    ensures GateSummary(classes) == Some(gate)
  {
    hide AcceptsGate, AcceptsClass, Derivable, GateOf, AllPriced, Complete;
    forall c | c in gate ensures gate[c] == GateOf(c, classes[c]) && AllPriced(c, classes[c]) {
      AcceptedClassIsDerived(c, gate[c], classes[c]);
    }
    assert gate == map c | c in classes :: GateOf(c, classes[c]);
  }

  /** A bound appears exactly for confirmed classes at the cluster floor, and it is
      the exact binomial bound on the misses of the contract's own counter. */
  lemma AcceptedBoundsAreOwed(gate: Summary, classes: Classes, c: ClassName, p: string)
    requires Accepts(gate, classes) && c in gate && p in gate[c].policies
    ensures c in classes && p in classes[c].policies
    ensures var cell, n := gate[c].policies[p], Get(classes[c].policies[p].counts, "n");
      && (cell.bound.Some? <==> RoleOf(c) == Confirmed && n >= TARGET)
      && (cell.bound.Some? ==>
            && 0 <= n - Caught(c, classes[c].policies[p].counts) <= n
            && cell.bound.value == Binomial.UpperBound(n - Caught(c, classes[c].policies[p].counts), n, CONFIDENCE))
  {
    hide AcceptsGate, AcceptsClass, Derivable, Complete, Binomial.UpperBound, Get, Caught, RoleOf;
    CellBoundIsOwed(c, gate[c], classes[c], p);
  }

  lemma CellBoundIsOwed(c: ClassName, gate: GateBody, body: ClassBody, p: string)
    requires AcceptsGate(c, gate) && AcceptsClass(c, body) && Derivable(c, gate, body) && p in gate.policies
    ensures p in body.policies
    ensures var cell, n := gate.policies[p], Get(body.policies[p].counts, "n");
      && (cell.bound.Some? <==> RoleOf(c) == Confirmed && n >= TARGET)
      && (cell.bound.Some? ==>
            && 0 <= n - Caught(c, body.policies[p].counts) <= n
            && cell.bound.value == Binomial.UpperBound(n - Caught(c, body.policies[p].counts), n, CONFIDENCE))
  {
    hide Binomial.UpperBound, AcceptsResult, RecallOf, Get, Caught, FlagCode, Diagnostic, AcceptsCell;
    var cell := gate.policies[p];
    assert AcceptsCell(cell, gate.eligible, RecallOf(c));
    OwedBound(cell, gate.eligible, RecallOf(c));
  }

  lemma OwedBound(cell: Cell, eligible: bool, recall: Recall)
    requires AcceptsCell(cell, eligible, recall)
    ensures cell.bound.Some? <==> eligible && cell.clusters >= TARGET
    ensures cell.bound.Some? ==>
              && 0 <= cell.missed == cell.clusters - cell.caught <= cell.clusters
              && cell.bound.value == Binomial.UpperBound(cell.missed, cell.clusters, CONFIDENCE)
  {
    hide Binomial.UpperBound;
  }

  // ----- sums over a counter -----

  ghost function SumValues(m: Counter): int {
    if m == map[] then 0
    else
      var k :| k in m;
      m[k] + SumValues(m - {k})
  }

  lemma {:induction false} SumWithout(m: Counter, k: string)
    requires k in m
    ensures SumValues(m) == m[k] + SumValues(m - {k})
    decreases |m|
  {
    var j :| j in m && SumValues(m) == m[j] + SumValues(m - {j});
    if j != k {
      SumWithout(m - {j}, k);
      SumWithout(m - {k}, j);
      assert m - {j} - {k} == m - {k} - {j};
    }
  }

  lemma SumAdds(m: Counter, k: string, v: int)
    ensures SumValues(m[k := Get(m, k) + v]) == SumValues(m) + v
  {
    var n := m[k := Get(m, k) + v];
    SumWithout(n, k);
    if k in m {
      SumWithout(m, k);
      assert n - {k} == m - {k};
    } else {
      assert n - {k} == m;
    }
  }

  // ----- the replay's counters -----

  function Count<P>(pairs: seq<P>, f: P -> bool): (n: nat)
    ensures n <= |pairs|
  {
    if pairs == [] then 0 else Count(pairs[..|pairs| - 1], f) + (if f(pairs[|pairs| - 1]) then 1 else 0)
  }

  lemma {:induction false} CountLaws<P>(pairs: seq<P>, f: P -> bool, g: P -> bool)
    requires forall p :: p in pairs && f(p) ==> g(p)
    ensures Count(pairs, f) <= Count(pairs, g)
    ensures Count(pairs, p => !f(p)) == |pairs| - Count(pairs, f)
    ensures Count(pairs, f) > 0 <==> exists p :: p in pairs && f(p)
    decreases |pairs|
  {
    if pairs != [] {
      var init, last := pairs[..|pairs| - 1], pairs[|pairs| - 1];
      assert pairs == init + [last];
      CountLaws(init, f, g);
    }
  }

  /** One screened mutant: the codes its flags carry and whether its control flagged. */
  datatype Pair = Pair(codes: set<string>, control: bool)

  predicate IsCaught(p: Pair) {
    p.codes != {}
  }

  predicate HasCode(p: Pair, code: string) {
    code in p.codes
  }

  predicate HasDiagnostic(p: Pair, expected: Option<string>) {
    expected.Some? && expected.value in p.codes
  }

  /** The six counters; no counter exists before the first mutant. */
  function CountsOf(pairs: seq<Pair>, expected: Option<string>): Counter {
    if pairs == [] then map[]
    else map[
      "n" := |pairs|,
      "caught" := Count(pairs, IsCaught),
      "expected_diagnostic" := Count(pairs, (p: Pair) => HasDiagnostic(p, expected)),
      "published" := Count(pairs, p => !IsCaught(p)),
      "control_review" := Count(pairs, (p: Pair) => p.control),
      "control_published" := Count(pairs, (p: Pair) => !p.control)]
  }

  function AllCodes(pairs: seq<Pair>): set<string> {
    set p, c | p in pairs && c in p.codes :: c
  }

  /** How many mutants raised each code that was raised at all. */
  function FlagsOf(pairs: seq<Pair>): Counter {
    map c | c in AllCodes(pairs) :: Count(pairs, (p: Pair) => HasCode(p, c))
  }

  lemma CountersAgree(pairs: seq<Pair>, expected: Option<string>)
    ensures Count(pairs, (p: Pair) => HasDiagnostic(p, expected)) <= Count(pairs, IsCaught) <= |pairs|
    ensures Count(pairs, p => !IsCaught(p)) == |pairs| - Count(pairs, IsCaught)
    ensures Count(pairs, (p: Pair) => !p.control) == |pairs| - Count(pairs, (p: Pair) => p.control)
    ensures Count(pairs, IsCaught) > 0 <==> AllCodes(pairs) != {}
  {
    CountLaws(pairs, (p: Pair) => HasDiagnostic(p, expected), IsCaught);
    CountLaws(pairs, IsCaught, IsCaught);
    CountLaws(pairs, (p: Pair) => p.control, (p: Pair) => true);
    if Count(pairs, IsCaught) > 0 {
      var p :| p in pairs && IsCaught(p);
      var c :| c in p.codes;
      assert c in AllCodes(pairs);
    }
  }

  // ----- the replay loops -----

  function AddCodes(flags: Counter, codes: set<string>): Counter {
    map c | c in flags.Keys + codes :: Get(flags, c) + One(c in codes)
  }

  /** One loop over a mutant's codes: each counter goes up by one. */
  method TallyCodes(flags: Counter, codes: set<string>) returns (r: Counter)
    ensures r == AddCodes(flags, codes)
  {
    r := flags;
    var left := codes;
    while left != {}
      invariant left <= codes && r.Keys == flags.Keys + (codes - left)
      invariant forall c :: c in r ==> r[c] == Get(flags, c) + One(c in codes && c !in left)
      decreases left
    {
      var c :| c in left;
      left := left - {c};
      r := r[c := Get(r, c) + 1];
    }
  }

  lemma CountGrows<P>(pairs: seq<P>, last: P, f: P -> bool)
    ensures Count(pairs + [last], f) == Count(pairs, f) + (if f(last) then 1 else 0)
  {
    var all := pairs + [last];
    assert all[..|all| - 1] == pairs && all[|all| - 1] == last;
  }

  lemma CodesGrow(pairs: seq<Pair>, last: Pair)
    ensures AllCodes(pairs + [last]) == AllCodes(pairs) + last.codes
  {
    var all := pairs + [last];
    assert all[|pairs|] == last;
    forall x ensures x in AllCodes(all) <==> x in AllCodes(pairs) + last.codes {
      if x in AllCodes(all) {
        var p :| p in all && x in p.codes;
        assert p in pairs || p == last;
      }
    }
  }

  lemma FlagsGrow(pairs: seq<Pair>, last: Pair)
    ensures FlagsOf(pairs + [last]) == AddCodes(FlagsOf(pairs), last.codes)
  {
    CodesGrow(pairs, last);
    hide Count, AllCodes;
    forall c | c in FlagsOf(pairs + [last])
      ensures FlagsOf(pairs + [last])[c] == Get(FlagsOf(pairs), c) + One(c in last.codes)
    {
      UnraisedIsZero(pairs, c);
      CountGrows(pairs, last, (p: Pair) => HasCode(p, c));
    }
  }

  lemma UnraisedIsZero(pairs: seq<Pair>, c: string)
    ensures c !in AllCodes(pairs) ==> Count(pairs, (p: Pair) => HasCode(p, c)) == 0
    ensures c in AllCodes(pairs) ==> Count(pairs, (p: Pair) => HasCode(p, c)) > 0
  {
    CountLaws(pairs, (p: Pair) => HasCode(p, c), (p: Pair) => HasCode(p, c));
    if c in AllCodes(pairs) {
      var p :| p in pairs && c in p.codes;
      assert HasCode(p, c);
    }
  }

  function NextCounts(counts: Counter, last: Pair, expected: Option<string>): Counter {
    map["n" := Get(counts, "n") + 1,
        "caught" := Get(counts, "caught") + One(IsCaught(last)),
        "expected_diagnostic" := Get(counts, "expected_diagnostic") + One(HasDiagnostic(last, expected)),
        "published" := Get(counts, "published") + One(!IsCaught(last)),
        "control_review" := Get(counts, "control_review") + One(last.control),
        "control_published" := Get(counts, "control_published") + One(!last.control)]
  }

  lemma CountsGrow(pairs: seq<Pair>, last: Pair, expected: Option<string>)
    ensures CountsOf(pairs + [last], expected) == NextCounts(CountsOf(pairs, expected), last, expected)
  {
    hide Count, IsCaught, HasDiagnostic;
    CountGrows(pairs, last, IsCaught);
    CountGrows(pairs, last, (p: Pair) => HasDiagnostic(p, expected));
    CountGrows(pairs, last, p => !IsCaught(p));
    CountGrows(pairs, last, (p: Pair) => p.control);
    CountGrows(pairs, last, (p: Pair) => !p.control);
  }

  lemma NothingYet(expected: Option<string>)
    ensures CountsOf([], expected) == map[] && FlagsOf([]) == map[]
  {
  }

  /** One policy cell: every counter and every flag, mutant by mutant. */
  method ReplayCell(pairs: seq<Pair>, expected: Option<string>) returns (r: Result)
    ensures r == Result(CountsOf(pairs, expected), FlagsOf(pairs))
  {
    hide CountsOf, FlagsOf, AddCodes, IsCaught, HasDiagnostic;
    var counts: Counter, flags: Counter := map[], map[];
    NothingYet(expected);
    for i := 0 to |pairs|
      invariant counts == CountsOf(pairs[..i], expected)
      invariant flags == FlagsOf(pairs[..i])
    {
      assert pairs[..i + 1] == pairs[..i] + [pairs[i]];
      CountsGrow(pairs[..i], pairs[i], expected);
      FlagsGrow(pairs[..i], pairs[i]);
      var caught := IsCaught(pairs[i]);
      counts := map[
        "n" := Get(counts, "n") + 1,
        "caught" := Get(counts, "caught") + One(caught),
        "expected_diagnostic" := Get(counts, "expected_diagnostic") + One(HasDiagnostic(pairs[i], expected)),
        "published" := Get(counts, "published") + One(!caught),
        "control_review" := Get(counts, "control_review") + One(pairs[i].control),
        "control_published" := Get(counts, "control_published") + One(!pairs[i].control)];
      flags := TallyCodes(flags, pairs[i].codes);
    }
    assert pairs[..|pairs|] == pairs;
    r := Result(counts, flags);
  }

  /** Raising a set of counters by one raises the total by the size of the set. */
  lemma {:induction false} SumAddsSet(m: Counter, codes: set<string>)
    ensures SumValues(AddCodes(m, codes)) == SumValues(m) + |codes|
    decreases |codes|
  {
    hide SumValues, AddCodes, Get;
    if codes == {} {
      AddNothing(m);
    } else {
      var k :| k in codes;
      SumAdds(m, k, 1);
      SumAddsSet(m[k := Get(m, k) + 1], codes - {k});
      AddOneFirst(m, codes, k);
    }
  }

  lemma AddNothing(m: Counter)
    ensures AddCodes(m, {}) == m
  {
    assert m.Keys + {} == m.Keys;
  }

  lemma AddOneFirst(m: Counter, codes: set<string>, k: string)
    requires k in codes
    ensures AddCodes(m[k := Get(m, k) + 1], codes - {k}) == AddCodes(m, codes)
  {
    var n := m[k := Get(m, k) + 1];
    assert n.Keys + (codes - {k}) == m.Keys + codes;
    forall c | c in m.Keys + codes
      ensures Get(n, c) + One(c in codes - {k}) == Get(m, c) + One(c in codes)
    {
      assert c != k ==> Get(n, c) == Get(m, c);
    }
  }

  /** Every caught mutant raises a code, so the flag total covers the caught count. */
  lemma {:induction false} FlagTotals(pairs: seq<Pair>)
    ensures SumValues(FlagsOf(pairs)) >= Count(pairs, IsCaught)
    decreases |pairs|
  {
    hide SumValues, FlagsOf, AddCodes;
    if pairs == [] {
      NothingYet(None);
      EmptySum();
    } else {
      var init, last := pairs[..|pairs| - 1], pairs[|pairs| - 1];
      assert pairs == init + [last];
      FlagTotals(init);
      CountGrows(init, last, IsCaught);
      FlagsGrow(init, last);
      SumAddsSet(FlagsOf(init), last.codes);
    }
  }

  lemma EmptySum()
    ensures SumValues(map[]) == 0
  {
  }

  /** Whatever was screened, the counters and flags of one cell pass the validator
      exactly when every raised code has the allowed shape. */
  lemma ReplayedCellAccepted(pairs: seq<Pair>, expected: Option<string>)
    ensures AcceptsResult(Result(CountsOf(pairs, expected), FlagsOf(pairs)), |pairs|) <==>
            forall c :: c in AllCodes(pairs) ==> FlagCode(c)
  {
    ReplayedCountsAccepted(pairs, expected);
    ReplayedFlagsPositive(pairs);
    hide Count, FlagCode, SumValues, AllCodes, IsCaught, AcceptsCounts;
  }

  lemma ReplayedFlagsPositive(pairs: seq<Pair>)
    ensures FlagsOf(pairs).Keys == AllCodes(pairs)
    ensures forall c :: c in FlagsOf(pairs) ==> 0 < FlagsOf(pairs)[c] <= |pairs|
  {
    hide Count, AllCodes;
    forall c | c in FlagsOf(pairs) ensures 0 < FlagsOf(pairs)[c] <= |pairs| {
      UnraisedIsZero(pairs, c);
    }
  }

  lemma ReplayedCountsAccepted(pairs: seq<Pair>, expected: Option<string>)
    ensures AcceptsCounts(CountsOf(pairs, expected), FlagsOf(pairs), |pairs|)
  {
    CountersAgree(pairs, expected);
    FlagTotals(pairs);
    ReplayedFlagsPositive(pairs);
    assert FlagsOf(pairs) != map[] <==> AllCodes(pairs) != {};
    hide Count, SumValues, AllCodes, IsCaught, FlagsOf;
    if pairs == [] {
      NothingYet(expected);
    } else {
      var counts := CountsOf(pairs, expected);
      assert counts.Keys == COUNT_KEYS;
      assert "n" in counts;
    }
  }

  // ----- producer and validator agree -----

  /** What was screened for each class and policy. */
  type Screening = (ClassName, string) -> seq<Pair>

  function ReplayClass(c: ClassName, mutants: nat, screened: Screening, excluded: Counter): ClassBody {
    ClassBody(mutants, BasisOf(c), RoleOf(c), RoleOf(c) == Confirmed, Diagnostic(c),
              map p | p in FROZEN :: Result(CountsOf(screened(c, p), Diagnostic(c)), FlagsOf(screened(c, p))),
              excluded)
  }

  function Replay(mutants: ClassName -> nat, screened: Screening, excluded: ClassName -> Counter): (r: Classes)
    ensures Complete(r)
  {
    map c | c in CLASS_ORDER :: ReplayClass(c, mutants(c), screened, excluded(c))
  }

  /** Every mutant is screened under every policy. */
  ghost predicate Screened(mutants: ClassName -> nat, screened: Screening) {
    forall c, p :: c in CLASS_ORDER && p in FROZEN ==> |screened(c, p)| == mutants(c)
  }

  /** The names and codes the producer lets into the report have the allowed shape. */
  ghost predicate Shapely(screened: Screening, excluded: ClassName -> Counter) {
    && (forall c, p, code :: c in CLASS_ORDER && p in FROZEN && code in AllCodes(screened(c, p)) ==> FlagCode(code))
    && (forall c, reason :: c in CLASS_ORDER && reason in excluded(c) ==> FlagCode(reason))
  }

  lemma ReplayedClassAccepted(c: ClassName, mutants: nat, screened: Screening, excluded: Counter)
    requires forall p :: p in FROZEN ==> |screened(c, p)| == mutants
    requires NonNegative(excluded)
    ensures AcceptsClass(c, ReplayClass(c, mutants, screened, excluded)) <==>
            && (forall p, code :: p in FROZEN && code in AllCodes(screened(c, p)) ==> FlagCode(code))
            && (forall reason :: reason in excluded ==> FlagCode(reason))
  {
    FrozenNames();
    hide AcceptsResult, FlagCode, AllCodes, CountsOf, FlagsOf, BasisOf, Diagnostic;
    var body := ReplayClass(c, mutants, screened, excluded);
    forall p | p in FROZEN
      ensures AcceptsResult(body.policies[p], mutants) <==> forall code :: code in AllCodes(screened(c, p)) ==> FlagCode(code)
    {
      ReplayedCellAccepted(screened(c, p), Diagnostic(c));
    }
  }

  lemma FrozenNames()
    ensures forall p :: p in FROZEN ==> FlagCode(p)
  {
  }

  lemma CaughtWithin(pairs: seq<Pair>, c: ClassName)
    ensures var k := CountsOf(pairs, Diagnostic(c));
      && Get(k, "n") == |pairs|
      && 0 <= Caught(c, k) <= Get(k, "caught") <= Get(k, "n")
  {
    CountersAgree(pairs, Diagnostic(c));
    hide Count;
  }

  lemma ReplayedGateAccepted(c: ClassName, mutants: nat, screened: Screening, excluded: Counter)
    ensures var body := ReplayClass(c, mutants, screened, excluded);
      AcceptsGate(c, GateOf(c, body)) && Derivable(c, GateOf(c, body), body) && AllPriced(c, body)
  {
    FrozenNames();
    hide FlagCode, CountsOf, FlagsOf, BasisOf, Binomial.UpperBound, GateCell, AcceptsCell, Priced, RecallOf, Diagnostic;
    var body := ReplayClass(c, mutants, screened, excluded);
    forall p | p in FROZEN 
      ensures AcceptsCell(GateOf(c, body).policies[p], RoleOf(c) != Candidate, RecallOf(c))
      ensures Priced(c, RoleOf(c) != Candidate, body.policies[p].counts)
    {
      CaughtWithin(screened(c, p), c);
      GateCellAccepted(c, RoleOf(c) != Candidate, CountsOf(screened(c, p), Diagnostic(c)));
    }
    forall p | p in FROZEN
      ensures var cell, k := GateOf(c, body).policies[p], body.policies[p].counts;
        cell.clusters == Get(k, "n") && cell.anyFlag == Get(k, "caught") && cell.caught == Caught(c, k)
    {
      GateCellFields(c, RoleOf(c) != Candidate, body.policies[p].counts);
    }
  }

  lemma GateCellFields(c: ClassName, eligible: bool, counts: Counter)
    ensures var cell := GateCell(c, eligible, counts);
      cell.clusters == Get(counts, "n") && cell.anyFlag == Get(counts, "caught") && cell.caught == Caught(c, counts)
  {
  }

  lemma GateCellAccepted(c: ClassName, eligible: bool, counts: Counter)
    requires 0 <= Caught(c, counts) <= Get(counts, "caught") <= Get(counts, "n")
    ensures AcceptsCell(GateCell(c, eligible, counts), eligible, RecallOf(c)) && Priced(c, eligible, counts)
  {
    var n, caught := Get(counts, "n"), Caught(c, counts);
    if n > 0 {
      BoundInUnit(n - caught, n);
    }
    hide Binomial.UpperBound, Get;
  }

  lemma BoundInUnit(missed: nat, n: nat)
    requires missed <= n && n > 0
    ensures 0.0 <= Binomial.UpperBound(missed, n, CONFIDENCE) <= 1.0
  {
    hide Binomial.Bisect;
    Binomial.BisectBrackets(missed, n, 1.0 - CONFIDENCE, Binomial.STEPS);
  }

  /** The report the runner builds is accepted by its own validator exactly when every
      code and reason in it has the allowed shape. */
  lemma ReplayedReportAcceptedIff(mutants: ClassName -> nat, screened: Screening, excluded: ClassName -> Counter)
    requires Screened(mutants, screened)
    requires forall c :: c in CLASS_ORDER ==> NonNegative(excluded(c))
    ensures var classes := Replay(mutants, screened, excluded);
      && GateSummary(classes).Some?
      && (Accepts(GateSummary(classes).value, classes) <==> Shapely(screened, excluded))
  {
    hide AcceptsGate, AcceptsClass, Derivable, GateOf, AllPriced, ReplayClass, FlagCode, AllCodes;
    var classes := Replay(mutants, screened, excluded);
    forall c | c in CLASS_ORDER
      ensures AllPriced(c, classes[c])
      ensures AcceptsGate(c, GateOf(c, classes[c])) && Derivable(c, GateOf(c, classes[c]), classes[c])
      ensures AcceptsClass(c, classes[c]) <==>
              && (forall p, code :: p in FROZEN && code in AllCodes(screened(c, p)) ==> FlagCode(code))
              && (forall reason :: reason in excluded(c) ==> FlagCode(reason))
    {
      ReplayedGateAccepted(c, mutants(c), screened, excluded(c));
      ReplayedClassAccepted(c, mutants(c), screened, excluded(c));
    }
  }
}
