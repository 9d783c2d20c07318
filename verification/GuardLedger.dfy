/** Replaying one guard policy over saved answers: what each policy flags, and the
    cost and benefit ledger of a run. */
module GuardLedger {
  import opened Options
  import opened Tally

  datatype Verdict = Correct | Review | Wrong

  /** A flag code with the items it names. */
  datatype Flag = Flag(code: string, items: seq<string>)

  /** What a cited passage handle may be in a saved file. */
  datatype Claim = Cites(handle: int) | CitesTruth(truth: bool) | NoHandle

  datatype Row = Row(question: Option<string>, answer: string, raw: string, claims: seq<Claim>, context: string)
  datatype Reply = Raw(text: string) | Parsed(claims: seq<Claim>, answer: string)
  datatype Scored = Scored(verdict: Verdict, pageCorrect: bool)

  /** The judge and the validators, each a function of the saved text; the last
      argument of a check is the saved context. */
  datatype Guard = Guard(
    check: (string, string) -> seq<Flag>,
    checkStructured: (Reply, string) -> seq<Flag>,
    checkBinding: (string, string, Option<seq<int>>, string) -> seq<Flag>,
    isAbstention: string -> bool,
    citedPages: string -> seq<int>,
    score: (string, string, string) -> Scored)

  datatype Policy = Plain | StructuredDerived | StructuredExplicit | PlainBinding | StructuredDerivedBinding

  const MISSING_PAGE := "eksik_sayfa"

  // ----- the flags of one row -----

  function ReplyOf(row: Row): Reply {
    if row.raw != "" then Raw(row.raw) else Parsed(row.claims, row.answer)
  }

  /** The integer handles; a saved truth value counts as one. */
  function Handles(claims: seq<Claim>): seq<int> {
    if claims == [] then []
    else
      var rest := Handles(claims[1..]);
      match claims[0]
      case Cites(h) => [h] + rest
      case CitesTruth(b) => [if b then 1 else 0] + rest
      case NoHandle => rest
  }

  function BindingFlags(g: Guard, row: Row): seq<Flag> {
    var question := if row.question.Some? then row.question.value else "";
    var handles := Handles(row.claims);
    g.checkBinding(question, row.answer, if handles == [] then None else Some(handles), row.context)
  }

  predicate HasCode(flags: seq<Flag>, code: string) {
    exists i | 0 <= i < |flags| :: flags[i].code == code
  }

  function ReplayFlags(g: Guard, row: Row, policy: Policy): seq<Flag> {
    match policy
    case Plain => g.check(row.answer, row.context)
    case PlainBinding => g.check(row.answer, row.context) + BindingFlags(g, row)
    case StructuredDerivedBinding => g.checkStructured(ReplyOf(row), row.context) + BindingFlags(g, row)
    case StructuredDerived => g.checkStructured(ReplyOf(row), row.context)
    case StructuredExplicit =>
      var flags := g.checkStructured(ReplyOf(row), row.context);
      if !g.isAbstention(row.answer) && g.citedPages(row.answer) == [] && !HasCode(flags, MISSING_PAGE)
      then flags + [Flag(MISSING_PAGE, [])]
      else flags
  }

  function Codes(flags: seq<Flag>): set<string> {
    set i | 0 <= i < |flags| :: flags[i].code
  }

  /** The second policy only adds flags to the first. */
  predicate Extends(p: Policy, q: Policy) {
    || p == q
    || (p == Plain && q == PlainBinding)
    || (p == StructuredDerived && (q == StructuredExplicit || q == StructuredDerivedBinding))
  }

  lemma CodesOfSum(a: seq<Flag>, b: seq<Flag>)
    ensures Codes(a + b) == Codes(a) + Codes(b)
  {
    forall c | c in Codes(a) + Codes(b) ensures c in Codes(a + b) {
      if c in Codes(a) {
        var i :| 0 <= i < |a| && a[i].code == c;
        assert (a + b)[i].code == c;
      } else {
        var i :| 0 <= i < |b| && b[i].code == c;
        assert (a + b)[|a| + i].code == c;
      }
    }
  }

  lemma ExtendedCodes(g: Guard, row: Row, p: Policy, q: Policy)
    requires Extends(p, q)
    ensures Codes(ReplayFlags(g, row, p)) <= Codes(ReplayFlags(g, row, q))
  {
    hide Codes, BindingFlags, HasCode;
    CodesOfSum(g.check(row.answer, row.context), BindingFlags(g, row));
    CodesOfSum(g.checkStructured(ReplyOf(row), row.context), BindingFlags(g, row));
    CodesOfSum(g.checkStructured(ReplyOf(row), row.context), [Flag(MISSING_PAGE, [])]);
  }

  // ----- what the counters mean -----

  /** One recorded answer. */
  datatype Entry = Entry(scored: Scored, answer: string, flags: seq<Flag>)

  datatype Metric =
    | Total | OfVerdict(verdict: Verdict)
    | ExplicitPage | PageCorrect | Abstained
    | GuardReview | CorrectWithheld | NoncorrectCaught | SettledWrongCaught
    | Published | NoncorrectPublished | SettledWrongPublished

  datatype Column = Raised | Under(verdict: Verdict) | Exclusive | ExclusiveUnder(verdict: Verdict)
  datatype FlagKey = FlagKey(code: string, column: Column)

  /** Anything the ledger counts, and two things it does not: unflagged abstentions, and
      published answers that cite no page. */
  datatype Tick = OfRow(metric: Metric) | OfFlag(key: FlagKey) | QuietAbstention | UncitedAnswer

  predicate Flagged(e: Entry) {
    Codes(e.flags) != {}
  }

  predicate Publishes(g: Guard, e: Entry) {
    !Flagged(e) && !g.isAbstention(e.answer)
  }

  predicate RowTicks(g: Guard, m: Metric, e: Entry) {
    var v := e.scored.verdict;
    match m
    case Total => true
    case OfVerdict(w) => v == w
    case ExplicitPage => g.citedPages(e.answer) != []
    case PageCorrect => e.scored.pageCorrect
    case Abstained => g.isAbstention(e.answer)
    case GuardReview => Flagged(e)
    case CorrectWithheld => Flagged(e) && v == Correct
    case NoncorrectCaught => Flagged(e) && v != Correct
    case SettledWrongCaught => Flagged(e) && v == Wrong
    case Published => Publishes(g, e)
    case NoncorrectPublished => Publishes(g, e) && v != Correct
    case SettledWrongPublished => Publishes(g, e) && v == Wrong
  }

  /** Counters that do not depend on the flags. */
  predicate IsFact(m: Metric) {
    m.Total? || m.OfVerdict? || m.ExplicitPage? || m.PageCorrect? || m.Abstained?
  }

  predicate FlagTicks(k: FlagKey, e: Entry) {
    var codes := Codes(e.flags);
    k.code in codes &&
    match k.column
    case Raised => true
    case Under(v) => e.scored.verdict == v
    case Exclusive => codes == {k.code}
    case ExclusiveUnder(v) => codes == {k.code} && e.scored.verdict == v
  }

  predicate Ticks(g: Guard, t: Tick, e: Entry) {
    match t
    case OfRow(m) => RowTicks(g, m, e)
    case OfFlag(k) => FlagTicks(k, e)
    case QuietAbstention => !Flagged(e) && g.isAbstention(e.answer)
    case UncitedAnswer => Publishes(g, e) && g.citedPages(e.answer) == []
  }

  function Count(g: Guard, t: Tick, es: seq<Entry>): nat {
    if es == [] then 0
    else Count(g, t, es[..|es| - 1]) + if Ticks(g, t, es[|es| - 1]) then 1 else 0
  }

  lemma NothingCounted(g: Guard, t: Tick)
    ensures Count(g, t, []) == 0
  {
  }

  lemma CountOneMore(g: Guard, t: Tick, es: seq<Entry>, e: Entry)
    ensures Count(g, t, es + [e]) == Count(g, t, es) + if Ticks(g, t, e) then 1 else 0
  {
    assert (es + [e])[..|es|] == es;
  }

  lemma {:induction false} CountOfSum(g: Guard, t: Tick, a: seq<Entry>, b: seq<Entry>)
    ensures Count(g, t, a + b) == Count(g, t, a) + Count(g, t, b)
    decreases |b|
  {
    if b == [] {
      assert a + b == a;
    } else {
      CountOfSum(g, t, a, b[..|b| - 1]);
      assert (a + b)[..|a + b| - 1] == a + b[..|b| - 1];
    }
  }

  // ----- recording -----

  const FRESH_SUMMARY: map<Metric, nat> := map[
    Total := 0, OfVerdict(Correct) := 0, OfVerdict(Review) := 0, OfVerdict(Wrong) := 0,
    ExplicitPage := 0, PageCorrect := 0, Abstained := 0, GuardReview := 0, CorrectWithheld := 0,
    NoncorrectCaught := 0, SettledWrongCaught := 0, Published := 0, NoncorrectPublished := 0,
    SettledWrongPublished := 0]

  lemma FreshIsZero(m: Metric)
    ensures m in FRESH_SUMMARY && FRESH_SUMMARY[m] == 0
  {
    if m.OfVerdict? {
      match m.verdict
      case Correct =>
      case Review =>
      case Wrong =>
    }
  }

  lemma RowStep(before: map<Metric, nat>, after: map<Metric, nat>, g: Guard, m: Metric, es: seq<Entry>, e: Entry)
    requires m in before && before[m] == Count(g, OfRow(m), es)
    requires before.Keys <= after.Keys
    requires At(after, m)
          == At(before, m) + One(IsFact(m) && RowTicks(g, m, e)) + One(!IsFact(m) && RowTicks(g, m, e))
    ensures m in after && after[m] == Count(g, OfRow(m), es + [e])
  {
    hide RowTicks, IsFact, Count;
    CountOneMore(g, OfRow(m), es, e);
  }

  lemma FlagStep(g: Guard, k: FlagKey, es: seq<Entry>, e: Entry)
    ensures Count(g, OfFlag(k), es + [e]) == Count(g, OfFlag(k), es) + One(FlagTicks(k, e))
    ensures Count(g, OfFlag(k), es + [e]) > 0 <==> Count(g, OfFlag(k), es) > 0 || FlagTicks(k, e)
  {
    hide FlagTicks, Count;
    CountOneMore(g, OfFlag(k), es, e);
  }

  /** The two counters of one ledger, updated together. */
  class Counters {
    const guard: Guard
    var summary: map<Metric, nat>
    var tally: map<FlagKey, nat>
    ghost var history: seq<Entry>

    /** Both counters count the answers recorded so far, and no flag key is held for nothing. */
    ghost predicate Valid()
      reads this
    {
      && (forall m: Metric :: m in summary && summary[m] == Count(guard, OfRow(m), history))
      && (forall k: FlagKey :: At(tally, k) == Count(guard, OfFlag(k), history))
      && (forall k: FlagKey :: k in tally <==> Count(guard, OfFlag(k), history) > 0)
    }

    constructor (g: Guard)
      ensures guard == g && history == [] && Valid()
    {
      guard := g;
      summary := FRESH_SUMMARY;
      tally := map[];
      history := [];
      new;
      forall m: Metric ensures m in summary && summary[m] == 0 {
        FreshIsZero(m);
      }
    }

    /** The counters every answer moves. */
    method RecordFacts(e: Entry)
      modifies `summary
      ensures old(summary).Keys <= summary.Keys
      ensures forall m: Metric :: At(summary, m) == At(old(summary), m) + One(IsFact(m) && RowTicks(guard, m, e))
    {
      hide At, Plus, Codes, Publishes, Flagged;
      var s := Plus(summary, Total, 1);
      s := Plus(s, OfVerdict(e.scored.verdict), 1);
      s := Plus(s, ExplicitPage, One(guard.citedPages(e.answer) != []));
      s := Plus(s, PageCorrect, One(e.scored.pageCorrect));
      summary := Plus(s, Abstained, One(guard.isAbstention(e.answer)));
    }

    /** The counters a flagged or a published answer moves. */
    method RecordOutcome(e: Entry)
      modifies `summary
      ensures old(summary).Keys <= summary.Keys
      ensures forall m: Metric :: At(summary, m) == At(old(summary), m) + One(!IsFact(m) && RowTicks(guard, m, e))
    {
      hide At, Plus, Codes;
      var verdict := e.scored.verdict;
      var s := summary;
      if Codes(e.flags) != {} {
        s := Plus(s, GuardReview, 1);
        if verdict == Correct {
          s := Plus(s, CorrectWithheld, 1);
        } else {
          s := Plus(s, NoncorrectCaught, 1);
        }
        if verdict == Wrong {
          s := Plus(s, SettledWrongCaught, 1);
        }
      } else if !guard.isAbstention(e.answer) {
        s := Plus(s, Published, 1);
        if verdict != Correct {
          s := Plus(s, NoncorrectPublished, 1);
        }
        if verdict == Wrong {
          s := Plus(s, SettledWrongPublished, 1);
        }
      }
      summary := s;
    }

    method RecordCode(code: string, e: Entry)
      requires code in Codes(e.flags)
      modifies `tally
      ensures forall k: FlagKey :: At(tally, k) == At(old(tally), k) + One(k.code == code && FlagTicks(k, e))
      ensures forall k: FlagKey :: k in tally <==> k in old(tally) || (k.code == code && FlagTicks(k, e))
    {
      hide At, Plus, Codes;
      Alone(Codes(e.flags), code);
      var t := Plus(tally, FlagKey(code, Raised), 1);
      t := Plus(t, FlagKey(code, Under(e.scored.verdict)), 1);
      if |Codes(e.flags)| == 1 {
        t := Plus(t, FlagKey(code, Exclusive), 1);
        t := Plus(t, FlagKey(code, ExclusiveUnder(e.scored.verdict)), 1);
      }
      tally := t;
    }

    method RecordFlags(e: Entry)
      modifies `tally
      ensures forall k: FlagKey :: At(tally, k) == At(old(tally), k) + One(FlagTicks(k, e))
      ensures forall k: FlagKey :: k in tally <==> k in old(tally) || FlagTicks(k, e)
    {
      hide At, Codes;
      var rest := Codes(e.flags);
      while rest != {}
        invariant rest <= Codes(e.flags)
        invariant forall k: FlagKey ::
                    At(tally, k) == At(old(tally), k) + One(k.code !in rest && FlagTicks(k, e))
        invariant forall k: FlagKey :: k in tally <==> k in old(tally) || (k.code !in rest && FlagTicks(k, e))
      {
        var code :| code in rest;
        RecordCode(code, e);
        rest := rest - {code};
      }
    }

    /** Records one answer in both counters. */
    method Record(scored: Scored, answer: string, flags: seq<Flag>)
      requires Valid()
      modifies this
      ensures Valid() && history == old(history) + [Entry(scored, answer, flags)]
    {
      hide At, One, RowTicks, FlagTicks, Count;
      var e := Entry(scored, answer, flags);
      RecordFacts(e);
      RecordOutcome(e);
      RecordFlags(e);
      history := history + [e];
      forall m: Metric
        ensures m in summary && summary[m] == Count(guard, OfRow(m), history)
      {
        RowStep(old(summary), summary, guard, m, old(history), e);
      }
      forall k: FlagKey
        ensures At(tally, k) == Count(guard, OfFlag(k), history)
        ensures k in tally <==> Count(guard, OfFlag(k), history) > 0
      {
        FlagStep(guard, k, old(history), e);
      }
    }
  }

  // ----- one run -----

  /** A saved result file; its questions when the question file exists. */
  datatype File = File(name: string, questions: Option<map<string, string>>, rows: seq<Row>)

  /** The entry a row contributes: none when its question is not in the set. */
  function EntryOf(g: Guard, questions: map<string, string>, row: Row, policy: Policy): seq<Entry> {
    if row.question.None? || row.question.value !in questions then []
    else [Entry(g.score(questions[row.question.value], row.answer, row.context), row.answer,
                ReplayFlags(g, row, policy))]
  }

  function RowEntries(g: Guard, questions: map<string, string>, rows: seq<Row>, policy: Policy): seq<Entry> {
    if rows == [] then []
    else RowEntries(g, questions, rows[..|rows| - 1], policy) + EntryOf(g, questions, rows[|rows| - 1], policy)
  }

  lemma NoRowEntries(g: Guard, questions: map<string, string>, rows: seq<Row>, policy: Policy)
    ensures RowEntries(g, questions, rows[..0], policy) == []
  {
  }

  lemma NextRowEntries(g: Guard, questions: map<string, string>, rows: seq<Row>, i: nat, policy: Policy)
    requires i < |rows|
    ensures RowEntries(g, questions, rows[..i + 1], policy)
         == RowEntries(g, questions, rows[..i], policy) + EntryOf(g, questions, rows[i], policy)
  {
    assert rows[..i + 1][..i] == rows[..i];
  }

  /** Budget sweeps and files without questions are passed over. */
  predicate Kept(isSweep: string -> bool, f: File) {
    !isSweep(f.name) && f.questions.Some?
  }

  function FileEntries(g: Guard, isSweep: string -> bool, f: File, policy: Policy): seq<Entry> {
    if Kept(isSweep, f) then RowEntries(g, f.questions.value, f.rows, policy) else []
  }

  function RunEntries(g: Guard, isSweep: string -> bool, files: seq<File>, policy: Policy): seq<Entry> {
    if files == [] then []
    else RunEntries(g, isSweep, files[..|files| - 1], policy)
         + FileEntries(g, isSweep, files[|files| - 1], policy)
  }

  const COLUMNS: set<Column> := {
    Raised, Under(Correct), Under(Review), Under(Wrong), Exclusive,
    ExclusiveUnder(Correct), ExclusiveUnder(Review), ExclusiveUnder(Wrong)}

  datatype Section = Section(summary: map<Metric, nat>, flags: map<string, map<Column, nat>>)
  datatype Report = Report(resultFiles: nat, total: Section, sets: map<string, Section>)

  function TalliedCodes(tally: map<FlagKey, nat>): set<string> {
    set k | k in tally :: k.code
  }

  function Fields(tally: map<FlagKey, nat>, code: string): map<Column, nat> {
    map column | column in COLUMNS :: At(tally, FlagKey(code, column))
  }

  function FlagReport(tally: map<FlagKey, nat>): map<string, map<Column, nat>> {
    map code | code in TalliedCodes(tally) :: Fields(tally, code)
  }

  /** The section reports exactly these entries. */
  ghost predicate Reports(g: Guard, es: seq<Entry>, s: Section) {
    && (forall m: Metric :: m in s.summary && s.summary[m] == Count(g, OfRow(m), es))
    && (forall code :: code in s.flags <==> Count(g, OfFlag(FlagKey(code, Raised)), es) > 0)
    && (forall code :: code in s.flags ==> s.flags[code].Keys == COLUMNS)
    && (forall code, column :: code in s.flags && column in COLUMNS ==>
          s.flags[code][column] == Count(g, OfFlag(FlagKey(code, column)), es))
  }

  lemma {:induction false} RaisedWhenTicked(g: Guard, k: FlagKey, es: seq<Entry>)
    ensures Count(g, OfFlag(k), es) <= Count(g, OfFlag(FlagKey(k.code, Raised)), es)
    decreases |es|
  {
    if es != [] {
      RaisedWhenTicked(g, k, es[..|es| - 1]);
    }
  }

  lemma TalliedIffRaised(g: Guard, es: seq<Entry>, tally: map<FlagKey, nat>, code: string)
    requires forall k: FlagKey :: k in tally <==> Count(g, OfFlag(k), es) > 0
    ensures code in TalliedCodes(tally) <==> Count(g, OfFlag(FlagKey(code, Raised)), es) > 0
  {
    hide Count;
    if code in TalliedCodes(tally) {
      var k :| k in tally && k.code == code;
      RaisedWhenTicked(g, k, es);
    } else {
      assert FlagKey(code, Raised).code == code;
    }
  }

  lemma SectionReports(g: Guard, es: seq<Entry>, summary: map<Metric, nat>, tally: map<FlagKey, nat>)
    requires forall m: Metric :: m in summary && summary[m] == Count(g, OfRow(m), es)
    requires forall k: FlagKey :: At(tally, k) == Count(g, OfFlag(k), es)
    requires forall k: FlagKey :: k in tally <==> Count(g, OfFlag(k), es) > 0
    ensures Reports(g, es, Section(summary, FlagReport(tally)))
  {
    hide Count, At, TalliedCodes;
    forall code ensures code in TalliedCodes(tally) <==> Count(g, OfFlag(FlagKey(code, Raised)), es) > 0 {
      TalliedIffRaised(g, es, tally, code);
    }
  }

  method MeasureSet(g: Guard, f: File, policy: Policy, total: Counters) returns (counters: Counters)
    requires f.questions.Some? && total.Valid() && total.guard == g
    modifies total
    ensures total.Valid() && total.history == old(total.history) + RowEntries(g, f.questions.value, f.rows, policy)
    ensures fresh(counters) && counters.Valid() && counters.guard == g
    ensures counters.history == RowEntries(g, f.questions.value, f.rows, policy)
  {
    hide ReplayFlags, Count, RowEntries;
    NoRowEntries(g, f.questions.value, f.rows, policy);
    counters := new Counters(g);
    var questions := f.questions.value;
    var i := 0;
    while i < |f.rows|
      invariant 0 <= i <= |f.rows|
      invariant counters.Valid() && counters.guard == g && total.Valid()
      invariant counters.history == RowEntries(g, questions, f.rows[..i], policy)
      invariant total.history == old(total.history) + counters.history
    {
      var row := f.rows[i];
      NextRowEntries(g, questions, f.rows, i, policy);
      if row.question.Some? && row.question.value in questions {
        var scored := g.score(questions[row.question.value], row.answer, row.context);
        var flags := ReplayFlags(g, row, policy);
        counters.Record(scored, row.answer, flags);
        total.Record(scored, row.answer, flags);
      }
      i := i + 1;
    }
    assert f.rows[..|f.rows|] == f.rows;
  }

  function KeptCount(isSweep: string -> bool, files: seq<File>): nat {
    if files == [] then 0
    else KeptCount(isSweep, files[..|files| - 1]) + One(Kept(isSweep, files[|files| - 1]))
  }

  /** Result files of one directory have different names. */
  predicate DistinctNames(files: seq<File>) {
    forall i, j :: 0 <= i < j < |files| ==> files[i].name != files[j].name
  }

  ghost predicate SetsReport(g: Guard, isSweep: string -> bool, files: seq<File>, policy: Policy,
      sets: map<string, Section>)
  {
    && (forall name :: name in sets <==> exists i :: 0 <= i < |files| && Kept(isSweep, files[i]) && files[i].name == name)
    && (forall i :: 0 <= i < |files| && Kept(isSweep, files[i]) && files[i].name in sets ==>
          Reports(g, FileEntries(g, isSweep, files[i], policy), sets[files[i].name]))
  }

  /** Every file of the run, in name order. */
  method MeasureRun(g: Guard, isSweep: string -> bool, files: seq<File>, policy: Policy) returns (report: Report)
    requires DistinctNames(files)
    ensures report.resultFiles == KeptCount(isSweep, files)
    ensures Reports(g, RunEntries(g, isSweep, files, policy), report.total)
    ensures SetsReport(g, isSweep, files, policy, report.sets)
  {
    hide *;
    var total := new Counters(g);
    var sets: map<string, Section> := map[];
    var resultFiles := 0;
    var i := 0;
    NoFiles(g, isSweep, policy);
    while i < |files|
      invariant 0 <= i <= |files|
      invariant total.Valid() && total.guard == g
      invariant total.history == RunEntries(g, isSweep, files[..i], policy)
      invariant resultFiles == KeptCount(isSweep, files[..i])
      invariant SetsReport(g, isSweep, files[..i], policy, sets)
    {
      var f := files[i];
      NamesStep(files, i);
      OneMoreFile(g, isSweep, files[..i], f, policy, sets);
      if Kept(isSweep, f) {
        var counters := MeasureSet(g, f, policy, total);
        var section := SectionOf(g, counters);
        SetsStep(g, isSweep, files[..i], f, policy, sets, section);
        sets := sets[f.name := section];
        resultFiles := resultFiles + 1;
      }
      i := i + 1;
    }
    assert files[..|files|] == files;
    var section := SectionOf(g, total);
    report := Report(resultFiles, section, sets);
  }

  method SectionOf(g: Guard, counters: Counters) returns (section: Section)
    requires counters.Valid() && counters.guard == g
    ensures Reports(g, counters.history, section)
  {
    hide Reports, Count, At, FlagReport;
    SectionReports(g, counters.history, counters.summary, counters.tally);
    section := Section(counters.summary, FlagReport(counters.tally));
  }

  lemma NamesStep(files: seq<File>, i: nat)
    requires DistinctNames(files) && i < |files|
    ensures files[..i + 1] == files[..i] + [files[i]]
    ensures forall j :: 0 <= j < |files[..i]| ==> files[..i][j].name != files[i].name
  {
  }

  lemma NoFiles(g: Guard, isSweep: string -> bool, policy: Policy)
    ensures RunEntries(g, isSweep, [], policy) == [] && KeptCount(isSweep, []) == 0
    ensures SetsReport(g, isSweep, [], policy, map[])
  {
  }

  lemma OneMoreFile(g: Guard, isSweep: string -> bool, files: seq<File>, f: File, policy: Policy,
      sets: map<string, Section>)
    requires SetsReport(g, isSweep, files, policy, sets)
    ensures KeptCount(isSweep, files + [f]) == KeptCount(isSweep, files) + if Kept(isSweep, f) then 1 else 0
    ensures Kept(isSweep, f) ==> f.questions.Some?
    ensures Kept(isSweep, f) ==>
              FileEntries(g, isSweep, f, policy) == RowEntries(g, f.questions.value, f.rows, policy)
    ensures RunEntries(g, isSweep, files + [f], policy)
         == RunEntries(g, isSweep, files, policy)
            + if Kept(isSweep, f) then FileEntries(g, isSweep, f, policy) else []
    ensures !Kept(isSweep, f) ==> SetsReport(g, isSweep, files + [f], policy, sets)
    ensures !Kept(isSweep, f) ==> RunEntries(g, isSweep, files + [f], policy) == RunEntries(g, isSweep, files, policy)
  {
    hide Reports, RowEntries;
    var all := files + [f];
    assert all[..|files|] == files;
    if !Kept(isSweep, f) {
      forall name
        ensures name in sets <==> exists i :: 0 <= i < |all| && Kept(isSweep, all[i]) && all[i].name == name
      {
        if name in sets {
          var i :| 0 <= i < |files| && Kept(isSweep, files[i]) && files[i].name == name;
          assert all[i] == files[i];
        }
      }
    }
  }

  lemma SetsStep(g: Guard, isSweep: string -> bool, files: seq<File>, f: File, policy: Policy,
      sets: map<string, Section>, section: Section)
    requires SetsReport(g, isSweep, files, policy, sets)
    requires Kept(isSweep, f) && forall i :: 0 <= i < |files| ==> files[i].name != f.name
    requires Reports(g, FileEntries(g, isSweep, f, policy), section)
    ensures SetsReport(g, isSweep, files + [f], policy, sets[f.name := section])
  {
    hide Reports, FileEntries, Kept;
    var all := files + [f];
    var next := sets[f.name := section];
    forall name
      ensures name in next <==> exists i :: 0 <= i < |all| && Kept(isSweep, all[i]) && all[i].name == name
    {
      if name == f.name {
        assert all[|files|] == f;
      } else if name in sets {
        var i :| 0 <= i < |files| && Kept(isSweep, files[i]) && files[i].name == name;
        assert all[i] == files[i];
      }
    }
  }

  // ----- conservation -----

  /** What one answer adds to each of the rows below. */
  lemma AnswerTicks(g: Guard, e: Entry)
    ensures Ticks(g, OfRow(Total), e)
    ensures One(Ticks(g, OfRow(OfVerdict(Correct)), e)) + One(Ticks(g, OfRow(OfVerdict(Review)), e))
            + One(Ticks(g, OfRow(OfVerdict(Wrong)), e)) == 1
    ensures One(Ticks(g, OfRow(GuardReview), e)) + One(Ticks(g, OfRow(Published), e))
            + One(Ticks(g, QuietAbstention, e)) == 1
    ensures One(Ticks(g, OfRow(GuardReview), e))
         == One(Ticks(g, OfRow(CorrectWithheld), e)) + One(Ticks(g, OfRow(NoncorrectCaught), e))
    ensures One(Ticks(g, OfRow(SettledWrongCaught), e)) + One(Ticks(g, OfRow(SettledWrongPublished), e))
         <= One(Ticks(g, OfRow(OfVerdict(Wrong)), e))
    ensures Ticks(g, OfRow(NoncorrectPublished), e) ==> Ticks(g, OfRow(Published), e)
  {
    hide Flagged;
  }

  /** Every answer has one verdict, and is reviewed, published or quietly abstained. */
  lemma {:induction false} AnswersAreConserved(g: Guard, es: seq<Entry>)
    ensures Count(g, OfRow(Total), es) == |es|
    ensures |es| == Count(g, OfRow(OfVerdict(Correct)), es) + Count(g, OfRow(OfVerdict(Review)), es)
                    + Count(g, OfRow(OfVerdict(Wrong)), es)
    ensures |es| == Count(g, OfRow(GuardReview), es) + Count(g, OfRow(Published), es)
                    + Count(g, QuietAbstention, es)
    ensures Count(g, OfRow(GuardReview), es)
         == Count(g, OfRow(CorrectWithheld), es) + Count(g, OfRow(NoncorrectCaught), es)
    ensures Count(g, OfRow(SettledWrongCaught), es) + Count(g, OfRow(SettledWrongPublished), es)
         <= Count(g, OfRow(OfVerdict(Wrong)), es)
    ensures Count(g, OfRow(NoncorrectPublished), es) <= Count(g, OfRow(Published), es)
    decreases |es|
  {
    hide Ticks;
    if es != [] {
      AnswersAreConserved(g, es[..|es| - 1]);
      AnswerTicks(g, es[|es| - 1]);
    }
  }

  /** A flag's columns add up. */
  lemma {:induction false} FlagColumnsAdd(g: Guard, code: string, es: seq<Entry>)
    ensures Count(g, OfFlag(FlagKey(code, Raised)), es)
         == Count(g, OfFlag(FlagKey(code, Under(Correct))), es)
          + Count(g, OfFlag(FlagKey(code, Under(Review))), es)
          + Count(g, OfFlag(FlagKey(code, Under(Wrong))), es)
    ensures Count(g, OfFlag(FlagKey(code, Exclusive)), es)
         == Count(g, OfFlag(FlagKey(code, ExclusiveUnder(Correct))), es)
          + Count(g, OfFlag(FlagKey(code, ExclusiveUnder(Review))), es)
          + Count(g, OfFlag(FlagKey(code, ExclusiveUnder(Wrong))), es)
    ensures Count(g, OfFlag(FlagKey(code, Exclusive)), es) <= Count(g, OfFlag(FlagKey(code, Raised)), es)
         <= Count(g, OfRow(GuardReview), es)
    decreases |es|
  {
    hide Codes;
    if es != [] {
      FlagColumnsAdd(g, code, es[..|es| - 1]);
    }
  }

  function SumOfSets(isSweep: string -> bool, files: seq<File>, sets: map<string, Section>, m: Metric): nat {
    if files == [] then 0
    else
      var f := files[|files| - 1];
      SumOfSets(isSweep, files[..|files| - 1], sets, m)
      + if Kept(isSweep, f) && f.name in sets then At(sets[f.name].summary, m) else 0
  }

  lemma {:induction false} CountIsSumOfSets(g: Guard, isSweep: string -> bool, files: seq<File>, policy: Policy,
      sets: map<string, Section>, m: Metric)
    requires forall i :: 0 <= i < |files| && Kept(isSweep, files[i]) ==> files[i].name in sets
    requires forall i :: 0 <= i < |files| && Kept(isSweep, files[i]) ==>
               Reports(g, FileEntries(g, isSweep, files[i], policy), sets[files[i].name])
    ensures Count(g, OfRow(m), RunEntries(g, isSweep, files, policy)) == SumOfSets(isSweep, files, sets, m)
    decreases |files|
  {
    hide Count, RowEntries;
    if files == [] {
      NothingCounted(g, OfRow(m));
    } else {
      var front, f := files[..|files| - 1], files[|files| - 1];
      CountIsSumOfSets(g, isSweep, front, policy, sets, m);
      CountOfSum(g, OfRow(m), RunEntries(g, isSweep, front, policy), FileEntries(g, isSweep, f, policy));
      NothingCounted(g, OfRow(m));
      assert Kept(isSweep, f) ==> Reports(g, FileEntries(g, isSweep, f, policy), sets[f.name]);
      assert Kept(isSweep, f) ==> At(sets[f.name].summary, m) == Count(g, OfRow(m), FileEntries(g, isSweep, f, policy));
    }
  }

  /** The run's totals are the sums of the per-set ledgers. */
  lemma TotalsAreSums(g: Guard, isSweep: string -> bool, files: seq<File>, policy: Policy, report: Report, m: Metric)
    requires Reports(g, RunEntries(g, isSweep, files, policy), report.total)
    requires SetsReport(g, isSweep, files, policy, report.sets)
    ensures m in report.total.summary
    ensures report.total.summary[m] == SumOfSets(isSweep, files, report.sets, m)
  {
    CountIsSumOfSets(g, isSweep, files, policy, report.sets, m);
  }

  // ----- comparing policies -----

  /** The same answers with at least the same flags. */
  predicate MoreFlags(es: seq<Entry>, fs: seq<Entry>) {
    && |es| == |fs|
    && forall i :: 0 <= i < |es| ==>
         && es[i].scored == fs[i].scored && es[i].answer == fs[i].answer
         && Codes(es[i].flags) <= Codes(fs[i].flags)
  }

  predicate Rises(m: Metric) {
    m.GuardReview? || m.CorrectWithheld? || m.NoncorrectCaught? || m.SettledWrongCaught?
  }

  predicate Falls(m: Metric) {
    m.Published? || m.NoncorrectPublished? || m.SettledWrongPublished?
  }

  lemma {:induction false} MoreFlagsPublishLess(g: Guard, m: Metric, es: seq<Entry>, fs: seq<Entry>)
    requires MoreFlags(es, fs)
    ensures Rises(m) ==> Count(g, OfRow(m), es) <= Count(g, OfRow(m), fs)
    ensures Falls(m) ==> Count(g, OfRow(m), es) >= Count(g, OfRow(m), fs)
    ensures IsFact(m) ==> Count(g, OfRow(m), es) == Count(g, OfRow(m), fs)
    decreases |es|
  {
    hide Codes;
    if es != [] {
      MoreFlagsPublishLess(g, m, es[..|es| - 1], fs[..|fs| - 1]);
    }
  }

  lemma {:induction false} RowEntriesGrow(g: Guard, questions: map<string, string>, rows: seq<Row>, p: Policy, q: Policy)
    requires Extends(p, q)
    ensures MoreFlags(RowEntries(g, questions, rows, p), RowEntries(g, questions, rows, q))
    decreases |rows|
  {
    hide Codes, ReplayFlags;
    if rows != [] {
      RowEntriesGrow(g, questions, rows[..|rows| - 1], p, q);
      ExtendedCodes(g, rows[|rows| - 1], p, q);
    }
  }

  lemma {:induction false} RunEntriesGrow(g: Guard, isSweep: string -> bool, files: seq<File>, p: Policy, q: Policy)
    requires Extends(p, q)
    ensures MoreFlags(RunEntries(g, isSweep, files, p), RunEntries(g, isSweep, files, q))
    decreases |files|
  {
    hide Codes, RowEntries;
    if files != [] {
      var f := files[|files| - 1];
      RunEntriesGrow(g, isSweep, files[..|files| - 1], p, q);
      if Kept(isSweep, f) {
        RowEntriesGrow(g, f.questions.value, f.rows, p, q);
      }
    }
  }

  /** Adding the binding flags, or the explicit-page flag, never lowers what the guard
      holds back or catches, never raises what is published, and leaves the rest. */
  lemma PolicyOrder(g: Guard, isSweep: string -> bool, files: seq<File>, p: Policy, q: Policy, m: Metric)
    requires Extends(p, q)
    ensures var before := Count(g, OfRow(m), RunEntries(g, isSweep, files, p));
            var after := Count(g, OfRow(m), RunEntries(g, isSweep, files, q));
            && (Rises(m) ==> before <= after)
            && (Falls(m) ==> before >= after)
            && (IsFact(m) ==> before == after)
  {
    RunEntriesGrow(g, isSweep, files, p, q);
    MoreFlagsPublishLess(g, m, RunEntries(g, isSweep, files, p), RunEntries(g, isSweep, files, q));
  }

  // ----- the price of asking for a page -----

  predicate NeedsPage(g: Guard, answer: string) {
    !g.isAbstention(answer) && g.citedPages(answer) == []
  }

  /** Entries that differ only in the missing-page flag, raised where no page is cited. */
  predicate PageFlagAdded(g: Guard, es: seq<Entry>, fs: seq<Entry>) {
    && |es| == |fs|
    && forall i :: 0 <= i < |es| ==>
         && es[i].scored == fs[i].scored && es[i].answer == fs[i].answer
         && Codes(fs[i].flags)
            == Codes(es[i].flags) + if NeedsPage(g, es[i].answer) then {MISSING_PAGE} else {}
  }

  lemma ExplicitCodes(g: Guard, row: Row)
    ensures Codes(ReplayFlags(g, row, StructuredExplicit))
         == Codes(ReplayFlags(g, row, StructuredDerived))
            + if NeedsPage(g, row.answer) then {MISSING_PAGE} else {}
  {
    var flags := g.checkStructured(ReplyOf(row), row.context);
    CodesOfSum(flags, [Flag(MISSING_PAGE, [])]);
    assert Codes([Flag(MISSING_PAGE, [])]) == {MISSING_PAGE} by {
      assert [Flag(MISSING_PAGE, [])][0].code == MISSING_PAGE;
    }
    assert HasCode(flags, MISSING_PAGE) <==> MISSING_PAGE in Codes(flags);
  }

  lemma {:induction false} RowPageFlags(g: Guard, questions: map<string, string>, rows: seq<Row>)
    ensures PageFlagAdded(g, RowEntries(g, questions, rows, StructuredDerived),
                          RowEntries(g, questions, rows, StructuredExplicit))
    decreases |rows|
  {
    hide Codes, ReplayFlags, NeedsPage;
    if rows != [] {
      RowPageFlags(g, questions, rows[..|rows| - 1]);
      ExplicitCodes(g, rows[|rows| - 1]);
    }
  }

  lemma {:induction false} RunPageFlags(g: Guard, isSweep: string -> bool, files: seq<File>)
    ensures PageFlagAdded(g, RunEntries(g, isSweep, files, StructuredDerived),
                          RunEntries(g, isSweep, files, StructuredExplicit))
    decreases |files|
  {
    hide Codes, RowEntries, NeedsPage;
    if files != [] {
      var f := files[|files| - 1];
      RunPageFlags(g, isSweep, files[..|files| - 1]);
      if Kept(isSweep, f) {
        RowPageFlags(g, f.questions.value, f.rows);
      }
    }
  }

  lemma {:induction false} PageFlagMoves(g: Guard, es: seq<Entry>, fs: seq<Entry>)
    requires PageFlagAdded(g, es, fs)
    ensures Count(g, OfRow(GuardReview), fs) == Count(g, OfRow(GuardReview), es) + Count(g, UncitedAnswer, es)
    ensures Count(g, OfRow(Published), fs) == Count(g, OfRow(Published), es) - Count(g, UncitedAnswer, es)
    ensures Count(g, UncitedAnswer, fs) == 0
    decreases |es|
  {
    hide Codes;
    if es != [] {
      PageFlagMoves(g, es[..|es| - 1], fs[..|fs| - 1]);
    }
  }

  /** Asking for an explicit page moves exactly the published answers that cite none from
      publication to review; afterwards no such answer is published. */
  lemma ExplicitPagePrice(g: Guard, isSweep: string -> bool, files: seq<File>)
    ensures var derived := RunEntries(g, isSweep, files, StructuredDerived);
            var explicit := RunEntries(g, isSweep, files, StructuredExplicit);
            var uncited := Count(g, UncitedAnswer, derived);
            && Count(g, OfRow(GuardReview), explicit) == Count(g, OfRow(GuardReview), derived) + uncited
            && Count(g, OfRow(Published), explicit) == Count(g, OfRow(Published), derived) - uncited
            && Count(g, UncitedAnswer, explicit) == 0
  {
    hide RunEntries, Count, PageFlagAdded;
    RunPageFlags(g, isSweep, files);
    PageFlagMoves(g, RunEntries(g, isSweep, files, StructuredDerived),
                  RunEntries(g, isSweep, files, StructuredExplicit));
  }
}
