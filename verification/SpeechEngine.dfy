/** One model, one worker thread, one slot: the protocol between requests, the
    event loop and the worker, as interleaved steps. */
module SpeechProtocol {
  import opened Options

  /** A request and the staged file it was given share one identity. */
  type Request = nat

  datatype Party = ByRequest | ByWorker
  datatype Outcome = Unavailable | Busy | Cancelled | Timeout | Answered

  /** A job on the worker thread; `cleaned` once its file has been removed. */
  datatype Running = Running(job: Request, cleaned: bool)

  datatype State = State(
    loaded: bool,                       // a model is present
    maxWaiting: nat,
    permits: int,                       // the semaphore
    waiting: int,                       // the counter that bounds the waiting room
    inLine: set<Request>,               // requests awaiting the semaphore
    awaiting: set<Request>,             // requests awaiting their submitted job
    ended: map<Request, Outcome>,
    queue: seq<Request>,                // submitted, not yet picked up by the worker
    running: Option<Running>,
    releases: nat,                      // releases scheduled on the loop, not yet run
    done: set<Request>,                 // jobs whose result is available
    unlinks: map<Request, seq<Party>>)  // who removed each staged file, in order

  datatype Event =
    | Enter(r: Request)              // staged file handed over; refused or queued
    | Acquire(r: Request)            // permit taken and job submitted, one atomic step
    | LeaveLine(r: Request, cancelled: bool)     // queue timeout or cancellation
    | Start                          // worker takes the next job
    | Clean                          // worker removes the job's file
    | HandBack                       // worker schedules the release and ends
    | Release                        // the loop runs a scheduled release
    | Collect(r: Request)            // request receives its result
    | Abandon(r: Request, cancelled: bool)       // transcription timeout or cancellation

  function Initial(loaded: bool, maxWaiting: nat): State {
    State(loaded, maxWaiting, 1, 0, {}, {}, map[], [], None, 0, {}, map[])
  }

  predicate Known(s: State, r: Request) {
    r in s.inLine || r in s.awaiting || r in s.ended
  }

  predicate Enabled(s: State, e: Event) {
    match e
    case Enter(r) => !Known(s, r)
    case Acquire(r) => r in s.inLine && s.permits > 0
    case LeaveLine(r, _) => r in s.inLine
    case Start => s.running.None? && s.queue != []
    case Clean => s.running.Some? && !s.running.value.cleaned
    case HandBack => s.running.Some? && s.running.value.cleaned
    case Release => s.releases > 0
    case Collect(r) => r in s.awaiting && r in s.done
    case Abandon(r, _) => r in s.awaiting
  }

  /** The file's record after one more removal. */
  function Unlink(s: State, r: Request, who: Party): map<Request, seq<Party>> {
    s.unlinks[r := (if r in s.unlinks then s.unlinks[r] else []) + [who]]
  }

  function Next(s: State, e: Event): State
    requires Enabled(s, e)
  {
    match e
    case Enter(r) =>
      if !s.loaded then s.(ended := s.ended[r := Unavailable], unlinks := Unlink(s, r, ByRequest))
      else if s.waiting >= s.maxWaiting then s.(ended := s.ended[r := Busy], unlinks := Unlink(s, r, ByRequest))
      else s.(waiting := s.waiting + 1, inLine := s.inLine + {r}, unlinks := s.unlinks[r := []])
    case Acquire(r) =>
      s.(permits := s.permits - 1, waiting := s.waiting - 1, inLine := s.inLine - {r},
         queue := s.queue + [r], awaiting := s.awaiting + {r})
    case LeaveLine(r, cancelled) =>
      s.(waiting := s.waiting - 1, inLine := s.inLine - {r},
         ended := s.ended[r := if cancelled then Cancelled else Busy], unlinks := Unlink(s, r, ByRequest))
    case Start =>
      s.(running := Some(Running(s.queue[0], false)), queue := s.queue[1..])
    case Clean =>
      s.(running := Some(Running(s.running.value.job, true)), unlinks := Unlink(s, s.running.value.job, ByWorker))
    case HandBack =>
      s.(running := None, releases := s.releases + 1, done := s.done + {s.running.value.job})
    case Release =>
      s.(permits := s.permits + 1, releases := s.releases - 1)
    case Collect(r) =>
      s.(awaiting := s.awaiting - {r}, ended := s.ended[r := Answered])
    case Abandon(r, cancelled) =>
      s.(awaiting := s.awaiting - {r}, ended := s.ended[r := if cancelled then Cancelled else Timeout])
  }

  // ----- what every step keeps -----

  /** The slot's holders that have not given it back yet. */
  function Holders(s: State): nat {
    |s.queue| + (if s.running.Some? then 1 else 0) + s.releases
  }

  /** The job is submitted and its file still belongs to it. */
  predicate Pending(s: State, r: Request) {
    r in s.queue || s.running == Some(Running(r, false))
  }

  /** r's job has removed its file. */
  predicate Cleaned(s: State, r: Request) {
    r in s.done || s.running == Some(Running(r, true))
  }

  /** Submission happened iff the job is pending or has removed its file. */
  predicate WasSubmitted(s: State, r: Request) {
    Pending(s, r) || Cleaned(s, r)
  }

  /** Who removed r's file so far, decided by how far r got. */
  function ExpectedUnlinks(s: State, r: Request): seq<Party> {
    if r in s.inLine || Pending(s, r) then []
    else if Cleaned(s, r) then [ByWorker]
    else [ByRequest]
  }

  ghost predicate Inv(s: State) {
    && s.permits + Holders(s) == 1 && s.permits >= 0
    && s.waiting == |s.inLine| && s.waiting <= s.maxWaiting
    && s.inLine !! s.awaiting && s.inLine !! s.ended.Keys && s.awaiting !! s.ended.Keys
    && (forall r :: r in s.unlinks <==> Known(s, r))
    && (forall r :: r in s.inLine ==> !WasSubmitted(s, r))
    && (forall r :: r in s.awaiting ==> WasSubmitted(s, r))
    && (forall r :: WasSubmitted(s, r) ==> Known(s, r))
    && (forall r :: Pending(s, r) ==> !Cleaned(s, r))
    && (forall r :: r in s.unlinks ==> s.unlinks[r] == ExpectedUnlinks(s, r))
  }

  lemma InitialInv(loaded: bool, maxWaiting: nat)
    ensures Inv(Initial(loaded, maxWaiting))
  {
  }

  /** No job changed hands between two states. */
  ghost predicate SameJobs(s: State, t: State) {
    forall q :: Pending(t, q) == Pending(s, q) && Cleaned(t, q) == Cleaned(s, q)
  }

  lemma EnterMoves(s: State, r: Request)
    requires Inv(s) && Enabled(s, Enter(r))
    ensures !WasSubmitted(s, r) && SameJobs(s, Next(s, Enter(r)))
    ensures !Known(s, r) && r !in s.inLine && r !in s.awaiting && r !in s.ended && r !in s.unlinks
    ensures forall q :: Known(Next(s, Enter(r)), q) == (Known(s, q) || q == r)
    ensures forall q :: WasSubmitted(Next(s, Enter(r)), q) == WasSubmitted(s, q)
    ensures forall q :: q != r ==> ExpectedUnlinks(Next(s, Enter(r)), q) == ExpectedUnlinks(s, q)
    ensures ExpectedUnlinks(Next(s, Enter(r)), r) == if r in Next(s, Enter(r)).inLine then [] else [ByRequest]
  {
  }

  lemma EnterKeeps(s: State, r: Request)
    requires Inv(s) && Enabled(s, Enter(r))
    ensures Inv(Next(s, Enter(r)))
  {
    hide Pending, Cleaned, Known, WasSubmitted, ExpectedUnlinks;
    EnterMoves(s, r);
  }

  /** What granting the slot changes for every request. */
  lemma AcquireMoves(s: State, r: Request)
    requires Inv(s) && Enabled(s, Acquire(r))
    ensures s.queue == [] && s.running.None? && s.releases == 0 && r in s.inLine
    ensures var t := Next(s, Acquire(r));
      && t.queue == [r] && Known(s, r)
      && (forall q :: WasSubmitted(t, q) == (WasSubmitted(s, q) || q == r) && Known(t, q) == Known(s, q))
      && (forall q :: Pending(t, q) == (Pending(s, q) || q == r) && Cleaned(t, q) == Cleaned(s, q))
      && (forall q :: ExpectedUnlinks(t, q) == ExpectedUnlinks(s, q)) && !Cleaned(s, r)
  {
    assert !WasSubmitted(s, r);
  }

  lemma AcquireKeeps(s: State, r: Request)
    requires Inv(s) && Enabled(s, Acquire(r))
    ensures Inv(Next(s, Acquire(r)))
  {
    hide WasSubmitted, Known, Pending, Cleaned, ExpectedUnlinks;
    AcquireMoves(s, r);
  }

  lemma CleanKeeps(s: State)
    requires Inv(s) && Enabled(s, Clean)
    ensures Inv(Next(s, Clean))
  {
    var t, job := Next(s, Clean), s.running.value.job;
    assert s.queue == [] && Pending(s, job);
    forall q
      ensures Pending(t, q) == (Pending(s, q) && q != job)
      ensures Cleaned(t, q) == (Cleaned(s, q) || q == job)
    {
    }
  }

  lemma HandoffKeeps(s: State, e: Event)
    requires Inv(s) && Enabled(s, e) && (e.Start? || e.HandBack? || e.Release?)
    ensures Inv(Next(s, e))
  {
    var t := Next(s, e);
    if e.Start? {
      assert |s.queue| == 1 && s.queue == [s.queue[0]] && t.queue == [];
    }
    assert SameJobs(s, t);
  }

  lemma RequestKeeps(s: State, e: Event)
    requires Inv(s) && Enabled(s, e) && (e.LeaveLine? || e.Collect? || e.Abandon?)
    ensures Inv(Next(s, e))
  {
    hide Pending, Cleaned;
    RequestMoves(s, e);
  }

  lemma RequestMoves(s: State, e: Event)
    requires Enabled(s, e) && (e.LeaveLine? || e.Collect? || e.Abandon?)
    ensures SameJobs(s, Next(s, e)) && forall q :: Known(Next(s, e), q) == Known(s, q)
  {
  }

  lemma StepKeeps(s: State, e: Event)
    requires Inv(s) && Enabled(s, e)
    ensures Inv(Next(s, e))
  {
    match e
    case Enter(r) => EnterKeeps(s, r);
    case Acquire(r) => AcquireKeeps(s, r);
    case Clean => CleanKeeps(s);
    case Start => HandoffKeeps(s, e);
    case HandBack => HandoffKeeps(s, e);
    case Release => HandoffKeeps(s, e);
    case LeaveLine(_, _) => RequestKeeps(s, e);
    case Collect(_) => RequestKeeps(s, e);
    case Abandon(_, _) => RequestKeeps(s, e);
  }

  // ----- whole runs -----

  ghost predicate Possible(s: State, run: seq<Event>)
    decreases |run|
  {
    run == [] || (Enabled(s, run[0]) && Possible(Next(s, run[0]), run[1..]))
  }

  function After(s: State, run: seq<Event>): State
    requires Possible(s, run)
    decreases |run|
  {
    if run == [] then s else After(Next(s, run[0]), run[1..])
  }

  lemma {:induction false} RunKeeps(s: State, run: seq<Event>)
    requires Inv(s) && Possible(s, run)
    ensures Inv(After(s, run))
    decreases |run|
  {
    if run != [] {
      StepKeeps(s, run[0]);
      RunKeeps(Next(s, run[0]), run[1..]);
    }
  }

  /** Any interleaving from start-up: one slot, one job, a bounded waiting room, the
      file of a pending job still there, and none removed twice or by the wrong side. */
  lemma RunIsSafe(loaded: bool, maxWaiting: nat, run: seq<Event>)
    requires Possible(Initial(loaded, maxWaiting), run)
    ensures var s := After(Initial(loaded, maxWaiting), run);
      && s.permits + Holders(s) == 1
      && (s.running.Some? ==> s.queue == [] && s.permits == 0 && s.releases == 0)
      && 0 <= s.waiting == |s.inLine| <= s.maxWaiting
      && (forall r :: Pending(s, r) ==> r in s.unlinks && s.unlinks[r] == [])
      && (forall r :: r in s.unlinks ==> |s.unlinks[r]| <= 1)
      && (forall r :: r in s.unlinks && ByRequest in s.unlinks[r] ==> !WasSubmitted(s, r))
      && (forall r :: r in s.unlinks && ByWorker in s.unlinks[r] ==> WasSubmitted(s, r))
  {
    InitialInv(loaded, maxWaiting);
    RunKeeps(Initial(loaded, maxWaiting), run);
  }

  // ----- the service always drains -----

  /** Steps still owed by requests and jobs already inside. */
  function Owed(s: State): int {
    6 * |s.inLine| + |s.awaiting| + 4 * |s.queue|
    + (if s.running.None? then 0 else if s.running.value.cleaned then 2 else 3) + s.releases
  }

  lemma StepPaysOff(s: State, e: Event)
    requires Inv(s) && Enabled(s, e) && !e.Enter?
    ensures 0 <= Owed(Next(s, e)) < Owed(s)
  {
  }

  /** Without new arrivals no run is longer than what is owed. */
  lemma {:induction false} RunsEnd(s: State, run: seq<Event>)
    requires Inv(s) && Possible(s, run)
    requires forall e :: e in run ==> !e.Enter?
    ensures |run| <= Owed(s)
    decreases |run|
  {
    if run != [] {
      assert run[0] in run;
      StepPaysOff(s, run[0]);
      StepKeeps(s, run[0]);
      forall e | e in run[1..] ensures !e.Enter? {
        assert e in run;
      }
      RunsEnd(Next(s, run[0]), run[1..]);
    }
  }

  /** Once nothing but an arrival can happen, the slot is free, nobody waits, and
      every file handed over was removed exactly once, by the worker iff submitted. */
  lemma QuietMeansClean(s: State)
    requires Inv(s)
    requires forall e: Event :: Enabled(s, e) ==> e.Enter?
    ensures s.permits == 1 && s.waiting == 0 && Holders(s) == 0
    ensures forall r :: r in s.unlinks <==> r in s.ended
    ensures forall r :: r in s.ended ==> s.unlinks[r] == [if r in s.done then ByWorker else ByRequest]
  {
    assert s.releases == 0 by {
      assert Enabled(s, Release) ==> Release.Enter?;
    }
    assert s.running.None? by {
      assert Enabled(s, Clean) ==> Clean.Enter?;
      assert Enabled(s, HandBack) ==> HandBack.Enter?;
    }
    assert s.queue == [] by {
      assert Enabled(s, Start) ==> Start.Enter?;
    }
    forall r ensures r !in s.inLine && r !in s.awaiting {
      assert Enabled(s, LeaveLine(r, true)) ==> LeaveLine(r, true).Enter?;
      assert Enabled(s, Abandon(r, true)) ==> Abandon(r, true).Enter?;
    }
    assert s.inLine == {};
  }

  /** Leaving after submission takes nothing from the job: the worker's side, the
      slot and the file are as before. */
  lemma AbandonTouchesNothing(s: State, r: Request, cancelled: bool, run: seq<Event>)
    requires Inv(s) && Enabled(s, Abandon(r, cancelled))
    requires forall e :: e in run ==> e.Start? || e.Clean? || e.HandBack? || e.Release?
    requires Possible(s, run)
    ensures var t := Next(s, Abandon(r, cancelled));
      && Possible(t, run)
      && After(t, run).unlinks == After(s, run).unlinks
      && After(t, run).permits == After(s, run).permits
      && Holders(After(t, run)) == Holders(After(s, run))
  {
    AbandonCommutes(s, Next(s, Abandon(r, cancelled)), run);
  }

  /** Two states that agree on the worker's side take the same worker steps. */
  lemma {:induction false} AbandonCommutes(s: State, t: State, run: seq<Event>)
    requires t == s.(awaiting := t.awaiting, ended := t.ended)
    requires forall e :: e in run ==> e.Start? || e.Clean? || e.HandBack? || e.Release?
    requires Possible(s, run)
    ensures Possible(t, run)
    ensures After(t, run) == After(s, run).(awaiting := t.awaiting, ended := t.ended)
    decreases |run|
  {
    if run != [] {
      assert run[0] in run;
      forall e | e in run[1..] ensures e.Start? || e.Clean? || e.HandBack? || e.Release? {
        assert e in run;
      }
      AbandonCommutes(Next(s, run[0]), Next(t, run[0]), run[1..]);
    }
  }
}

/** The engine's fields and the steps that update them in place. */
module SpeechService {
  import opened Options
  import opened SpeechProtocol

  class Engine {
    const maxWaiting: nat
    var model: bool
    var permits: int
    var waiting: int
    var inLine: set<Request>
    var awaiting: set<Request>
    var ended: map<Request, Outcome>
    var queue: seq<Request>
    var running: Option<Running>
    var releases: nat
    var done: set<Request>
    var unlinks: map<Request, seq<Party>>

    function View(): State
      reads this
    {
      State(model, maxWaiting, permits, waiting, inLine, awaiting, ended, queue, running, releases, done, unlinks)
    }

    constructor (maxWaiting: nat, loaded: bool)
      ensures View() == Initial(loaded, maxWaiting) && Inv(View())
    {
      this.maxWaiting := maxWaiting;
      model, permits, waiting := loaded, 1, 0;
      inLine, awaiting, ended := {}, {}, map[];
      queue, running, releases, done, unlinks := [], None, 0, {}, map[];
      new;
      InitialInv(loaded, maxWaiting);
    }

    method RemoveExact(r: Request, who: Party)
      modifies this`unlinks
      ensures unlinks == Unlink(old(View()), r, who)
    {
      unlinks := unlinks[r := (if r in unlinks then unlinks[r] else []) + [who]];
    }

    /** The part of a request before its first wait: refuse, or join the line. */
    method Enter(r: Request) returns (refused: Option<Outcome>)
      requires Inv(View()) && Enabled(View(), Event.Enter(r))
      modifies this
      ensures View() == Next(old(View()), Event.Enter(r)) && Inv(View())
      ensures refused.Some? <==> !old(model) || old(|inLine|) == maxWaiting
      ensures refused.Some? ==> View().ended[r] == refused.value
    {
      EnterKeeps(View(), r);
      refused := None;
      if !model {
        refused := Some(Unavailable);
      } else if waiting >= maxWaiting {
        refused := Some(Busy);
      } else {
        waiting, inLine, unlinks := waiting + 1, inLine + {r}, unlinks[r := []];
      }
      if refused.Some? {
        RemoveExact(r, ByRequest);
        ended := ended[r := refused.value];
      }
    }

    /** The semaphore is granted and the job handed to the executor. */
    method AcquireAndSubmit(r: Request)
      requires Inv(View()) && Enabled(View(), Acquire(r))
      modifies this
      ensures View() == Next(old(View()), Acquire(r)) && Inv(View())
      ensures queue == [r]
    {
      hide Inv;
      AcquireMoves(View(), r);
      AcquireKeeps(View(), r);
      permits := permits - 1;
      waiting, inLine := waiting - 1, inLine - {r};
      queue, awaiting := queue + [r], awaiting + {r};
    }

    /** The wait for the semaphore times out or is cancelled. */
    method GiveUpWaiting(r: Request, cancelled: bool)
      requires Inv(View()) && Enabled(View(), LeaveLine(r, cancelled))
      modifies this
      ensures View() == Next(old(View()), LeaveLine(r, cancelled)) && Inv(View())
      ensures permits == old(permits) && queue == old(queue)
    {
      RequestKeeps(View(), LeaveLine(r, cancelled));
      waiting, inLine := waiting - 1, inLine - {r};
      RemoveExact(r, ByRequest);
      ended := ended[r := if cancelled then Cancelled else Busy];
    }

    /** The worker thread takes the next job. */
    method StartJob()
      requires Inv(View()) && Enabled(View(), Start)
      modifies this
      ensures View() == Next(old(View()), Start) && Inv(View())
    {
      HandoffKeeps(View(), Start);
      running, queue := Some(Running(queue[0], false)), queue[1..];
    }

    /** The `finally` of a job, whether the model returned or raised. */
    method CleanUp()
      requires Inv(View()) && Enabled(View(), Clean)
      modifies this
      ensures View() == Next(old(View()), Clean) && Inv(View())
    {
      CleanKeeps(View());
      var job := running.value.job;
      RemoveExact(job, ByWorker);
      running := Some(Running(job, true));
    }

    method ScheduleRelease()
      requires Inv(View()) && Enabled(View(), HandBack)
      modifies this
      ensures View() == Next(old(View()), HandBack) && Inv(View())
    {
      HandoffKeeps(View(), HandBack);
      done, releases, running := done + {running.value.job}, releases + 1, None;
    }

    method RunRelease()
      requires Inv(View()) && Enabled(View(), Release)
      modifies this
      ensures View() == Next(old(View()), Release) && Inv(View())
      ensures permits == 1
    {
      HandoffKeeps(View(), Release);
      permits, releases := permits + 1, releases - 1;
    }

    /** A submitted request leaves: with its result, or by timeout or cancellation. */
    method Finish(r: Request, e: Event)
      requires Inv(View()) && Enabled(View(), e) && (e == Collect(r) || e == Abandon(r, true) || e == Abandon(r, false))
      modifies this
      ensures View() == Next(old(View()), e) && Inv(View())
      ensures unlinks == old(unlinks) && permits == old(permits) && running == old(running) && queue == old(queue)
    {
      RequestKeeps(View(), e);
      awaiting := awaiting - {r};
      ended := ended[r := if e.Collect? then Answered else if e.cancelled then Cancelled else Timeout];
    }
  }

  // ----- staging -----

  datatype Staged = Path(content: seq<bv8>) | TooLarge | Empty

  function Joined(chunks: seq<seq<bv8>>): seq<bv8> {
    if chunks == [] then [] else Joined(chunks[..|chunks| - 1]) + chunks[|chunks| - 1]
  }

  lemma {:induction false} JoinedGrows(chunks: seq<seq<bv8>>, n: nat)
    requires n <= |chunks|
    ensures |Joined(chunks[..n])| <= |Joined(chunks)|
    decreases |chunks|
  {
    if n < |chunks| {
      var c := chunks[..|chunks| - 1];
      JoinedGrows(c, n);
      assert c[..n] == chunks[..n];
    } else {
      assert chunks[..n] == chunks;
    }
  }

  /** Reads until the first empty chunk; the upload is kept exactly when its total
      length is within the limit and not zero, and then every byte of it is kept. */
  method Stage(chunks: seq<seq<bv8>>, limit: nat) returns (r: Staged)
    requires forall i :: 0 <= i < |chunks| ==> chunks[i] != []
    ensures r == if |Joined(chunks)| > limit then TooLarge
                 else if Joined(chunks) == [] then Empty
                 else Path(Joined(chunks))
  {
    var total, sink := 0, [];
    for i := 0 to |chunks|
      invariant sink == Joined(chunks[..i]) && total == |sink| <= limit
    {
      assert chunks[..i + 1][..i] == chunks[..i];
      total := total + |chunks[i]|;
      if total > limit {
        JoinedGrows(chunks, i + 1);
        return TooLarge;
      }
      sink := sink + chunks[i];
    }
    assert chunks[..|chunks|] == chunks;
    r := if total == 0 then Empty else Path(sink);
  }
}
