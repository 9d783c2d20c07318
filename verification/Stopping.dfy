/** The preregistered review: plans, the first stop, and what a partial review
    already decides about every way of finishing it. */
module Stopping {
  import opened Options

  type Id = string

  const TARGET := 30

  /** A plan as the feasibility report records it; `Inactive` when none is recorded. */
  datatype Plan = Inactive | Plan(target: int, rejectionLimit: int)

  /** What the loop can count towards. */
  predicate Countable(plan: Plan) {
    plan.Plan? && plan.target >= 1 && plan.rejectionLimit >= 1
  }

  /** The plan the feasibility report records. Active once enough candidates exist; the limit is one more rejection than the
      target can spare. */
  function PlanFor(candidates: nat, target: int): (plan: Plan)
    ensures Countable(plan) <==> 1 <= target <= candidates
  {
    if candidates >= target then Plan(target, candidates - target + 1) else Inactive
  }

  datatype Stop = NotReached | ConfirmedAt(index: nat) | RejectedAt(index: nat)

  // ----- running counts over the ordered candidates -----

  function Rejections(ids: seq<Id>, rejected: set<Id>, n: nat): (r: nat)
    requires n <= |ids|
    ensures r <= n
  {
    if n == 0 then 0 else Rejections(ids, rejected, n - 1) + (if ids[n - 1] in rejected then 1 else 0)
  }

  function Confirmations(ids: seq<Id>, rejected: set<Id>, unresolved: set<Id>, n: nat): (r: nat)
    requires n <= |ids|
    ensures r <= n
  {
    if n == 0 then 0
    else Confirmations(ids, rejected, unresolved, n - 1)
         + (if ids[n - 1] !in rejected && ids[n - 1] !in unresolved then 1 else 0)
  }

  /** Neither stop has happened after the first n candidates. */
  predicate Open(ids: seq<Id>, rejected: set<Id>, unresolved: set<Id>, plan: Plan, n: nat)
    requires plan.Plan? && n <= |ids|
  {
    && Confirmations(ids, rejected, unresolved, n) < plan.target
    && Rejections(ids, rejected, n) < plan.rejectionLimit
  }

  /** What "the first stop" means: everything before it is open. */
  ghost predicate IsFirstStop(ids: seq<Id>, rejected: set<Id>, unresolved: set<Id>, plan: Plan, stop: Stop)
    requires plan.Plan?
  {
    match stop
    case NotReached => forall k :: 0 <= k <= |ids| ==> Open(ids, rejected, unresolved, plan, k)
    case ConfirmedAt(i) =>
      && 1 <= i <= |ids| && (forall k :: 0 <= k < i ==> Open(ids, rejected, unresolved, plan, k))
      && Confirmations(ids, rejected, unresolved, i) == plan.target
    case RejectedAt(i) =>
      && 1 <= i <= |ids| && (forall k :: 0 <= k < i ==> Open(ids, rejected, unresolved, plan, k))
      && Rejections(ids, rejected, i) == plan.rejectionLimit
  }

  datatype Outcome = Refused | Found(stop: Stop)

  /** The counting loop; a plan without a target or a limit is refused. */
  method FirstStop(ids: seq<Id>, rejected: set<Id>, unresolved: set<Id>, plan: Plan) returns (r: Outcome)
    requires rejected !! unresolved
    ensures r.Found? <==> Countable(plan)
    ensures r.Found? ==> IsFirstStop(ids, rejected, unresolved, plan, r.stop)
  {
    if plan.Inactive? || plan.target < 1 || plan.rejectionLimit < 1 {
      return Refused;
    }
    var confirmations, rejections := 0, 0;
    for index := 1 to |ids| + 1
      invariant confirmations == Confirmations(ids, rejected, unresolved, index - 1)
      invariant rejections == Rejections(ids, rejected, index - 1)
      invariant forall k :: 0 <= k < index ==> Open(ids, rejected, unresolved, plan, k)
    {
      if ids[index - 1] in rejected {
        rejections := rejections + 1;
      } else if ids[index - 1] !in unresolved {
        confirmations := confirmations + 1;
      }
      assert confirmations == Confirmations(ids, rejected, unresolved, index);
      assert rejections == Rejections(ids, rejected, index);
      assert Open(ids, rejected, unresolved, plan, index - 1);
      if confirmations == plan.target {
        return Found(ConfirmedAt(index));
      }
      if rejections == plan.rejectionLimit {
        return Found(RejectedAt(index));
      }
    }
    r := Found(NotReached);
  }

  lemma {:induction false} CountsMonotone(ids: seq<Id>, rejected: set<Id>, unresolved: set<Id>, m: nat, n: nat)
    requires m <= n <= |ids|
    ensures Rejections(ids, rejected, m) <= Rejections(ids, rejected, n) <= Rejections(ids, rejected, m) + (n - m)
    ensures Confirmations(ids, rejected, unresolved, m) <= Confirmations(ids, rejected, unresolved, n)
    decreases n
  {
    if m < n {
      CountsMonotone(ids, rejected, unresolved, m, n - 1);
    }
  }

  lemma {:induction false} CountsShare(ids: seq<Id>, rejected: set<Id>, unresolved: set<Id>, n: nat)
    requires n <= |ids|
    ensures Rejections(ids, rejected, n) + Confirmations(ids, rejected, unresolved, n) <= n
    ensures (forall i :: 0 <= i < n ==> ids[i] !in unresolved) ==>
              Rejections(ids, rejected, n) + Confirmations(ids, rejected, unresolved, n) == n
  {
    if n > 0 {
      CountsShare(ids, rejected, unresolved, n - 1);
    }
  }

  lemma OneCountGrows(ids: seq<Id>, rejected: set<Id>, unresolved: set<Id>, n: nat)
    requires 1 <= n <= |ids|
    ensures || Confirmations(ids, rejected, unresolved, n) == Confirmations(ids, rejected, unresolved, n - 1)
            || Rejections(ids, rejected, n) == Rejections(ids, rejected, n - 1)
  {
  }

  lemma StopCloses(ids: seq<Id>, rejected: set<Id>, unresolved: set<Id>, plan: Plan, stop: Stop, k: nat)
    requires Countable(plan)
    requires IsFirstStop(ids, rejected, unresolved, plan, stop) && k <= |ids|
    ensures stop.NotReached? || k < stop.index ==> Open(ids, rejected, unresolved, plan, k)
    ensures stop != NotReached ==> 1 <= stop.index <= |ids| && !Open(ids, rejected, unresolved, plan, stop.index)
  {
  }

  /** There is only one first stop, so the two stops exclude each other. */
  lemma FirstStopUnique(ids: seq<Id>, rejected: set<Id>, unresolved: set<Id>, plan: Plan, a: Stop, b: Stop)
    requires Countable(plan)
    requires IsFirstStop(ids, rejected, unresolved, plan, a) && IsFirstStop(ids, rejected, unresolved, plan, b)
    ensures a == b
  {
    StopCloses(ids, rejected, unresolved, plan, a, 0);
    StopCloses(ids, rejected, unresolved, plan, b, 0);
    if a != NotReached {
      StopCloses(ids, rejected, unresolved, plan, b, a.index);
      StopCloses(ids, rejected, unresolved, plan, a, a.index - 1);
      OneCountGrows(ids, rejected, unresolved, a.index);
    }
    if b != NotReached {
      StopCloses(ids, rejected, unresolved, plan, a, b.index);
    }
  }

  /** A fully reviewed list with nothing unresolved always reaches a stop. */
  lemma FullReviewStops(ids: seq<Id>, rejected: set<Id>, target: nat, stop: Stop)
    requires 1 <= target <= |ids|
    requires IsFirstStop(ids, rejected, {}, PlanFor(|ids|, target), stop)
    ensures stop != NotReached
  {
    CountsShare(ids, rejected, {}, |ids|);
    assert !Open(ids, rejected, {}, PlanFor(|ids|, target), |ids|);
  }

  /** Two sets of decisions agree on the first n candidates. */
  predicate AgreeUpTo(ids: seq<Id>, rejected: set<Id>, unresolved: set<Id>, rejected': set<Id>, unresolved': set<Id>, n: nat)
    requires n <= |ids|
  {
    forall i :: 0 <= i < n ==> (ids[i] in rejected <==> ids[i] in rejected') && (ids[i] in unresolved <==> ids[i] in unresolved')
  }

  lemma {:induction false} CountsAgree(ids: seq<Id>, more: seq<Id>, rejected: set<Id>, unresolved: set<Id>,
                                       rejected': set<Id>, unresolved': set<Id>, n: nat)
    requires ids <= more && n <= |ids|
    requires AgreeUpTo(ids, rejected, unresolved, rejected', unresolved', |ids|)
    ensures Rejections(ids, rejected, n) == Rejections(more, rejected', n)
    ensures Confirmations(ids, rejected, unresolved, n) == Confirmations(more, rejected', unresolved', n)
  {
    if n > 0 {
      CountsAgree(ids, more, rejected, unresolved, rejected', unresolved', n - 1);
    }
  }

  /** Reviewing further never moves a stop that was already reached. */
  lemma LongerReviewKeepsStop(ids: seq<Id>, more: seq<Id>, rejected: set<Id>, unresolved: set<Id>,
                              rejected': set<Id>, unresolved': set<Id>, plan: Plan, stop: Stop)
    requires plan.Plan? && ids <= more
    requires AgreeUpTo(ids, rejected, unresolved, rejected', unresolved', |ids|)
    requires IsFirstStop(ids, rejected, unresolved, plan, stop) && stop != NotReached
    ensures IsFirstStop(more, rejected', unresolved', plan, stop)
  {
    forall k | 0 <= k <= |ids|
      ensures Open(ids, rejected, unresolved, plan, k) == Open(more, rejected', unresolved', plan, k)
    {
      CountsAgree(ids, more, rejected, unresolved, rejected', unresolved', k);
    }
    CountsAgree(ids, more, rejected, unresolved, rejected', unresolved', stop.index);
  }

  /** Once stopped, the other side is out of reach for every completion of the review. */
  lemma StopDecides(ids: seq<Id>, more: seq<Id>, rejected: set<Id>, unresolved: set<Id>,
                    rejected': set<Id>, unresolved': set<Id>, target: nat, stop: Stop)
    requires 1 <= target <= |more| && ids <= more
    requires AgreeUpTo(ids, rejected, unresolved, rejected', unresolved', |ids|)
    requires IsFirstStop(ids, rejected, unresolved, PlanFor(|more|, target), stop)
    ensures stop.RejectedAt? ==> Confirmations(more, rejected', unresolved', |more|) < target
    ensures stop.ConfirmedAt? ==> Rejections(more, rejected', |more|) < PlanFor(|more|, target).rejectionLimit
  {
    if stop != NotReached {
      CountsAgree(ids, more, rejected, unresolved, rejected', unresolved', stop.index);
      CountsMonotone(more, rejected', unresolved', stop.index, |more|);
      CountsShare(more, rejected', unresolved', |more|);
    }
  }

  // ----- one class's review -----

  predicate Distinct(ids: seq<Id>) {
    forall i, j :: 0 <= i < j < |ids| ==> ids[i] != ids[j]
  }

  function IdsOf(ids: seq<Id>): set<Id> {
    set i | 0 <= i < |ids| :: ids[i]
  }

  lemma PrefixGrows(ids: seq<Id>, n: nat)
    requires Distinct(ids) && 1 <= n <= |ids|
    ensures IdsOf(ids[..n]) == IdsOf(ids[..n - 1]) + {ids[n - 1]}
    ensures ids[n - 1] !in IdsOf(ids[..n - 1])
  {
    var before, last := IdsOf(ids[..n - 1]), ids[n - 1];
    forall x ensures x in IdsOf(ids[..n]) <==> x in before + {last} {
      if x in before {
        var i :| 0 <= i < n - 1 && ids[..n - 1][i] == x;
        assert ids[..n][i] == x;
      }
      if x in IdsOf(ids[..n]) {
        var i :| 0 <= i < n && ids[..n][i] == x;
        assert i < n - 1 ==> ids[..n - 1][i] == x;
      }
      assert ids[..n][n - 1] == last;
    }
  }

  lemma {:induction false} RejectionsAreSize(ids: seq<Id>, r: set<Id>, n: nat)
    requires Distinct(ids) && n <= |ids|
    ensures Rejections(ids, r, n) == |IdsOf(ids[..n]) * r|
  {
    hide IdsOf, Distinct;
    NoIds(ids);
    assert {} * r == {};
    if n > 0 {
      RejectionsAreSize(ids, r, n - 1);
      PrefixGrows(ids, n);
      MeetGrows(IdsOf(ids[..n - 1]), r, ids[n - 1]);
    }
  }

  function RestSize(s: set<Id>, r: set<Id>, u: set<Id>): nat {
    |s - r - u|
  }

  lemma {:induction false} ConfirmationsAreSize(ids: seq<Id>, r: set<Id>, u: set<Id>, n: nat)
    requires Distinct(ids) && n <= |ids|
    ensures Confirmations(ids, r, u, n) == RestSize(IdsOf(ids[..n]), r, u)
  {
    hide IdsOf, Distinct, RestSize;
    NoIds(ids);
    NoRest(r, u);
    if n > 0 {
      ConfirmationsAreSize(ids, r, u, n - 1);
      PrefixGrows(ids, n);
      RestGrows(IdsOf(ids[..n - 1]), r, u, ids[n - 1]);
    }
  }

  lemma NoRest(r: set<Id>, u: set<Id>)
    ensures RestSize({}, r, u) == 0
  {
    assert {} - r - u == {};
  }

  lemma {:induction false} ThreeWaySplit(ids: seq<Id>, r: set<Id>, u: set<Id>, n: nat)
    requires n <= |ids| && r !! u
    ensures Rejections(ids, r, n) + Rejections(ids, u, n) + Confirmations(ids, r, u, n) == n
  {
    if n > 0 {
      ThreeWaySplit(ids, r, u, n - 1);
    }
  }

  lemma CountsAreSizes(ids: seq<Id>, rejected: set<Id>, unresolved: set<Id>, n: nat)
    requires Distinct(ids) && n <= |ids| && rejected !! unresolved
    ensures Rejections(ids, rejected, n) == |IdsOf(ids[..n]) * rejected|
    ensures Confirmations(ids, rejected, unresolved, n) == |IdsOf(ids[..n]) - rejected - unresolved|
    ensures |IdsOf(ids[..n]) * unresolved| == n - Rejections(ids, rejected, n) - Confirmations(ids, rejected, unresolved, n)
  {
    hide Rejections, Confirmations, IdsOf, Distinct;
    RejectionsAreSize(ids, rejected, n);
    RejectionsAreSize(ids, unresolved, n);
    ConfirmationsAreSize(ids, rejected, unresolved, n);
    ThreeWaySplit(ids, rejected, unresolved, n);
  }

  lemma MeetGrows(s: set<Id>, r: set<Id>, x: Id)
    requires x !in s
    ensures |(s + {x}) * r| == |s * r| + (if x in r then 1 else 0)
  {
    if x in r {
      assert (s + {x}) * r == s * r + {x};
    } else {
      assert (s + {x}) * r == s * r;
    }
  }

  lemma RestGrows(s: set<Id>, r: set<Id>, u: set<Id>, x: Id)
    requires x !in s
    ensures RestSize(s + {x}, r, u) == RestSize(s, r, u) + (if x !in r && x !in u then 1 else 0)
  {
    if x !in r && x !in u {
      assert (s + {x}) - r - u == (s - r - u) + {x};
    } else {
      assert (s + {x}) - r - u == s - r - u;
    }
  }

  datatype Review = Review(
    powered: bool, eligible: nat, rejected: nat, unresolved: nat, unreviewed: nat, stop: Stop,
    confirmedAtStop: nat, rejectedAtStop: nat, unresolvedAtStop: nat, reviewedAfterStop: nat, confirmedAfterStop: int,
    clean: bool, deficit: nat, deficitExact: bool)

  function Max0(x: int): nat {
    if x > 0 then x else 0
  }

  /** The decisions of one class: a reviewed prefix and two disjoint id sets inside it. */
  datatype Decision = Decision(prefix: int, rejected: set<Id>, unresolved: set<Id>)

  predicate WellFormed(candidates: seq<Id>, d: Decision) {
    && 0 <= d.prefix <= |candidates|
    && d.rejected !! d.unresolved
    && d.rejected + d.unresolved <= IdsOf(candidates[..d.prefix])
  }

  /** Merges one class's decisions under the plan recorded for it; `gate` is false for
      the class that is only described. */
  method ReviewOneClass(candidates: seq<Id>, d: Decision, plan: Plan, gate: bool) returns (r: Option<Review>)
    requires Distinct(candidates)
    ensures r.Some? <==> WellFormed(candidates, d) && Countable(plan)
    ensures r.Some? ==>
      && IsFirstStop(candidates[..d.prefix], d.rejected, d.unresolved, plan, r.value.stop)
      && Counted(candidates, d, gate, r.value)
  {
    if !(0 <= d.prefix <= |candidates|) || !(d.rejected !! d.unresolved) {
      return None;
    }
    var ids := candidates[..d.prefix];
    if !(d.rejected + d.unresolved <= IdsOf(ids)) {
      return None;
    }
    if plan.Inactive? {
      return None;
    }
    assert WellFormed(candidates, d);
    hide WellFormed, IsFirstStop, Counted, Distinct, IdsOf;
    var found := FirstStop(ids, d.rejected, d.unresolved, plan);
    if found.Refused? {
      return None;
    }
    var review := Assemble(candidates, d, gate, plan, found.stop);
    r := Some(review);
  }

  function StopIndex(stop: Stop): nat {
    if stop.NotReached? then 0 else stop.index
  }

  /** How the candidates up to the stop divide; three zeros when no stop was reached. */
  method AtStop(ids: seq<Id>, d: Decision, stop: Stop) returns (confirmed: nat, rejected: nat, unresolved: nat)
    requires Distinct(ids) && d.rejected !! d.unresolved && StopIndex(stop) <= |ids|
    ensures confirmed == Confirmations(ids, d.rejected, d.unresolved, StopIndex(stop))
    ensures rejected == Rejections(ids, d.rejected, StopIndex(stop))
    ensures confirmed + rejected + unresolved == StopIndex(stop)
  {
    CountsAreSizes(ids, d.rejected, d.unresolved, StopIndex(stop));
    NoIds(ids);
    hide Rejections, Confirmations, IdsOf, Distinct;
    var stopIds := if stop.NotReached? then {} else IdsOf(ids[..stop.index]);
    confirmed, rejected, unresolved :=
      |stopIds - d.rejected - d.unresolved|, |stopIds * d.rejected|, |stopIds * d.unresolved|;
  }

  /** The report fields of a class whose first stop is known. */
  method Assemble(candidates: seq<Id>, d: Decision, gate: bool, ghost plan: Plan, stop: Stop) returns (r: Review)
    requires Distinct(candidates) && WellFormed(candidates, d) && plan.Plan?
    requires IsFirstStop(candidates[..d.prefix], d.rejected, d.unresolved, plan, stop)
    ensures Counted(candidates, d, gate, r) && r.stop == stop
  {
    var ids := candidates[..d.prefix];
    hide Rejections, Confirmations, IdsOf, Distinct, Open, IsFirstStop, Counted;
    PrefixSizes(candidates, d);
    StopInRange(ids, d.rejected, d.unresolved, plan, stop);
    var confirmed, rejected, unresolved := AtStop(ids, d, stop);
    var eligible := d.prefix - |d.rejected| - |d.unresolved|;
    var deficit := Max0(TARGET - eligible);
    var over := if stop.NotReached? then 0 else d.prefix - stop.index;
    r := Review(
      gate && eligible >= TARGET, eligible, |d.rejected|, |d.unresolved|, |candidates| - d.prefix, stop,
      confirmed, rejected, unresolved, over,
      if stop.NotReached? then 0 else eligible - confirmed,
      over == 0 && d.unresolved == {}, deficit,
      deficit == 0 || (|candidates| == d.prefix && d.unresolved == {}));
    Adds(candidates, d, gate, r);
  }

  /** Fields computed from the set sizes are the running counts. */
  lemma Adds(candidates: seq<Id>, d: Decision, gate: bool, r: Review)
    requires Distinct(candidates) && WellFormed(candidates, d) && StopIndex(r.stop) <= d.prefix
    requires var ids := candidates[..d.prefix];
      && r.confirmedAtStop == Confirmations(ids, d.rejected, d.unresolved, StopIndex(r.stop))
      && r.rejectedAtStop == Rejections(ids, d.rejected, StopIndex(r.stop))
      && r.confirmedAtStop + r.rejectedAtStop + r.unresolvedAtStop == StopIndex(r.stop)
    requires r.eligible == d.prefix - |d.rejected| - |d.unresolved|
    requires r.rejected == |d.rejected| && r.unresolved == |d.unresolved| && r.unreviewed == |candidates| - d.prefix
    requires r.powered == (gate && r.eligible >= TARGET) && r.deficit == Max0(TARGET - r.eligible)
    requires r.deficitExact == (r.deficit == 0 || (|candidates| == d.prefix && d.unresolved == {}))
    requires r.reviewedAfterStop == if r.stop.NotReached? then 0 else d.prefix - r.stop.index
    requires r.confirmedAfterStop == if r.stop.NotReached? then 0 else r.eligible - r.confirmedAtStop
    requires r.clean == (r.reviewedAfterStop == 0 && d.unresolved == {})
    ensures Counted(candidates, d, gate, r)
  {
    hide Rejections, Confirmations, IdsOf, Distinct, Max0;
    PrefixSizes(candidates, d);
  }

  /** The reported numbers, in terms of the running counts. */
  predicate Counted(candidates: seq<Id>, d: Decision, gate: bool, r: Review)
    requires WellFormed(candidates, d)
  {
    var ids := candidates[..d.prefix];
    var index := StopIndex(r.stop);
    && index <= |ids|
    && r.eligible == Confirmations(ids, d.rejected, d.unresolved, |ids|)
    && r.rejected == Rejections(ids, d.rejected, |ids|)
    && r.eligible + r.rejected + r.unresolved + r.unreviewed == |candidates|
    && r.unresolved == |d.unresolved|
    && r.unreviewed == |candidates| - d.prefix
    && r.confirmedAtStop == Confirmations(ids, d.rejected, d.unresolved, index)
    && r.rejectedAtStop == Rejections(ids, d.rejected, index)
    && r.confirmedAtStop + r.rejectedAtStop + r.unresolvedAtStop == index
    && AfterStop(d, r)
    && r.powered == (gate && r.eligible >= TARGET)
    && r.deficit == Max0(TARGET - r.eligible)
    && r.deficitExact == (r.deficit == 0 || (r.unreviewed == 0 && r.unresolved == 0))
    && r.clean == (r.unresolved == 0 && (r.stop.NotReached? || index == d.prefix))
  }

  /** What was reviewed past the stop; nothing when no stop was reached. */
  predicate AfterStop(d: Decision, r: Review) {
    if r.stop.NotReached? then r.reviewedAfterStop == 0 && r.confirmedAfterStop == 0
    else r.stop.index + r.reviewedAfterStop == d.prefix && r.confirmedAtStop + r.confirmedAfterStop == r.eligible
  }

  lemma NoIds(ids: seq<Id>)
    ensures IdsOf(ids[..0]) == {}
  {
  }

  lemma StopInRange(ids: seq<Id>, rejected: set<Id>, unresolved: set<Id>, plan: Plan, stop: Stop)
    requires plan.Plan? && IsFirstStop(ids, rejected, unresolved, plan, stop)
    ensures stop != NotReached ==> 1 <= stop.index <= |ids|
  {
  }

  lemma PrefixSizes(candidates: seq<Id>, d: Decision)
    requires Distinct(candidates) && WellFormed(candidates, d)
    ensures Distinct(candidates[..d.prefix])
    ensures var ids := candidates[..d.prefix];
      && |d.rejected| == Rejections(ids, d.rejected, |ids|)
      && |d.unresolved| == d.prefix - Rejections(ids, d.rejected, |ids|) - Confirmations(ids, d.rejected, d.unresolved, |ids|)
  {
    var ids := candidates[..d.prefix];
    CountsAreSizes(ids, d.rejected, d.unresolved, |ids|);
    assert ids[..|ids|] == ids;
    assert IdsOf(ids) * d.rejected == d.rejected && IdsOf(ids) * d.unresolved == d.unresolved;
  }

  /** For gate classes "powered" is reported exactly when the confirmation stop was
      reached, however much was reviewed beyond it. */
  lemma PoweredIffConfirmed(candidates: seq<Id>, d: Decision, r: Review)
    requires Distinct(candidates) && WellFormed(candidates, d) && |candidates| >= TARGET
    requires IsFirstStop(candidates[..d.prefix], d.rejected, d.unresolved, PlanFor(|candidates|, TARGET), r.stop)
    requires Counted(candidates, d, true, r)
    ensures r.powered <==> r.stop.ConfirmedAt?
  {
    var ids := candidates[..d.prefix];
    if r.stop.ConfirmedAt? {
      CountsMonotone(ids, d.rejected, d.unresolved, r.stop.index, |ids|);
    } else if r.stop.RejectedAt? {
      CountsMonotone(ids, d.rejected, d.unresolved, r.stop.index, |ids|);
      CountsShare(ids, d.rejected, d.unresolved, |ids|);
    } else {
      assert Open(ids, d.rejected, d.unresolved, PlanFor(|candidates|, TARGET), |ids|);
    }
  }

  // ----- what a partial review already knows -----

  /** A final verdict consistent with the decisions: the rejected ones stay rejected,
      the confirmed ones stay confirmed. */
  ghost predicate Completes(candidates: seq<Id>, d: Decision, final: set<Id>)
    requires WellFormed(candidates, d)
  {
    && d.rejected <= final <= IdsOf(candidates)
    && final * (IdsOf(candidates[..d.prefix]) - d.unresolved) <= d.rejected
  }

  function FinalDeficit(candidates: seq<Id>, final: set<Id>): int {
    Max0(TARGET - (|candidates| - |final|))
  }

  lemma {:induction false} IdsOfSize(ids: seq<Id>)
    requires Distinct(ids)
    ensures |IdsOf(ids)| == |ids|
    decreases |ids|
  {
    CountsAreSizes(ids, IdsOf(ids), {}, |ids|);
    assert ids[..|ids|] == ids;
    assert IdsOf(ids) * IdsOf(ids) == IdsOf(ids) && IdsOf(ids) - IdsOf(ids) - {} == {};
    assert IdsOf(ids) * {} == {};
  }

  /** The reported deficit is exact precisely when every completion of the review has it. */
  lemma DeficitExactIff(candidates: seq<Id>, d: Decision, gate: bool, r: Review)
    requires Distinct(candidates) && WellFormed(candidates, d) && Counted(candidates, d, gate, r)
    ensures r.deficitExact <==>
            forall final :: Completes(candidates, d, final) ==> FinalDeficit(candidates, final) == r.deficit
  {
    var all, seen := IdsOf(candidates), IdsOf(candidates[..d.prefix]);
    IdsOfSize(candidates);
    IdsOfSize(candidates[..d.prefix]);
    PrefixSizes(candidates, d);
    PrefixIsSubset(candidates, d.prefix);
    if r.deficitExact {
      forall final | Completes(candidates, d, final) ensures FinalDeficit(candidates, final) == r.deficit {
        CompletionSize(candidates, d, final);
      }
    } else {
      LeastRejecting(candidates, d);
      assert Completes(candidates, d, d.rejected) && FinalDeficit(candidates, d.rejected) != r.deficit;
    }
  }

  lemma PrefixIsSubset(candidates: seq<Id>, n: nat)
    requires n <= |candidates|
    ensures IdsOf(candidates[..n]) <= IdsOf(candidates)
  {
    forall x | x in IdsOf(candidates[..n]) ensures x in IdsOf(candidates) {
      var i :| 0 <= i < n && candidates[..n][i] == x;
      assert candidates[i] == x;
    }
  }

  lemma LeastRejecting(candidates: seq<Id>, d: Decision)
    requires WellFormed(candidates, d)
    ensures Completes(candidates, d, d.rejected)
  {
    PrefixIsSubset(candidates, d.prefix);
  }

  /** A completion rejects at least the rejected and at most everything not confirmed. */
  lemma CompletionSize(candidates: seq<Id>, d: Decision, final: set<Id>)
    requires Distinct(candidates) && WellFormed(candidates, d) && Completes(candidates, d, final)
    ensures |d.rejected| <= |final| <= |d.rejected| + |d.unresolved| + (|candidates| - d.prefix)
  {
    var all, seen := IdsOf(candidates), IdsOf(candidates[..d.prefix]);
    IdsOfSize(candidates);
    IdsOfSize(candidates[..d.prefix]);
    PrefixIsSubset(candidates, d.prefix);
    SubsetSize(d.rejected, final);
    var open := d.unresolved + (all - seen);
    assert final <= d.rejected + open;
    SubsetSize(final, d.rejected + open);
    assert all == seen + (all - seen);
    UnionSize(d.rejected, open);
    UnionSize(d.unresolved, all - seen);
  }

  lemma SubsetSize(a: set<Id>, b: set<Id>)
    requires a <= b
    ensures |a| <= |b|
  {
    assert b == a + (b - a);
  }

  lemma UnionSize(a: set<Id>, b: set<Id>)
    ensures |a + b| <= |a| + |b|
  {
    assert a + b == a + (b - a);
    SubsetSize(b - a, b);
  }

  /** Base questions to ask for so that, at the locked share 11/16, a deficit closes. */
  function ExpectedAdditional(deficit: nat): nat {
    (16 * deficit + 10) / 11
  }

  lemma ExpectedAdditionalIsLeast(deficit: nat, q: nat)
    ensures 0.6875 * q as real >= deficit as real <==> q >= ExpectedAdditional(deficit)
  {
    var e := ExpectedAdditional(deficit);
    assert 11 * e <= 16 * deficit + 10 < 11 * e + 11;
    assert 0.6875 * q as real >= deficit as real <==> 11 * q >= 16 * deficit;
  }
}
