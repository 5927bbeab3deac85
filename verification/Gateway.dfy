/** Concurrent requests of one API key through `proxy_to_upstream`, as steps that
    interleave arbitrarily.  Database failures are steps too. */
module Gateway {
  import H = History
  import opened Metering
  import opened Wrappers

  /** Where a request stands after its reservation was attempted. */
  datatype Phase =
    | Reserved        // granted, rate limiter not yet asked
    | Forwarding      // admitted, body or upstream outstanding
    | Answered        // 2xx or 3xx received, not yet recorded
    | Returning       // must give its reservation back
    | Recorded        // recorded, but pruning failed: must give its reservation back
    | Settled         // done: counted and recorded
    | Released        // done: reservation given back
    | RecordedOnly    // done: recorded, reservation given back
    | Kept            // done: exited while its reservation stays counted
    | KeptRecorded    // done: recorded, and its reservation could not be given back
    | Turned          // done: never had a reservation

  datatype State = State(row: Option<Row>, daily: nat, phases: map<nat, Phase>)

  datatype Action =
    | Arrive(id: nat, now: int)
    | ArriveFails(id: nat)           // the reservation statement fails
    | RateOk(id: nat)
    | RateLimited(id: nat)
    | BodyOrSendFails(id: nat)
    | Success(id: nat)               // status 2xx or 3xx
    | Failure(id: nat)               // any other status
    | Record(id: nat)
    | RecordFails(id: nat)           // the insert of record_daily fails
    | PruneFails(id: nat)            // the insert succeeds, the delete fails
    | GiveBack(id: nat)
    | GiveBackFails(id: nat)

  predicate At(s: State, id: nat, p: Phase) { id in s.phases && s.phases[id] == p }

  predicate Enabled(s: State, a: Action) {
    match a
    case Arrive(id, _) => id !in s.phases
    case ArriveFails(id) => id !in s.phases
    case RateOk(id) => At(s, id, Reserved)
    case RateLimited(id) => At(s, id, Reserved)
    case BodyOrSendFails(id) => At(s, id, Forwarding)
    case Success(id) => At(s, id, Forwarding)
    case Failure(id) => At(s, id, Forwarding)
    case Record(id) => At(s, id, Answered)
    case RecordFails(id) => At(s, id, Answered)
    case PruneFails(id) => At(s, id, Answered)
    case GiveBack(id) => At(s, id, Returning) || At(s, id, Recorded)
    case GiveBackFails(id) => At(s, id, Returning) || At(s, id, Recorded)
  }

  function Move(s: State, id: nat, p: Phase): State { s.(phases := s.phases[id := p]) }

  function Next(s: State, a: Action, limit: int): State
    requires Enabled(s, a)
  {
    match a
    case Arrive(id, now) =>
      var (row, granted) := Reserve(s.row, now, limit);
      Move(s, id, if granted then Reserved else Turned).(row := row)
    case ArriveFails(id) => Move(s, id, Turned)
    case RateOk(id) => Move(s, id, Forwarding)
    case RateLimited(id) => Move(s, id, Returning)
    case BodyOrSendFails(id) => Move(s, id, Kept)
    case Success(id) => Move(s, id, Answered)
    case Failure(id) => Move(s, id, Returning)
    case Record(id) => Move(s, id, Settled).(daily := s.daily + 1)
    case RecordFails(id) => Move(s, id, Returning)
    case PruneFails(id) => Move(s, id, Recorded).(daily := s.daily + 1)
    case GiveBack(id) =>
      Move(s, id, if At(s, id, Recorded) then RecordedOnly else Released).(row := ReleaseOne(s.row))
    case GiveBackFails(id) => Move(s, id, if At(s, id, Recorded) then KeptRecorded else Kept)
  }

  const INIT := State(None, 0, map[])

  /** The state after a schedule; `None` when some step was not enabled. */
  function Run(actions: seq<Action>, limit: int): Option<State> {
    if actions == [] then Some(INIT)
    else
      var n := |actions| - 1;
      match Run(actions[..n], limit)
      case None => None
      case Some(s) => if Enabled(s, actions[n]) then Some(Next(s, actions[n], limit)) else None
  }

  /** No arrival falls into a later period than the row it finds. */
  predicate OnePeriod(actions: seq<Action>, limit: int) {
    if actions == [] then true
    else
      var n := |actions| - 1;
      var s := Run(actions[..n], limit);
      && OnePeriod(actions[..n], limit)
      && (s.Some? && actions[n].Arrive? && s.value.row.Some? ==> !Expired(s.value.row.value, actions[n].now))
  }

  // ---------------------------------------------------------- conservation

  predicate InFlight(p: Phase) {
    p.Reserved? || p.Forwarding? || p.Answered? || p.Returning? || p.Recorded?
  }

  /** Requests whose reservation is part of the stored count. */
  predicate Counted(p: Phase) { InFlight(p) || p.Settled? || p.Kept? || p.KeptRecorded? }

  /** Requests that are part of the daily total. */
  predicate InDaily(p: Phase) { p.Recorded? || p.Settled? || p.RecordedOnly? || p.KeptRecorded? }

  function Members(phases: map<nat, Phase>, f: Phase -> bool): set<nat> {
    set id | id in phases && f(phases[id])
  }

  function Number(s: State, f: Phase -> bool): nat { |Members(s.phases, f)| }

  function CountOf(row: Option<Row>): int { if row.None? then 0 else row.value.count }

  predicate Conserved(s: State, limit: int) {
    && CountOf(s.row) == Number(s, Counted)
    && s.daily == Number(s, InDaily)
    && CountOf(s.row) <= limit
  }

  lemma OneMoved(before: set<nat>, after: set<nat>, id: nat)
    requires after - {id} == before - {id}
    ensures |after| == |before| - (if id in before then 1 else 0) + (if id in after then 1 else 0)
  {
    assert |after| == |after - {id}| + (if id in after then 1 else 0);
    assert |before| == |before - {id}| + (if id in before then 1 else 0);
  }

  lemma MoveMembers(phases: map<nat, Phase>, id: nat, p: Phase, f: Phase -> bool)
    ensures |Members(phases[id := p], f)| ==
            |Members(phases, f)| - (if id in phases && f(phases[id]) then 1 else 0) + (if f(p) then 1 else 0)
  {
    var before, after := Members(phases, f), Members(phases[id := p], f);
    assert after - {id} == before - {id};
    OneMoved(before, after, id);
  }

  lemma StepConserves(s: State, a: Action, limit: int)
    requires limit >= 1 && Conserved(s, limit) && Enabled(s, a)
    requires a.Arrive? && s.row.Some? ==> !Expired(s.row.value, a.now)
    ensures Conserved(Next(s, a, limit), limit)
  {
    var s' := Next(s, a, limit);
    assert s'.phases == s.phases[a.id := s'.phases[a.id]];
    hide Members;
    MoveMembers(s.phases, a.id, s'.phases[a.id], Counted);
    MoveMembers(s.phases, a.id, s'.phases[a.id], InDaily);
  }

  /** Conservation over every schedule within one period, database failures included:
      the stored count is the number of requests that hold or kept a reservation, the
      daily total the number that were recorded, and the count respects the limit. */
  lemma {:induction false} Conservation(actions: seq<Action>, limit: int)
    requires limit >= 1 && OnePeriod(actions, limit) && Run(actions, limit).Some?
    ensures Conserved(Run(actions, limit).value, limit)
    decreases |actions|
  {
    if actions == [] {
      assert Members(map[], Counted) == {} && Members(map[], InDaily) == {};
    } else {
      var n := |actions| - 1;
      Conservation(actions[..n], limit);
      StepConserves(Run(actions[..n], limit).value, actions[n], limit);
    }
  }

  predicate DatabaseFailure(a: Action) {
    a.ArriveFails? || a.RecordFails? || a.PruneFails? || a.GiveBackFails?
  }

  function Occurrences(actions: seq<Action>, f: Action -> bool): nat {
    if actions == [] then 0
    else Occurrences(actions[..|actions| - 1], f) + if f(actions[|actions| - 1]) then 1 else 0
  }

  function One(b: bool): nat { if b then 1 else 0 }

  /** Step `a` moves its request into or out of the phases `f` exactly as `enters` and
      `leaves` say. */
  predicate Moves(s: State, a: Action, limit: int, f: Phase -> bool, enters: Action -> bool, leaves: Action -> bool)
    requires Enabled(s, a)
  {
    var p := Next(s, a, limit).phases;
    && a.id in p && p == s.phases[a.id := p[a.id]]
    && One(f(p[a.id])) + One(leaves(a)) == One(a.id in s.phases && f(s.phases[a.id])) + One(enters(a))
  }

  /** Flow through a set of phases: whatever entered is there or has left. */
  lemma {:induction false} Flow(actions: seq<Action>, limit: int, allowed: Action -> bool,
                                f: Phase -> bool, enters: Action -> bool, leaves: Action -> bool)
    requires Run(actions, limit).Some? && forall i :: 0 <= i < |actions| ==> allowed(actions[i])
    requires forall s, a :: Enabled(s, a) && allowed(a) ==> Moves(s, a, limit, f, enters, leaves)
    ensures Occurrences(actions, enters) == Occurrences(actions, leaves) + Number(Run(actions, limit).value, f)
    decreases |actions|
  {
    if actions == [] {
      assert Members(map[], f) == {};
    } else {
      var n := |actions| - 1;
      Flow(actions[..n], limit, allowed, f, enters, leaves);
      var s, a := Run(actions[..n], limit).value, actions[n];
      assert Moves(s, a, limit, f, enters, leaves);
      MoveMembers(s.phases, a.id, Next(s, a, limit).phases[a.id], f);
      hide Members, Next, Enabled;
    }
  }

  predicate Any(a: Action) { true }
  predicate Never(a: Action) { false }
  predicate Healthy(a: Action) { !DatabaseFailure(a) }

  predicate IsAdmitted(a: Action) { a.RateOk? }
  predicate IsSuccess(a: Action) { a.Success? }
  predicate IsRecord(a: Action) { a.Record? }
  predicate IsPruneFailure(a: Action) { a.PruneFails? }
  predicate IsExit(a: Action) { a.BodyOrSendFails? }
  predicate IsRejection(a: Action) { a.RateLimited? || a.Failure? }
  predicate EndsForwarding(a: Action) { a.Success? || a.Failure? || a.BodyOrSendFails? }
  predicate EndsAnswered(a: Action) { a.Record? || a.RecordFails? || a.PruneFails? }
  predicate IsUnserved(a: Action) { IsRejection(a) || IsExit(a) || a.RecordFails? }

  predicate IsForwarding(p: Phase) { p.Forwarding? }
  predicate IsAnswered(p: Phase) { p.Answered? }
  predicate IsSettled(p: Phase) { p.Settled? }
  predicate IsKept(p: Phase) { p.Kept? }
  predicate Rejected(p: Phase) { p.Returning? || p.Released? }
  predicate Succeeded(p: Phase) { p.Answered? || p.Settled? }
  predicate PartlyRecorded(p: Phase) { p.Recorded? || p.RecordedOnly? || p.KeptRecorded? }
  predicate NotServed(p: Phase) { Rejected(p) || p.Kept? }

  lemma {:induction false} NeverOccurs(actions: seq<Action>)
    ensures Occurrences(actions, Never) == 0
  {
    if actions != [] {
      NeverOccurs(actions[..|actions| - 1]);
    }
  }

  /** What became of the requests, over every run with database failures: admitted ones are
      forwarding or were answered or failed; successful ones wait to be recorded, were, or
      met a database failure; the settled ones are those recorded; those rate limited,
      failed upstream or not recorded give their reservation back or are left holding it. */
  lemma RequestsFollowTrace(actions: seq<Action>, limit: int)
    requires Run(actions, limit).Some?
    ensures var s := Run(actions, limit).value;
            && Occurrences(actions, IsAdmitted) == Occurrences(actions, EndsForwarding) + Number(s, IsForwarding)
            && Occurrences(actions, IsSuccess) == Occurrences(actions, EndsAnswered) + Number(s, IsAnswered)
            && Occurrences(actions, IsRecord) == Number(s, IsSettled)
            && Occurrences(actions, IsPruneFailure) == Number(s, PartlyRecorded)
            && Occurrences(actions, IsUnserved) == Number(s, NotServed)
  {
    hide Occurrences, Run, Members;
    NeverOccurs(actions);
    Flow(actions, limit, Any, IsForwarding, IsAdmitted, EndsForwarding);
    Flow(actions, limit, Any, IsAnswered, IsSuccess, EndsAnswered);
    Flow(actions, limit, Any, IsSettled, IsRecord, Never);
    Flow(actions, limit, Any, PartlyRecorded, IsPruneFailure, Never);
    Flow(actions, limit, Any, NotServed, IsUnserved, Never);
  }

  /** Without database failures: the requests answered or settled are the 2xx and 3xx
      answers, those recorded the settled ones, those giving or having given back the rate
      limited and failed ones, and the ones that kept their reservation those whose body
      or upstream failed. */
  lemma PhasesMatchTrace(actions: seq<Action>, limit: int)
    requires Run(actions, limit).Some? && forall i :: 0 <= i < |actions| ==> Healthy(actions[i])
    ensures var s := Run(actions, limit).value;
            && Number(s, Succeeded) == Occurrences(actions, IsSuccess)
            && Number(s, IsSettled) == Occurrences(actions, IsRecord)
            && Number(s, Rejected) == Occurrences(actions, IsRejection)
            && Number(s, IsKept) == Occurrences(actions, IsExit)
            && Number(s, PartlyRecorded) == 0
  {
    hide Occurrences, Run, Members;
    NeverOccurs(actions);
    Flow(actions, limit, Healthy, Succeeded, IsSuccess, Never);
    Flow(actions, limit, Healthy, IsSettled, IsRecord, Never);
    Flow(actions, limit, Healthy, Rejected, IsRejection, Never);
    Flow(actions, limit, Healthy, IsKept, IsExit, Never);
    Flow(actions, limit, Healthy, PartlyRecorded, Never, Never);
  }

  /** Requests holding a reservation that have no upstream answer, or a failed one. */
  predicate Unanswered(p: Phase) { p.Reserved? || p.Forwarding? || p.Returning? }

  lemma CountedSplits(s: State)
    requires Number(s, PartlyRecorded) == 0
    ensures Number(s, Counted) == Number(s, Succeeded) + Number(s, Unanswered) + Number(s, IsKept)
    ensures Number(s, InDaily) == Number(s, IsSettled)
    ensures Number(s, Succeeded) == Number(s, IsSettled) + Number(s, IsAnswered)
  {
    var succeeded, waiting, kept := Members(s.phases, Succeeded), Members(s.phases, Unanswered), Members(s.phases, IsKept);
    assert forall id :: id in s.phases && PartlyRecorded(s.phases[id]) ==> id in Members(s.phases, PartlyRecorded);
    assert Members(s.phases, Counted) == succeeded + waiting + kept;
    assert succeeded !! waiting && (succeeded + waiting) !! kept;
    assert Members(s.phases, InDaily) == Members(s.phases, IsSettled);
    assert succeeded == Members(s.phases, IsSettled) + Members(s.phases, IsAnswered);
    assert Members(s.phases, IsSettled) !! Members(s.phases, IsAnswered);
  }

  /** Without database failures, for every interleaving: the stored count is the successful
      responses, plus the requests that exited at the body read or the upstream send, plus
      those without a successful answer that still hold their reservation; the daily total
      is the successful responses that are not waiting to be recorded. */
  lemma ConservationWithoutFailures(actions: seq<Action>, limit: int)
    requires limit >= 1 && OnePeriod(actions, limit) && Run(actions, limit).Some?
    requires forall i :: 0 <= i < |actions| ==> Healthy(actions[i])
    ensures var s := Run(actions, limit).value;
            && CountOf(s.row) == Occurrences(actions, IsSuccess) + Occurrences(actions, IsExit) + Number(s, Unanswered) <= limit
            && s.daily + Number(s, IsAnswered) == Occurrences(actions, IsSuccess)
  {
    hide Run, OnePeriod, Members, CountOf, Occurrences;
    Conservation(actions, limit);
    PhasesMatchTrace(actions, limit);
    CountedSplits(Run(actions, limit).value);
  }

  // --------------------------------------------------------------- rollover

  predicate RollsOver(s: State, a: Action) { a.Arrive? && StartsPeriod(s.row, a.now) }

  /** Exactly when a rollover keeps the equation: nothing was counted before it. */
  lemma RolloverConservesIff(s: State, a: Action, limit: int)
    requires limit >= 1 && Conserved(s, limit) && Enabled(s, a) && RollsOver(s, a)
    ensures Conserved(Next(s, a, limit), limit) <==> Number(s, Counted) == 0
  {
    hide Members;
    MoveMembers(s.phases, a.id, Reserved, Counted);
    MoveMembers(s.phases, a.id, Reserved, InDaily);
  }

  /** The current period: the requests granted in it, how many releases came from requests
      of earlier periods, and how many releases found the count at zero. */
  datatype Ledger = Ledger(current: set<nat>, foreign: nat, wasted: nat)

  function Enter(g: Ledger, s: State, a: Action, limit: int): Ledger {
    match a
    case Arrive(id, now) =>
      if StartsPeriod(s.row, now) then Ledger({id}, 0, 0)
      else if Reserve(s.row, now, limit).1 then g.(current := g.current + {id})
      else g
    case GiveBack(id) =>
      Ledger(g.current,
             g.foreign + (if id in g.current then 0 else 1),
             g.wasted + (if CountOf(s.row) == 0 then 1 else 0))
    case _ => g
  }

  function LedgerOf(actions: seq<Action>, limit: int): Ledger {
    if actions == [] then Ledger({}, 0, 0)
    else
      var n := |actions| - 1;
      match Run(actions[..n], limit)
      case None => LedgerOf(actions[..n], limit)
      case Some(s) => Enter(LedgerOf(actions[..n], limit), s, actions[n], limit)
  }

  /** Requests that hold or kept a reservation of the current period. */
  function CurrentCounted(s: State, g: Ledger): set<nat> { Members(s.phases, Counted) * g.current }

  predicate Balanced(s: State, g: Ledger, limit: int) {
    && g.current <= s.phases.Keys
    && CountOf(s.row) == |CurrentCounted(s, g)| - g.foreign + g.wasted
    && g.wasted <= g.foreign
    && 0 <= CountOf(s.row) <= limit
    && s.daily == Number(s, InDaily)
  }

  lemma MoveCurrent(phases: map<nat, Phase>, id: nat, p: Phase, current: set<nat>)
    requires id !in current || id in phases
    ensures |Members(phases[id := p], Counted) * current| ==
            |Members(phases, Counted) * current|
            - (if id in current && Counted(phases[id]) then 1 else 0) + (if id in current && Counted(p) then 1 else 0)
  {
    var before, after := Members(phases, Counted) * current, Members(phases[id := p], Counted) * current;
    hide Counted;
    assert after - {id} == before - {id};
    OneMoved(before, after, id);
  }

  /** A granted request joins the current period. */
  lemma Joins(s: State, g: Ledger, id: nat)
    requires id !in s.phases && g.current <= s.phases.Keys
    ensures |Members(s.phases[id := Reserved], Counted) * (g.current + {id})| == |CurrentCounted(s, g)| + 1
    ensures |Members(s.phases[id := Reserved], Counted) * {id}| == 1
  {
    assert Members(s.phases[id := Reserved], Counted) * (g.current + {id}) == CurrentCounted(s, g) + {id};
    assert Members(s.phases[id := Reserved], Counted) * {id} == {id};
  }

  lemma ArrivalBalances(s: State, g: Ledger, a: Action, limit: int)
    requires limit >= 1 && Balanced(s, g, limit) && Enabled(s, a) && a.Arrive?
    ensures Balanced(Next(s, a, limit), Enter(g, s, a, limit), limit)
  {
    hide Members;
    Joins(s, g, a.id);
    if Reserve(s.row, a.now, limit).1 {
      MoveMembers(s.phases, a.id, Reserved, InDaily);
    } else {
      MoveMembers(s.phases, a.id, Turned, InDaily);
      MoveCurrent(s.phases, a.id, Turned, g.current);
    }
  }

  lemma GiveBackBalances(s: State, g: Ledger, a: Action, limit: int)
    requires limit >= 1 && Balanced(s, g, limit) && Enabled(s, a) && a.GiveBack?
    ensures Balanced(Next(s, a, limit), Enter(g, s, a, limit), limit)
  {
    var p := Next(s, a, limit).phases[a.id];
    MoveMembers(s.phases, a.id, p, InDaily);
    MoveCurrent(s.phases, a.id, p, g.current);
    hide Members;
  }

  /** A move that changes neither the row nor whether the request is counted. */
  lemma MoveBalances(s: State, s': State, g: Ledger, id: nat, p: Phase, limit: int)
    requires Balanced(s, g, limit) && s'.row == s.row && s'.phases == s.phases[id := p]
    requires (id in s.phases && Counted(s.phases[id])) == Counted(p)
    requires s'.daily + (if id in s.phases && InDaily(s.phases[id]) then 1 else 0) == s.daily + if InDaily(p) then 1 else 0
    ensures Balanced(s', g, limit)
  {
    hide Members;
    MoveMembers(s.phases, id, p, InDaily);
    MoveCurrent(s.phases, id, p, g.current);
  }

  lemma StepBalances(s: State, g: Ledger, a: Action, limit: int)
    requires limit >= 1 && Balanced(s, g, limit) && Enabled(s, a)
    ensures Balanced(Next(s, a, limit), Enter(g, s, a, limit), limit)
  {
    hide Balanced, ReleaseOne, Reserve;
    if a.Arrive? {
      ArrivalBalances(s, g, a, limit);
    } else if a.GiveBack? {
      GiveBackBalances(s, g, a, limit);
    } else {
      MoveBalances(s, Next(s, a, limit), g, a.id, Next(s, a, limit).phases[a.id], limit);
    }
  }

  /** Conservation over every run, across periods and with database failures: the count is
      the requests that hold or kept a reservation of the current period, less the releases
      by requests of earlier periods, plus the releases that found the count at zero; it
      never leaves 0 .. limit, and the daily total is the recorded requests. */
  lemma {:induction false} ConservationAcrossPeriods(actions: seq<Action>, limit: int)
    requires limit >= 1 && Run(actions, limit).Some?
    ensures Balanced(Run(actions, limit).value, LedgerOf(actions, limit), limit)
    decreases |actions|
  {
    hide Balanced, Enter, Next;
    if actions == [] {
      EmptyBalances(limit);
    } else {
      var n := |actions| - 1;
      ConservationAcrossPeriods(actions[..n], limit);
      StepBalances(Run(actions[..n], limit).value, LedgerOf(actions[..n], limit), actions[n], limit);
    }
  }

  lemma EmptyBalances(limit: int)
    requires limit >= 1
    ensures Balanced(INIT, Ledger({}, 0, 0), limit)
  {
    assert Members(map[], Counted) == {} && Members(map[], InDaily) == {};
  }

  /** Exactly when the simple equation holds after a run across any number of periods: no
      request of an earlier period is still counted, and every release by one of them was
      made up for by a release that found the count at zero. */
  lemma ConservedIff(actions: seq<Action>, limit: int)
    requires limit >= 1 && Run(actions, limit).Some?
    ensures var s, g := Run(actions, limit).value, LedgerOf(actions, limit);
            Conserved(s, limit) <==> Members(s.phases, Counted) <= g.current && g.foreign == g.wasted
  {
    hide Run, LedgerOf, Members;
    ConservationAcrossPeriods(actions, limit);
    var s, g := Run(actions, limit).value, LedgerOf(actions, limit);
    var counted := Members(s.phases, Counted);
    assert counted == (counted * g.current) + (counted - g.current);
    assert |counted| == |counted * g.current| + |counted - g.current|;
    assert counted <= g.current <==> counted - g.current == {};
  }

  /** A run that breaks it: a rollover forgets the reservation of a request in flight. */
  lemma RolloverForgetsReservations(limit: int)
    requires limit >= 1
    ensures var s := Run([Arrive(0, 0), Arrive(1, PERIOD_SECS)], limit);
            s.Some? && CountOf(s.value.row) == 1 && Number(s.value, Counted) == 2
  {
    var actions := [Arrive(0, 0), Arrive(1, PERIOD_SECS)];
    var s1 := State(Some(Row(1, 0, 0)), 0, map[0 := Reserved]);
    assert actions[..1] == [Arrive(0, 0)] && actions[..1][..0] == [];
    assert Run(actions[..1][..0], limit) == Some(INIT);
    assert Run(actions[..1], limit) == Some(s1);
    var s2 := State(Some(Row(1, PERIOD_SECS, PERIOD_SECS)), 0, map[0 := Reserved, 1 := Reserved]);
    assert Run(actions, limit) == Some(s2);
    assert Members(s2.phases, Counted) == {0, 1};
  }

  // ---------------------------------------------------- one request, in order

  datatype Upstream = BodyUnreadable | SendFailed | Status(code: nat)
  datatype Reply = QuotaExhausted | TooManyRequests | UpstreamError | Forwarded(code: nat)

  predicate Charged(u: Upstream) { u.Status? ==> 200 <= u.code < 400 }

  /** `proxy_to_upstream` with a healthy database; rate limiter and upstream are
      parameters.  Alone in its period, a request is charged exactly when it succeeds or
      ends in an upstream error, and appears in the daily total exactly when it succeeds. */
  method ProxyToUpstream(usage: UsageRecords, daily: H.DailyUsageRows, key: string, now: nat, limit: int,
                         rateOk: bool, upstream: Upstream) returns (reply: Reply)
    requires limit >= 1 && (key in usage.rows ==> usage.rows[key].count >= 0)
    modifies usage, daily
    ensures reply == QuotaExhausted <==> old(View(usage.RowOf(key), now)).count >= limit
    ensures View(usage.RowOf(key), now).count ==
            old(View(usage.RowOf(key), now)).count + (if reply != QuotaExhausted && rateOk && Charged(upstream) then 1 else 0)
    ensures daily.BucketsOf(key) ==
            if reply != QuotaExhausted && rateOk && upstream.Status? && Charged(upstream)
            then H.RecordDaily(old(daily.BucketsOf(key)), now) else old(daily.BucketsOf(key))
    ensures reply != QuotaExhausted ==>
              reply == (if !rateOk then TooManyRequests else if upstream.Status? then Forwarded(upstream.code) else UpstreamError)
    ensures forall k :: k in old(usage.rows) && k != key ==> k in usage.rows && usage.rows[k] == old(usage.rows)[k]
  {
    hide H.RecordDaily;
    var reserved := usage.TryReserve(key, now, limit);
    if !reserved {
      return QuotaExhausted;
    }
    if !rateOk {
      usage.Release(key);
      return TooManyRequests;
    }
    if !upstream.Status? {
      return UpstreamError;
    }
    if 200 <= upstream.code < 400 {
      daily.Record(key, now);
    } else {
      usage.Release(key);
    }
    reply := Forwarded(upstream.code);
  }
}
