/** Upload deduplication in the indexer: a bounded, expiring cache in front of a
    database of nullifiers, and the webhook loop that relies on it. */
module Dedup {
  import Convert
  import opened Wrappers

  type Nullifier = seq<Convert.Byte>

  /** What a lookup answers: a cached key is found, any other one if the read succeeds and
      the database holds it. */
  predicate Finds(cache: set<Nullifier>, db: set<Nullifier>, n: Nullifier, reads_: bool) {
    n in cache || (reads_ && n in db)
  }

  predicate Distinct(keys: seq<Nullifier>) { forall i, j :: 0 <= i < j < |keys| ==> keys[i] != keys[j] }

  /** The well-sized keys among the first `n`. */
  function FirstKeys(keys: seq<Nullifier>, n: nat): set<Nullifier>
    requires n <= |keys|
  {
    set i | 0 <= i < n && |keys[i]| == 32 :: keys[i]
  }

  lemma NextKey(keys: seq<Nullifier>, n: nat)
    requires n < |keys|
    ensures FirstKeys(keys, n + 1) == FirstKeys(keys, n) + if |keys[n]| == 32 then {keys[n]} else {}
    ensures Distinct(keys) ==> keys[n] !in FirstKeys(keys, n)
  {
  }

  class NullifierStore {
    var cache: set<Nullifier>
    var db: set<Nullifier>

    ghost predicate Valid()
      reads this
    {
      cache <= db
    }

    /** `open`: warm the cache from the keys in iteration order, skipping keys that are not
        32 bytes, until `capacity` have been loaded. */
    constructor (stored: seq<Nullifier>, capacity: nat)
      ensures Valid() && db == (set k | k in stored) && cache <= db
      ensures |cache| <= (if capacity == 0 then 1 else capacity) && forall k :: k in cache ==> |k| == 32
      ensures exists n: nat :: n <= |stored| && cache == FirstKeys(stored, n) &&
                (n == |stored| || (Distinct(stored) ==> |cache| == if capacity == 0 then 1 else capacity))
    {
      var loaded: set<Nullifier> := {};
      var warmed := 0;
      var i := 0;
      while i < |stored|
        invariant 0 <= i <= |stored|
        invariant forall k :: k in loaded ==> k in stored && |k| == 32
        invariant |loaded| <= warmed && (warmed == 0 || warmed < capacity)
        invariant loaded == FirstKeys(stored, i) && (Distinct(stored) ==> |loaded| == warmed)
      {
        NextKey(stored, i);
        if |stored[i]| == 32 {
          loaded := loaded + {stored[i]};
          warmed := warmed + 1;
          if warmed >= capacity {
            i := i + 1;
            break;
          }
        }
        i := i + 1;
      }
      ghost var end := i;
      assert loaded == FirstKeys(stored, end);
      cache := loaded;
      db := set k | k in stored;
    }

    /** `mark_uploaded`; `writes` says whether the database accepts the key. */
    method MarkUploaded(n: Nullifier, writes: bool) returns (ok: bool)
      requires Valid()
      modifies this
      ensures Valid() && ok == writes
      ensures db == (if writes then old(db) + {n} else old(db))
      ensures cache == if writes then old(cache) + {n} else old(cache)
    {
      if !writes {
        return false;
      }
      db := db + {n};
      cache := cache + {n};
      ok := true;
    }

    /** `contains`; `reads` says whether the database read succeeds. */
    method Contains(n: Nullifier, reads_: bool) returns (found: bool)
      requires Valid()
      modifies this
      ensures Valid() && db == old(db)
      ensures found == Finds(old(cache), db, n, reads_)
      ensures reads_ ==> (found <==> n in db)
      ensures found ==> n in db
      ensures !found ==> n !in old(cache)
      ensures cache == if found then old(cache) + {n} else old(cache)
    {
      if n in cache {
        return true;
      }
      if !reads_ {
        return false;
      }
      if n in db {
        cache := cache + {n};
        return true;
      }
      return false;
    }
  }

  // --------------------------------------------------- deliveries as steps

  /** Where the handling of one delivered event stands.  The handler awaits the upload and
      the event table between the check and the mark, so other deliveries run in between.
      `misread` says that the check missed a stored nullifier. */
  datatype Phase =
    | Uploading(n: Nullifier, misread: bool)
    | Uploaded(n: Nullifier, misread: bool)
    | Over

  /** Steps of delivery `id`, and the process opening the store again. */
  datatype Step =
    | Check(id: nat, n: Nullifier, keeps: set<Nullifier>, reads_: bool)  // `keeps`: not evicted by now
    | Upload(id: nat, n: Nullifier)
    | Abandon(id: nat, n: Nullifier, landed: bool)  // error or dropped handler; the data may have arrived
    | Mark(id: nat, n: Nullifier)
    | Unmarked(id: nat, n: Nullifier)               // the write fails or the handler is dropped
    | Reopen(warmed: set<Nullifier>)

  datatype State = State(cache: set<Nullifier>, db: set<Nullifier>, phases: map<nat, Phase>)

  /** The delivery handles `n` and is between its check and its mark. */
  predicate InFlight(p: Phase, n: Nullifier) { !p.Over? && p.n == n }

  predicate Held(p: Phase, n: Nullifier, uploaded: bool) { InFlight(p, n) && p.Uploaded? == uploaded }

  predicate At(s: State, id: nat, n: Nullifier, uploaded: bool) {
    id in s.phases && Held(s.phases[id], n, uploaded)
  }

  predicate Flying(s: State, n: Nullifier) { exists id :: id in s.phases && InFlight(s.phases[id], n) }

  predicate Enabled(s: State, e: Step) {
    match e
    case Check(id, _, _, _) => id !in s.phases
    case Upload(id, n) => At(s, id, n, false)
    case Abandon(id, n, _) => At(s, id, n, false)
    case Mark(id, n) => At(s, id, n, true)
    case Unmarked(id, n) => At(s, id, n, true)
    case Reopen(_) => forall id :: id in s.phases ==> s.phases[id].Over?
  }

  /** The check answers "duplicate". */
  predicate Skips(s: State, e: Step)
    requires e.Check?
  {
    Finds(s.cache * e.keeps, s.db, e.n, e.reads_)
  }

  function Next(s: State, e: Step): State
    requires Enabled(s, e)
  {
    match e
    case Reopen(warmed) => s.(cache := warmed * s.db)
    case Check(id, n, keeps, reads_) =>
      if Skips(s, e) then State(s.cache * keeps + {n}, s.db, s.phases[id := Over])
      else State(s.cache * keeps, s.db, s.phases[id := Uploading(n, n in s.db)])
    case Upload(id, n) => s.(phases := s.phases[id := Uploaded(n, s.phases[id].misread)])
    case Abandon(id, n, _) => s.(phases := s.phases[id := Over])
    case Mark(id, n) => State(s.cache + {n}, s.db + {n}, s.phases[id := Over])
    case Unmarked(id, n) => s.(phases := s.phases[id := Over])
  }

  const INIT := State({}, {}, map[])

  /** The state after a schedule; `None` when some step was not enabled. */
  function Run(steps: seq<Step>): Option<State> {
    if steps == [] then Some(INIT)
    else
      var k := |steps| - 1;
      match Run(steps[..k])
      case None => None
      case Some(s) => if Enabled(s, steps[k]) then Some(Next(s, steps[k])) else None
  }

  // ----------------------------------------------------------- what is counted

  /** The data of `n` reaches the archive. */
  predicate IsUpload(e: Step, n: Nullifier) { (e.Upload? || (e.Abandon? && e.landed)) && e.n == n }

  predicate IsMark(e: Step, n: Nullifier) { e.Mark? && e.n == n }

  /** An upload of `n` will have no mark. */
  predicate IsUnrecorded(e: Step, n: Nullifier) { (e.Unmarked? || (e.Abandon? && e.landed)) && e.n == n }

  function Occurrences(steps: seq<Step>, f: (Step, Nullifier) -> bool, n: Nullifier): nat {
    if steps == [] then 0
    else Occurrences(steps[..|steps| - 1], f, n) + if f(steps[|steps| - 1], n) then 1 else 0
  }

  predicate Passes(s: State, e: Step, n: Nullifier) { e.Check? && e.n == n && !Skips(s, e) }

  /** The check cannot see the stored `n`: it is not cached any more and the read fails. */
  predicate IsMisread(s: State, e: Step, n: Nullifier) {
    e.Check? && e.n == n && !e.reads_ && n in s.db && n !in s.cache * e.keeps
  }

  /** The check is made while another delivery of `n` is between its check and its mark,
      before any has been marked. */
  predicate IsCrowded(s: State, e: Step, n: Nullifier) {
    e.Check? && e.n == n && n !in s.db && Flying(s, n)
  }

  function Happening(steps: seq<Step>, f: (State, Step, Nullifier) -> bool, n: Nullifier): nat {
    if steps == [] then 0
    else
      var k := |steps| - 1;
      var s := Run(steps[..k]);
      Happening(steps[..k], f, n) + if s.Some? && f(s.value, steps[k], n) then 1 else 0
  }

  function Uploads(steps: seq<Step>, n: Nullifier): nat { Occurrences(steps, IsUpload, n) }

  function Failures(steps: seq<Step>, n: Nullifier): nat {
    Occurrences(steps, IsUnrecorded, n) + Happening(steps, IsMisread, n)
  }

  function Crowded(steps: seq<Step>, n: Nullifier): nat { Happening(steps, IsCrowded, n) }

  function Waiting(phases: map<nat, Phase>, n: Nullifier, uploaded: bool): set<nat> {
    set id | id in phases && Held(phases[id], n, uploaded)
  }

  lemma MoveWaiting(phases: map<nat, Phase>, id: nat, p: Phase, n: Nullifier, uploaded: bool)
    ensures |Waiting(phases[id := p], n, uploaded)| ==
            |Waiting(phases, n, uploaded)| - (if id in phases && Held(phases[id], n, uploaded) then 1 else 0)
            + (if Held(p, n, uploaded) then 1 else 0)
  {
    var before, after := Waiting(phases, n, uploaded), Waiting(phases[id := p], n, uploaded);
    assert after - {id} == before - {id};
    assert id in after <==> Held(p, n, uploaded);
    assert |after| == |after - {id}| + (if id in after then 1 else 0);
    assert |before| == |before - {id}| + (if id in before then 1 else 0);
  }

  /** How one step moves deliveries of `n` between waiting for the upload and for the mark. */
  lemma StepMoves(s: State, e: Step, n: Nullifier)
    requires Enabled(s, e)
    ensures var s' := Next(s, e);
            && |Waiting(s'.phases, n, false)| == |Waiting(s.phases, n, false)|
                 + (if Passes(s, e, n) then 1 else 0) - (if (e.Upload? || e.Abandon?) && e.n == n then 1 else 0)
            && |Waiting(s'.phases, n, true)| == |Waiting(s.phases, n, true)|
                 + (if e.Upload? && e.n == n then 1 else 0) - (if (e.Mark? || e.Unmarked?) && e.n == n then 1 else 0)
  {
    var s' := Next(s, e);
    hide Waiting;
    if !e.Reopen? {
      assert s'.phases == s.phases[e.id := s'.phases[e.id]];
      MoveWaiting(s.phases, e.id, s'.phases[e.id], n, true);
      MoveWaiting(s.phases, e.id, s'.phases[e.id], n, false);
    }
  }

  lemma NobodyFlying(s: State, n: Nullifier)
    requires !Flying(s, n)
    ensures Waiting(s.phases, n, false) == {} && Waiting(s.phases, n, true) == {}
  {
  }

  // ------------------------------------------------------------------ theorems

  /** Every upload is marked, unrecorded or waiting for its mark, and a nullifier is
      stored exactly when one upload of it has been marked. */
  lemma {:induction false} UploadsAccountedFor(steps: seq<Step>, n: Nullifier)
    requires Run(steps).Some?
    ensures var s := Run(steps).value;
            && s.cache <= s.db && (n in s.db <==> Occurrences(steps, IsMark, n) >= 1)
            && Uploads(steps, n) == Occurrences(steps, IsMark, n) + Occurrences(steps, IsUnrecorded, n) + |Waiting(s.phases, n, true)|
    decreases |steps|
  {
    if steps == [] {
      assert Waiting(map[], n, true) == {};
    } else {
      var k := |steps| - 1;
      UploadsAccountedFor(steps[..k], n);
      StepMoves(Run(steps[..k]).value, steps[k], n);
      hide Waiting;
    }
  }

  /** The same for uploads that have begun. */
  lemma {:induction false} BegunBounded(steps: seq<Step>, n: Nullifier)
    requires Run(steps).Some?
    ensures Uploads(steps, n) + |Waiting(Run(steps).value.phases, n, false)| <= 1 + Failures(steps, n) + Crowded(steps, n)
    decreases |steps|
  {
    if steps == [] {
      assert Waiting(map[], n, false) == {};
    } else {
      var k := |steps| - 1;
      var s, e := Run(steps[..k]).value, steps[k];
      BegunBounded(steps[..k], n);
      StepMoves(s, e, n);
      UploadsAccountedFor(steps[..k], n);
      if !Flying(s, n) {
        NobodyFlying(s, n);
      }
      hide Waiting, Flying;
    }
  }

  /** For every interleaving of deliveries, with evictions, expiry, reopenings, failed
      reads and writes and dropped handlers: a nullifier is uploaded at most once, plus
      once per failure, plus once per check that passed while another delivery of it was
      between its check and its mark. */
  lemma UploadsBounded(steps: seq<Step>, n: Nullifier)
    requires Run(steps).Some?
    ensures Uploads(steps, n) <= 1 + Failures(steps, n) + Crowded(steps, n)
  {
    BegunBounded(steps, n);
  }

  /** Step k marks a delivery that was checked at step i, although another delivery of `n`
      was marked in between. */
  predicate OvertakenAt(steps: seq<Step>, n: Nullifier, i: nat, j: nat, k: nat)
    requires i < j < k < |steps|
  {
    && steps[i].Check? && steps[i].n == n && steps[k] == Mark(steps[i].id, n)
    && IsMark(steps[j], n) && steps[j].id != steps[i].id
  }

  predicate Overtaken(steps: seq<Step>, n: Nullifier) {
    exists i: nat, j: nat, k: nat :: i < j < k < |steps| && OvertakenAt(steps, n, i, j, k)
  }

  predicate EverMarked(steps: seq<Step>, n: Nullifier) { exists j :: 0 <= j < |steps| && IsMark(steps[j], n) }

  lemma {:induction false} RunPrefix(steps: seq<Step>, m: nat)
    requires Run(steps).Some? && m <= |steps|
    ensures Run(steps[..m]).Some?
    decreases |steps|
  {
    if m < |steps| {
      assert steps[..|steps| - 1][..m] == steps[..m];
      RunPrefix(steps[..|steps| - 1], m);
    } else {
      assert steps[..m] == steps;
    }
  }

  lemma {:induction false} MarksSince(steps: seq<Step>, n: Nullifier, j: nat)
    requires j < |steps| && IsMark(steps[j], n)
    ensures Occurrences(steps, IsMark, n) >= Occurrences(steps[..j], IsMark, n) + 1
    decreases |steps|
  {
    var k := |steps| - 1;
    if j < k {
      assert steps[..k][..j] == steps[..j];
      MarksSince(steps[..k], n, j);
    }
  }

  /** The last mark of `n`, when there is one. */
  lemma {:induction false} LastMark(steps: seq<Step>, n: Nullifier) returns (j: nat)
    requires Occurrences(steps, IsMark, n) >= 1
    ensures j < |steps| && IsMark(steps[j], n) && Occurrences(steps[..j], IsMark, n) == Occurrences(steps, IsMark, n) - 1
    decreases |steps|
  {
    var k := |steps| - 1;
    if IsMark(steps[k], n) {
      j := k;
    } else {
      j := LastMark(steps[..k], n);
      assert steps[..k][..j] == steps[..j];
    }
  }

  /** A delivery in flight was checked at some step, at which no upload of `n` had been
      marked, and has been in flight since. */
  lemma {:induction false} FindCheck(steps: seq<Step>, n: Nullifier, id: nat) returns (i: nat)
    requires Run(steps).Some? && id in Run(steps).value.phases && InFlight(Run(steps).value.phases[id], n)
    requires Happening(steps, IsMisread, n) == 0
    ensures i < |steps| && steps[i].Check? && steps[i].id == id && steps[i].n == n
    ensures Occurrences(steps[..i], IsMark, n) == 0
    ensures forall j: nat :: i < j < |steps| ==> steps[j] != Mark(id, n)
    decreases |steps|
  {
    var k := |steps| - 1;
    var s := Run(steps[..k]).value;
    if id in s.phases {
      i := FindCheck(steps[..k], n, id);
      assert steps[..k][..i] == steps[..i];
    } else {
      i := k;
      UploadsAccountedFor(steps[..k], n);
    }
  }

  lemma {:induction false} HappeningPrefix(steps: seq<Step>, n: Nullifier, m: nat)
    requires m <= |steps|
    ensures Happening(steps[..m], IsMisread, n) <= Happening(steps, IsMisread, n)
    decreases |steps|
  {
    if m < |steps| {
      assert steps[..|steps| - 1][..m] == steps[..m];
      HappeningPrefix(steps[..|steps| - 1], n, m);
    } else {
      assert steps[..m] == steps;
    }
  }

  lemma MarkedWasInFlight(steps: seq<Step>, n: Nullifier, k: nat)
    requires Run(steps).Some? && k < |steps| && IsMark(steps[k], n)
    ensures var s := Run(steps[..k]);
            s.Some? && steps[k].id in s.value.phases && InFlight(s.value.phases[steps[k].id], n)
  {
    RunPrefix(steps, k + 1);
    assert steps[..k + 1][..k] == steps[..k];
  }

  /** Two marks of `n` without a misread: the later delivery was overtaken. */
  lemma TwoMarksOvertake(steps: seq<Step>, n: Nullifier)
    requires Run(steps).Some? && Happening(steps, IsMisread, n) == 0 && Occurrences(steps, IsMark, n) >= 2
    ensures Overtaken(steps, n)
  {
    hide Run, Occurrences, Happening, InFlight;
    var k := LastMark(steps, n);
    var j := LastMark(steps[..k], n);
    MarkedWasInFlight(steps, n, k);
    HappeningPrefix(steps, n, k);
    var i := FindCheck(steps[..k], n, steps[k].id);
    assert steps[..k][..i] == steps[..i];
    if j < i {
      MarksSince(steps[..i], n, j);
    }
    assert OvertakenAt(steps, n, i, j, k);
  }

  /** Exactly when a nullifier is uploaded once: in every interleaving without a failure
      on it and with none of its deliveries left in flight, there is exactly one upload
      if and only if some delivery was marked and none was overtaken.  Uploads may fail
      without landing; they are retried by a later delivery. */
  lemma ExactlyOnceIff(steps: seq<Step>, n: Nullifier)
    requires Run(steps).Some? && Failures(steps, n) == 0 && !Flying(Run(steps).value, n)
    ensures Uploads(steps, n) == 1 <==> EverMarked(steps, n) && !Overtaken(steps, n)
  {
    UploadsAccountedFor(steps, n);
    NobodyFlying(Run(steps).value, n);
    if Uploads(steps, n) >= 1 {
      var j := LastMark(steps, n);
    }
    if Uploads(steps, n) >= 2 {
      TwoMarksOvertake(steps, n);
    }
    if EverMarked(steps, n) {
      var j :| 0 <= j < |steps| && IsMark(steps[j], n);
      MarksSince(steps, n, j);
    }
    if Overtaken(steps, n) {
      var i: nat, j: nat, k: nat :| i < j < k < |steps| && OvertakenAt(steps, n, i, j, k);
      MarksSince(steps, n, k);
      assert steps[..k][..j] == steps[..j];
      MarksSince(steps[..k], n, j);
    }
  }

  /** Deliveries of one nullifier that do not overlap upload it at most once. */
  lemma SerialDeliveriesUploadOnce(steps: seq<Step>, n: Nullifier)
    requires Run(steps).Some? && Failures(steps, n) == 0 && Crowded(steps, n) == 0
    ensures Uploads(steps, n) <= 1
  {
    UploadsBounded(steps, n);
  }

  predicate ReadsWell(e: Step, n: Nullifier) { e.Check? && e.n == n ==> e.reads_ }

  lemma {:induction false} GoodReadsMissNothing(steps: seq<Step>, n: Nullifier)
    requires forall i :: 0 <= i < |steps| ==> ReadsWell(steps[i], n) && !IsUnrecorded(steps[i], n)
    ensures Failures(steps, n) == 0
    decreases |steps|
  {
    if steps != [] {
      GoodReadsMissNothing(steps[..|steps| - 1], n);
    }
  }

  /** With a database that answers every check of `n` and takes every mark of it, and
      deliveries that do not overlap, `n` is uploaded at most once, whatever is evicted and
      however often the store is reopened. */
  lemma HealthyStoreUploadsOnce(steps: seq<Step>, n: Nullifier)
    requires Run(steps).Some? && Crowded(steps, n) == 0
    requires forall i :: 0 <= i < |steps| ==> ReadsWell(steps[i], n) && !IsUnrecorded(steps[i], n)
    ensures Uploads(steps, n) <= 1
  {
    GoodReadsMissNothing(steps, n);
    SerialDeliveriesUploadOnce(steps, n);
  }

  /** The step neither evicts `n` nor reopens the store. */
  predicate Retains(e: Step, n: Nullifier) { !e.Reopen? && (e.Check? ==> n in e.keeps) }

  /** Step k - 1 marks `n`, finds it, or warms the cache with it. */
  predicate SeenBy(steps: seq<Step>, n: Nullifier, k: nat)
    requires k <= |steps|
  {
    k > 0 &&
    var s, e := Run(steps[..k - 1]), steps[k - 1];
    || IsMark(e, n)
    || (e.Check? && e.n == n && s.Some? && Skips(s.value, e))
    || (e.Reopen? && n in e.warmed && s.Some? && n in s.value.db)
  }

  lemma {:induction false} StaysCached(steps: seq<Step>, n: Nullifier, k: nat)
    requires Run(steps).Some? && k <= |steps| && (forall i :: k <= i < |steps| ==> Retains(steps[i], n))
    requires SeenBy(steps, n, k)
    ensures n in Run(steps).value.cache
    decreases |steps|
  {
    var m := |steps| - 1;
    if k <= m {
      assert steps[..m][..k - 1] == steps[..k - 1];
      StaysCached(steps[..m], n, k);
    }
  }

  /** Once marked, found or warmed up, and until it is evicted or the store reopened, a nullifier is a
      duplicate at every check, even when the database cannot be read. */
  lemma SeenIsDuplicate(steps: seq<Step>, n: Nullifier, k: nat, e: Step)
    requires Run(steps).Some? && k <= |steps| && (forall i :: k <= i < |steps| ==> Retains(steps[i], n))
    requires SeenBy(steps, n, k)
    requires e.Check? && e.n == n && Retains(e, n)
    ensures Skips(Run(steps).value, e)
  {
    StaysCached(steps, n, k);
  }

  lemma NothingYet(n: Nullifier)
    ensures Run([]) == Some(INIT) && Uploads([], n) == 0 && Failures([], n) == 0
  {
  }

  lemma Snoc(steps: seq<Step>, e: Step, n: Nullifier, s: State)
    requires Run(steps) == Some(s) && Enabled(s, e)
    ensures Run(steps + [e]) == Some(Next(s, e))
    ensures Uploads(steps + [e], n) == Uploads(steps, n) + if IsUpload(e, n) then 1 else 0
    ensures !IsUnrecorded(e, n) && !IsMisread(s, e, n) ==> Failures(steps + [e], n) == Failures(steps, n)
  {
    assert (steps + [e])[..|steps|] == steps;
  }

  /** Two overlapping deliveries of one nullifier both upload it, with a healthy store. */
  lemma OverlappingDeliveriesUploadTwice(n: Nullifier)
    ensures var steps := [Check(0, n, {}, true), Check(1, n, {}, true), Upload(0, n), Upload(1, n), Mark(0, n), Mark(1, n)];
            Run(steps).Some? && Uploads(steps, n) == 2 && Failures(steps, n) == 0 && Overtaken(steps, n)
  {
    hide Run, Occurrences, Happening;
    NothingYet(n);
    var checks := [Check(0, n, {}, true)] + [Check(1, n, {}, true)];
    var start := Next(INIT, checks[0]);
    assert [] + [checks[0]] == [checks[0]];
    Snoc([], checks[0], n, INIT);
    Snoc([checks[0]], checks[1], n, start);
    var s2 := Next(start, checks[1]);
    var s3 := Next(s2, Upload(0, n));
    Snoc(checks, Upload(0, n), n, s2);
    Snoc(checks + [Upload(0, n)], Upload(1, n), n, s3);
    var s4 := Next(s3, Upload(1, n));
    var most := checks + [Upload(0, n)] + [Upload(1, n)];
    Snoc(most, Mark(0, n), n, s4);
    Snoc(most + [Mark(0, n)], Mark(1, n), n, Next(s4, Mark(0, n)));
    var steps := [Check(0, n, {}, true), Check(1, n, {}, true), Upload(0, n), Upload(1, n), Mark(0, n), Mark(1, n)];
    assert steps == most + [Mark(0, n)] + [Mark(1, n)];
    assert OvertakenAt(steps, n, 1, 4, 5);
  }
}
