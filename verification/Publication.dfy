/** Root publication.

    The issuer service owns three roots.  Its rotation task and its publish endpoint
    run the same procedure under one lock: snapshot the roots, send, commit.  The
    sanctions updater is a second, uncoordinated writer of the same on-chain record.
    All of them are steps of one state machine; a transaction whose sender sees an error
    can be lost, or land at any later time. */
module Publication {
  import Convert
  import opened Wrappers

  type Byte = Convert.Byte
  type Root = seq<Byte>  // 32 bytes

  const ZERO_ROOT: Root := Convert.Zeros(32)

  datatype Roots = Roots(membership: Root, sanctions: Root, jurisdiction: Root)

  predicate AnyZero(r: Roots) {
    r.membership == ZERO_ROOT || r.sanctions == ZERO_ROOT || r.jurisdiction == ZERO_ROOT
  }

  // ---------------------------------------------------- the on-chain program

  type Chain = Option<Roots>

  /** `register_issuer`: the account must not exist and no root may be zero. */
  function Register(c: Chain, r: Roots): Option<Chain> {
    if c.Some? || AnyZero(r) then None else Some(Some(r))
  }

  /** `update_issuer_root`: the account must exist and no root may be zero. */
  function Update(c: Chain, r: Roots): Option<Chain> {
    if c.None? || AnyZero(r) then None else Some(Some(r))
  }

  function Submit(c: Chain, r: Roots, register: bool): Option<Chain> {
    if register then Register(c, r) else Update(c, r)
  }

  // ----------------------------------------------------------------- states

  /** The procedure of the lock holder; `Idle` when the lock is free. */
  datatype Publisher =
    | Idle
    | Snapshotted(roots: Roots, wasRegistered: bool)
    | Answered(roots: Roots, didRegister: bool, ok: bool)

  datatype Updater =
    | Waiting
    | Prepared(tx: Tx)

  /** Every triple of roots the issuer has had, every sanctions root the updater has built. */
  datatype Origins = Origins(owned: set<Roots>, built: set<Root>)

  /** A transaction: `register_issuer` or `update_issuer_root` with these roots. */
  datatype Tx = Tx(roots: Roots, register: bool)

  datatype State = State(
    roots: Roots, registered: bool, dirty: bool, publisher: Publisher,
    updater: Updater, updaterRegistered: bool,
    chain: Chain,
    pending: multiset<Tx>,      // sent, reported as failed, and still able to land
    seen: Origins)

  /** What the sender is told: the transaction was executed, accepted or refused, or
      nothing came back.  In the second case it lands at any later time, or never. */
  datatype Delivery = Confirmed | Unconfirmed

  datatype Action =
    | Change(roots: Roots)                  // a credential is issued, added or revoked
    | Begin                                 // take the lock, snapshot or skip
    | Send(d: Delivery)
    | Commit                                // write back and free the lock
    | Restart(roots: Roots, probed: bool)   // the service comes back with the state it loaded
    | Prepare(root: Root)                   // the updater reads the record
    | Overwrite(d: Delivery)                // and writes it back
    | Probe(ok: bool)                       // the updater starts
    | Land(tx: Tx)                          // a pending transaction is executed

  function Executed(c: Chain, r: Roots, register: bool): Chain {
    if Submit(c, r, register).None? then c else Submit(c, r, register).value
  }

  /** The chain and the pending transactions after sending `tx`. */
  function Sent(s: State, tx: Tx, d: Delivery): (r: State)
    ensures r == s.(chain := r.chain, pending := r.pending)
  {
    if d.Confirmed? then s.(chain := Executed(s.chain, tx.roots, tx.register))
    else s.(pending := s.pending + multiset{tx})
  }

  predicate Reported(s: State, tx: Tx, d: Delivery) {
    d.Confirmed? && Submit(s.chain, tx.roots, tx.register).Some?
  }

  predicate Due(s: State) { s.dirty || !s.registered }

  function BeginStep(s: State): State {
    if !s.publisher.Idle? || !Due(s) then s
    else s.(publisher := Snapshotted(s.roots, s.registered))
  }

  function SendStep(s: State, d: Delivery): State {
    if !s.publisher.Snapshotted? then s
    else
      var tx := Tx(s.publisher.roots, !s.publisher.wasRegistered);
      Sent(s, tx, d).(publisher := Answered(tx.roots, tx.register, Reported(s, tx, d)))
  }

  function CommitStep(s: State): State {
    if !s.publisher.Answered? then s
    else if !s.publisher.ok then s.(publisher := Idle)
    else s.(registered := s.registered || s.publisher.didRegister, dirty := false, publisher := Idle)
  }

  function Owning(o: Origins, roots: Roots): Origins { o.(owned := o.owned + {roots}) }

  function RestartStep(s: State, roots: Roots, probed: bool): State {
    s.(roots := roots, registered := probed && s.chain.Some?, dirty := false, publisher := Idle,
       seen := Owning(s.seen, roots))
  }

  function PrepareStep(s: State, root: Root): State {
    var updater :=
      if !s.updaterRegistered then Prepared(Tx(Roots(ZERO_ROOT, root, ZERO_ROOT), true))
      else if s.chain.None? then Waiting
      else Prepared(Tx(s.chain.value.(sanctions := root), false));
    s.(seen := s.seen.(built := s.seen.built + {root}), updater := updater)
  }

  function OverwriteStep(s: State, d: Delivery): State {
    if !s.updater.Prepared? then s
    else
      var tx := s.updater.tx;
      Sent(s, tx, d).(updater := Waiting,
                      updaterRegistered := s.updaterRegistered || (tx.register && Reported(s, tx, d)))
  }

  function LandStep(s: State, tx: Tx): State {
    if tx !in s.pending then s
    else s.(chain := Executed(s.chain, tx.roots, tx.register), pending := s.pending - multiset{tx})
  }

  function Next(s: State, a: Action): State {
    match a
    case Change(roots) => s.(roots := roots, dirty := true, seen := Owning(s.seen, roots))
    case Begin => BeginStep(s)
    case Send(d) => SendStep(s, d)
    case Commit => CommitStep(s)
    case Restart(roots, probed) => RestartStep(s, roots, probed)
    case Prepare(root) => PrepareStep(s, root)
    case Overwrite(d) => OverwriteStep(s, d)
    case Probe(ok) => s.(updater := Waiting, updaterRegistered := ok && s.chain.Some?)
    case Land(tx) => LandStep(s, tx)
  }

  function Run(s: State, actions: seq<Action>): State {
    if actions == [] then s else Next(Run(s, actions[..|actions| - 1]), actions[|actions| - 1])
  }

  /** An issuer that has never published. */
  function Fresh(roots: Roots): State {
    State(roots, false, false, Idle, Waiting, false, None, multiset{}, Origins({roots}, {}))
  }

  lemma {:induction false} RunConcat(s: State, xs: seq<Action>, ys: seq<Action>)
    ensures Run(s, xs + ys) == Run(Run(s, xs), ys)
    decreases |ys|
  {
    hide Next;
    if ys == [] {
      assert xs + ys == xs;
    } else {
      var n := |ys| - 1;
      assert (xs + ys)[..|xs| + n] == xs + ys[..n];
      RunConcat(s, xs, ys[..n]);
    }
  }

  lemma RunFive(s: State, a: Action, b: Action, c: Action, d: Action, e: Action)
    ensures Run(s, [a, b, c, d, e]) == Next(Next(Next(Next(Next(s, a), b), c), d), e)
  {
    var all := [a, b, c, d, e];
    assert all[..4] == [a, b, c, d] && all[..4][..3] == [a, b, c] && [a, b, c][..2] == [a, b] && [a, b][..1] == [a];
    assert [a][..0] == [];
    assert Run(s, [a]) == Next(Run(s, []), a);
    assert Run(s, [a, b]) == Next(Run(s, [a]), b);
    assert Run(s, [a, b, c]) == Next(Run(s, [a, b]), c);
    assert Run(s, [a, b, c, d]) == Next(Run(s, [a, b, c]), d);
  }

  lemma SubmitStores(c: Chain, r: Roots, register: bool)
    ensures Submit(c, r, register).Some? ==> Submit(c, r, register).value == Some(r) && !AnyZero(r)
  {
  }

  // ------------------------------------------------------------- provenance

  predicate OwnMembership(o: Origins, r: Root) { exists t :: t in o.owned && t.membership == r }
  predicate OwnJurisdiction(o: Origins, r: Root) { exists t :: t in o.owned && t.jurisdiction == r }
  predicate KnownSanctions(o: Origins, r: Root) {
    r in o.built || exists t :: t in o.owned && t.sanctions == r
  }

  predicate Known(o: Origins, r: Roots) {
    OwnMembership(o, r.membership) && OwnJurisdiction(o, r.jurisdiction) && KnownSanctions(o, r.sanctions)
  }

  /** Roots of known origin, or roots the program refuses. */
  predicate Harmless(o: Origins, r: Roots) { AnyZero(r) || Known(o, r) }

  /** Transactions prepared or pending, and the chain. */
  ghost predicate Travelling(o: Origins, updater: Updater, pending: multiset<Tx>, chain: Chain) {
    && (updater.Prepared? ==> Harmless(o, updater.tx.roots))
    && (updater.Prepared? && updater.tx.register ==> AnyZero(updater.tx.roots))
    && (forall tx :: tx in pending ==> Harmless(o, tx.roots))
    && (chain.Some? ==> Known(o, chain.value))
  }

  ghost predicate Provenance(s: State) {
    && s.roots in s.seen.owned
    && (s.publisher.Snapshotted? || s.publisher.Answered? ==> s.publisher.roots in s.seen.owned)
    && Travelling(s.seen, s.updater, s.pending, s.chain)
  }

  /** The updater cannot register an issuer: the placeholder roots it would register with
      are refused by the program, so its write never changes the record. */
  lemma UpdaterNeverRegisters(s: State, d: Delivery)
    requires Provenance(s) && s.updater.Prepared? && s.updater.tx.register
    ensures Next(s, Overwrite(d)).chain == s.chain && Next(s, Overwrite(d)).updaterRegistered == s.updaterRegistered
  {
  }

  predicate Grows(o: Origins, o': Origins) { o.owned <= o'.owned && o.built <= o'.built }

  lemma KnownGrows(o: Origins, o': Origins, r: Roots)
    requires Grows(o, o') && Known(o, r)
    ensures Known(o', r)
  {
    var m :| m in o.owned && m.membership == r.membership;
    var j :| j in o.owned && j.jurisdiction == r.jurisdiction;
    assert m in o'.owned && j in o'.owned;
    if r.sanctions !in o.built {
      var t :| t in o.owned && t.sanctions == r.sanctions;
      assert t in o'.owned;
    }
  }

  lemma OwnedIsKnown(o: Origins, r: Roots)
    requires r in o.owned
    ensures Known(o, r)
  {
  }

  lemma RebuiltIsKnown(o: Origins, r: Roots, root: Root)
    requires Known(o, r) && root in o.built
    ensures Known(o, r.(sanctions := root))
  {
  }

  /** Sending a harmless transaction, now or late, keeps the chain's origins. */
  lemma SentIsKnown(s: State, tx: Tx, d: Delivery)
    requires Provenance(s) && Harmless(s.seen, tx.roots)
    ensures Provenance(Sent(s, tx, d)) && Provenance(s.(chain := Executed(s.chain, tx.roots, tx.register)))
  {
    hide Known, AnyZero, Submit;
    SubmitStores(s.chain, tx.roots, tx.register);
  }

  lemma PlaceholderRefused(root: Root)
    ensures AnyZero(Roots(ZERO_ROOT, root, ZERO_ROOT))
  {
  }

  lemma ProvenanceGrows(s: State, seen: Origins)
    requires Provenance(s) && Grows(s.seen, seen)
    ensures Provenance(s.(seen := seen))
  {
    hide Known, AnyZero;
    forall r | Known(s.seen, r) ensures Known(seen, r) {
      KnownGrows(s.seen, seen, r);
    }
  }

  lemma SendKeepsProvenance(s: State, d: Delivery)
    requires Provenance(s)
    ensures Provenance(SendStep(s, d)) && SendStep(s, d).seen == s.seen
  {
    hide Known, AnyZero, Executed, Reported, Sent;
    if s.publisher.Snapshotted? {
      OwnedIsKnown(s.seen, s.publisher.roots);
      SentIsKnown(s, Tx(s.publisher.roots, !s.publisher.wasRegistered), d);
    }
  }

  lemma OverwriteKeepsProvenance(s: State, d: Delivery)
    requires Provenance(s)
    ensures Provenance(OverwriteStep(s, d)) && OverwriteStep(s, d).seen == s.seen
  {
    hide Known, AnyZero, Executed, Reported, Sent;
    if s.updater.Prepared? {
      SentIsKnown(s, s.updater.tx, d);
    }
  }

  lemma LandKeepsProvenance(s: State, tx: Tx)
    requires Provenance(s)
    ensures Provenance(LandStep(s, tx)) && LandStep(s, tx).seen == s.seen
  {
    hide Known, AnyZero, Executed;
    if tx in s.pending {
      SentIsKnown(s, tx, Confirmed);
    }
  }

  lemma PrepareKeepsProvenance(s: State, root: Root)
    requires Provenance(s)
    ensures Provenance(PrepareStep(s, root)) && Grows(s.seen, PrepareStep(s, root).seen)
  {
    hide Known, AnyZero;
    var seen := s.seen.(built := s.seen.built + {root});
    ProvenanceGrows(s, seen);
    PlaceholderRefused(root);
    if s.chain.Some? {
      RebuiltIsKnown(seen, s.chain.value, root);
    }
  }

  lemma OwningKeepsProvenance(s: State, roots: Roots)
    requires Provenance(s)
    ensures Provenance(s.(roots := roots, seen := Owning(s.seen, roots))) && Grows(s.seen, Owning(s.seen, roots))
  {
    hide Known, AnyZero;
    ProvenanceGrows(s, Owning(s.seen, roots));
  }

  lemma ProbeKeepsProvenance(s: State)
    requires Provenance(s)
    ensures Travelling(s.seen, Waiting, s.pending, s.chain)
  {
  }

  /** Every step of every party keeps the origin of all roots on chain and under way. */
  lemma StepKeepsProvenance(s: State, a: Action)
    requires Provenance(s)
    ensures Provenance(Next(s, a)) && Grows(s.seen, Next(s, a).seen)
  {
    hide Travelling, SendStep, OverwriteStep, PrepareStep, LandStep, Owning;
    match a
    case Send(d) => SendKeepsProvenance(s, d);
    case Overwrite(d) => OverwriteKeepsProvenance(s, d);
    case Land(tx) => LandKeepsProvenance(s, tx);
    case Prepare(root) => PrepareKeepsProvenance(s, root);
    case Change(roots) => OwningKeepsProvenance(s, roots);
    case Restart(roots, _) => OwningKeepsProvenance(s, roots);
    case Probe(_) => ProbeKeepsProvenance(s);
    case _ =>
  }

  /** In every interleaving of credential changes, publications, restarts and sanctions
      updates, with transactions lost or landing late, the membership and jurisdiction
      roots on chain have been the issuer's own, and the sanctions root was the issuer's
      or the updater's. */
  lemma {:induction false} ChainRootsHaveProvenance(s: State, actions: seq<Action>)
    requires Provenance(s)
    ensures var s' := Run(s, actions); Provenance(s') && (s'.chain.Some? ==> Known(s'.seen, s'.chain.value))
    decreases |actions|
  {
    if actions != [] {
      ChainRootsHaveProvenance(s, actions[..|actions| - 1]);
      StepKeepsProvenance(Run(s, actions[..|actions| - 1]), actions[|actions| - 1]);
    }
  }

  // ------------------------------------------------------ what every run keeps

  /** The issuer's bookkeeping, in every state it can reach. */
  predicate Bookkeeping(s: State) {
    && (!s.publisher.Idle? ==> Due(s))
    && (s.publisher.Snapshotted? && s.publisher.wasRegistered ==> s.registered)
    && (s.publisher.Answered? && !s.publisher.didRegister ==> s.registered)
    && (s.registered || Succeeded(s) ==> s.chain.Some?)
    && (s.chain.Some? ==> !AnyZero(s.chain.value))
  }

  /** The publication under way was confirmed and waits for its commit. */
  predicate Succeeded(s: State) { s.publisher.Answered? && s.publisher.ok }

  /** The roots a step puts on chain, if it does. */
  function Written(s: State, a: Action): Option<Roots> {
    match a
    case Send(Confirmed) =>
      if s.publisher.Snapshotted? && Submit(s.chain, s.publisher.roots, !s.publisher.wasRegistered).Some?
      then Some(s.publisher.roots) else None
    case Overwrite(Confirmed) =>
      if s.updater.Prepared? && Submit(s.chain, s.updater.tx.roots, s.updater.tx.register).Some?
      then Some(s.updater.tx.roots) else None
    case Land(tx) =>
      if tx in s.pending && Submit(s.chain, tx.roots, tx.register).Some? then Some(tx.roots) else None
    case _ => None
  }

  lemma WrittenIsNext(s: State, a: Action)
    ensures Next(s, a).chain == if Written(s, a).Some? then Written(s, a) else s.chain
    ensures Written(s, a).Some? ==> !AnyZero(Written(s, a).value)
  {
    hide Submit, AnyZero;
    match a
    case Send(_) => if s.publisher.Snapshotted? { SubmitStores(s.chain, s.publisher.roots, !s.publisher.wasRegistered); }
    case Overwrite(_) => if s.updater.Prepared? { SubmitStores(s.chain, s.updater.tx.roots, s.updater.tx.register); }
    case Land(tx) => SubmitStores(s.chain, tx.roots, tx.register);
    case _ =>
  }

  lemma BookkeepingStep(s: State, a: Action)
    requires Bookkeeping(s)
    ensures Bookkeeping(Next(s, a)) && (s.chain.Some? ==> Next(s, a).chain.Some?)
  {
    hide Submit, AnyZero;
    WrittenIsNext(s, a);
  }

  lemma {:induction false} BookkeepingHolds(s: State, actions: seq<Action>)
    requires Bookkeeping(s)
    ensures Bookkeeping(Run(s, actions)) && (s.chain.Some? ==> Run(s, actions).chain.Some?)
    decreases |actions|
  {
    hide Bookkeeping, Next;
    if actions != [] {
      var n := |actions| - 1;
      BookkeepingHolds(s, actions[..n]);
      BookkeepingStep(Run(s, actions[..n]), actions[n]);
    }
  }

  /** What the program accepts: a registration of a new record or an update of an existing
      one, with no root all zero. */
  lemma SubmitIff(c: Chain, r: Roots, register: bool)
    ensures Submit(c, r, register).Some? <==>
            register == c.None? && r.membership != Convert.Zeros(32) && r.sanctions != Convert.Zeros(32) && r.jurisdiction != Convert.Zeros(32)
  {
  }

  /** One send per snapshot and one write per read; a second publication waits for the lock,
      and a process that starts again sends nothing it had prepared before. */
  lemma OneSendEach(s: State, d: Delivery, d': Delivery, roots: Roots, ok: bool)
    ensures Next(Next(s, Send(d)), Send(d')) == Next(s, Send(d))
    ensures Next(Next(s, Overwrite(d)), Overwrite(d')) == Next(s, Overwrite(d))
    ensures !s.publisher.Idle? ==> Next(s, Begin) == s
    ensures Next(Next(s, Restart(roots, ok)), Send(d)) == Next(s, Restart(roots, ok))
    ensures Next(Next(s, Probe(ok)), Overwrite(d)) == Next(s, Probe(ok))
  {
    hide Executed, Reported, Sent;
  }

  /** The step sends `tx` and does not learn what became of it. */
  predicate Postpones(s: State, a: Action, tx: Tx) {
    || (a == Send(Unconfirmed) && s.publisher.Snapshotted? && tx == Tx(s.publisher.roots, !s.publisher.wasRegistered))
    || (a == Overwrite(Unconfirmed) && s.updater == Prepared(tx))
  }

  function Postponed(s: State, actions: seq<Action>, tx: Tx): nat {
    if actions == [] then 0
    else
      var n := |actions| - 1;
      Postponed(s, actions[..n], tx) + if Postpones(Run(s, actions[..n]), actions[n], tx) then 1 else 0
  }

  function Landed(s: State, actions: seq<Action>, tx: Tx): nat {
    if actions == [] then 0
    else
      var n := |actions| - 1;
      Landed(s, actions[..n], tx) + if actions[n] == Land(tx) && tx in Run(s, actions[..n]).pending then 1 else 0
  }

  lemma SentPending(s: State, sent: Tx, d: Delivery, tx: Tx)
    ensures Sent(s, sent, d).pending[tx] == s.pending[tx] + if d.Unconfirmed? && tx == sent then 1 else 0
  {
  }

  lemma LandedPending(s: State, landed: Tx, tx: Tx)
    ensures LandStep(s, landed).pending[tx] + (if landed == tx && tx in s.pending then 1 else 0) == s.pending[tx]
  {
  }

  lemma PendingStep(s: State, a: Action, tx: Tx)
    ensures Next(s, a).pending[tx] + (if a == Land(tx) && tx in s.pending then 1 else 0) ==
            s.pending[tx] + if Postpones(s, a, tx) then 1 else 0
  {
    hide Sent, LandStep, Reported;
    match a
    case Send(d) =>
      if s.publisher.Snapshotted? {
        SentPending(s, Tx(s.publisher.roots, !s.publisher.wasRegistered), d, tx);
      }
    case Overwrite(d) =>
      if s.updater.Prepared? {
        SentPending(s, s.updater.tx, d, tx);
      }
    case Land(landed) => LandedPending(s, landed, tx);
    case _ =>
  }

  /** Every transaction lands at most once per time it was sent, in every run. */
  lemma {:induction false} LandsOncePerSend(s: State, actions: seq<Action>, tx: Tx)
    ensures Run(s, actions).pending[tx] + Landed(s, actions, tx) == s.pending[tx] + Postponed(s, actions, tx)
    decreases |actions|
  {
    hide Next, Postpones;
    if actions != [] {
      var n := |actions| - 1;
      LandsOncePerSend(s, actions[..n], tx);
      PendingStep(Run(s, actions[..n]), actions[n], tx);
    }
  }

  // ---------------------------------------------------- clean means published

  predicate CleanMeansPublished(s: State) { !Due(s) ==> s.chain == Some(s.roots) }

  /** The steps that falsify it: committing when the chain no longer holds the current
      roots, restarting with roots other than those on chain, and a second writer or a
      late transaction writing other roots over a clean state. */
  predicate Falsifies(s: State, a: Action) {
    match a
    case Commit => Succeeded(s) && s.chain != Some(s.roots)
    case Restart(roots, probed) => probed && s.chain.Some? && s.chain.value != roots
    case _ => !Due(s) && Written(s, a).Some? && Written(s, a).value != s.roots
  }

  lemma StepKeepsCleanIff(s: State, a: Action)
    requires Bookkeeping(s) && CleanMeansPublished(s)
    ensures CleanMeansPublished(Next(s, a)) <==> !Falsifies(s, a)
  {
    hide Submit, AnyZero;
    WrittenIsNext(s, a);
  }

  /** Holds initially and after every step. */
  predicate CleanThroughout(s: State, actions: seq<Action>) {
    CleanMeansPublished(Run(s, actions)) && (actions == [] || CleanThroughout(s, actions[..|actions| - 1]))
  }

  predicate NeverFalsified(s: State, actions: seq<Action>) {
    if actions == [] then true
    else
      var n := |actions| - 1;
      NeverFalsified(s, actions[..n]) && !Falsifies(Run(s, actions[..n]), actions[n])
  }

  /** For every run of all parties, restarts and late transactions included: "clean and
      registered means published" holds throughout if and only if no step falsifies it. */
  lemma {:induction false} CleanThroughoutIff(s: State, actions: seq<Action>)
    requires Bookkeeping(s) && CleanMeansPublished(s)
    ensures CleanThroughout(s, actions) <==> NeverFalsified(s, actions)
    decreases |actions|
  {
    hide CleanMeansPublished, Falsifies, Bookkeeping, Next;
    if actions != [] {
      var n := |actions| - 1;
      CleanThroughoutIff(s, actions[..n]);
      BookkeepingHolds(s, actions[..n]);
      if CleanMeansPublished(Run(s, actions[..n])) {
        StepKeepsCleanIff(Run(s, actions[..n]), actions[n]);
      }
    }
  }

  predicate AnswerOnChain(s: State) { Succeeded(s) ==> s.chain == Some(s.publisher.roots) }

  /** While a publication is under way its snapshot is current, and once it is confirmed
      the chain holds it. */
  predicate Undisturbed(s: State) {
    && CleanMeansPublished(s)
    && (!s.publisher.Idle? ==> s.publisher.roots == s.roots)
    && AnswerOnChain(s)
  }

  /** What a schedule has to respect: no change between a snapshot and its commit, no
      restart that loads other roots than a probe finds on chain, no foreign or late write
      of other roots except over a state still due and not just confirmed. */
  predicate Calm(s: State, a: Action) {
    match a
    case Change(roots) => s.publisher.Idle? || roots == s.roots
    case Restart(roots, probed) => !probed || s.chain.None? || s.chain.value == roots
    case Send(_) => true
    case _ => Written(s, a).None? || Written(s, a).value == s.roots || (Due(s) && !Succeeded(s))
  }

  /** The schedule is respected at exactly the steps that leave publication undisturbed. */
  lemma StepKeepsClean(s: State, a: Action)
    requires Bookkeeping(s) && Undisturbed(s)
    ensures Undisturbed(Next(s, a)) <==> Calm(s, a)
  {
    hide Submit, AnyZero;
    WrittenIsNext(s, a);
  }

  predicate Quiet(s: State, actions: seq<Action>) {
    if actions == [] then true
    else
      var n := |actions| - 1;
      Quiet(s, actions[..n]) && Calm(Run(s, actions[..n]), actions[n])
  }

  /** "Clean and registered means published" survives every run that respects the
      schedule, with restarts, a second writer and late transactions. */
  lemma {:induction false} CleanSurvivesQuietRuns(s: State, actions: seq<Action>)
    requires Bookkeeping(s) && Undisturbed(s) && Quiet(s, actions)
    ensures Undisturbed(Run(s, actions)) && CleanMeansPublished(Run(s, actions))
    decreases |actions|
  {
    hide Bookkeeping, Calm, Next;
    if actions != [] {
      var n := |actions| - 1;
      CleanSurvivesQuietRuns(s, actions[..n]);
      BookkeepingHolds(s, actions[..n]);
      StepKeepsClean(Run(s, actions[..n]), actions[n]);
    }
  }

  /** No foreign or late write falls between a confirmation and its commit. */
  predicate AnswersStand(s: State, actions: seq<Action>) {
    if actions == [] then true
    else
      var n := |actions| - 1;
      AnswersStand(s, actions[..n]) && (actions[n].Overwrite? || actions[n].Land? ==> !Succeeded(Run(s, actions[..n])))
  }

  lemma ConfirmedStep(s: State, a: Action)
    requires AnswerOnChain(s) && (a.Overwrite? || a.Land? ==> !Succeeded(s))
    ensures AnswerOnChain(Next(s, a))
  {
    hide AnyZero, Submit;
    WrittenIsNext(s, a);
  }

  lemma {:induction false} ConfirmedIsOnChain(s: State, actions: seq<Action>)
    requires AnswersStand(s, actions) && AnswerOnChain(s)
    ensures AnswerOnChain(Run(s, actions))
    decreases |actions|
  {
    hide Next, Succeeded, AnswerOnChain;
    if actions != [] {
      var n := |actions| - 1;
      ConfirmedIsOnChain(s, actions[..n]);
      ConfirmedStep(Run(s, actions[..n]), actions[n]);
    }
  }

  /** Exactly when a commit is right: after any run, a successful commit leaves "clean
      means published" true if and only if the roots it publishes are still current. */
  lemma CommitRightIff(s: State, actions: seq<Action>)
    requires Bookkeeping(s) && AnswersStand(s, actions) && AnswerOnChain(s)
    requires Succeeded(Run(s, actions))
    ensures var t := Run(s, actions);
            CleanMeansPublished(Next(t, Commit)) <==> t.publisher.roots == t.roots
  {
    hide Run, AnswersStand;
    BookkeepingHolds(s, actions);
    ConfirmedIsOnChain(s, actions);
  }

  /** Exactly when a restart is right: the probe fails, there is no record, or the loaded
      roots are those on chain. */
  lemma RestartRightIff(s: State, roots: Roots, probed: bool)
    ensures CleanMeansPublished(Next(s, Restart(roots, probed))) <==>
            !probed || s.chain.None? || s.chain == Some(roots)
  {
  }

  /** A change that was saved but not published before a restart comes back clean and
      registered, and is not published. */
  lemma RestartHidesChange(before: Roots, after: Roots)
    requires !AnyZero(before) && before != after
    ensures var s := Run(Fresh(before), [Begin, Send(Confirmed), Commit, Change(after), Restart(after, true)]);
            !Due(s) && s.publisher.Idle? && s.roots == after && s.chain == Some(before)
  {
    RunFive(Fresh(before), Begin, Send(Confirmed), Commit, Change(after), Restart(after, true));
  }

  /** A change that slips in between the snapshot and the commit of a publication is
      marked clean and skipped. */
  lemma ChangeDuringPublicationIsLost(before: Roots, after: Roots)
    requires !AnyZero(before) && before != after
    ensures var s := Run(Fresh(before), [Begin, Change(after), Send(Confirmed), Commit, Begin]);
            !Due(s) && s.publisher.Idle? && s.chain == Some(before) && s.roots == after
  {
    RunFive(Fresh(before), Begin, Change(after), Send(Confirmed), Commit, Begin);
  }

  /** An update whose sender saw an error is followed by a successful one ... */
  lemma RetrySucceeds(s: State, second: Roots, third: Roots)
    requires s.publisher == Snapshotted(second, true) && s.registered && s.chain.Some? && !AnyZero(third)
    ensures var t := Run(s, [Send(Unconfirmed), Commit, Change(third), Begin, Send(Confirmed)]);
            t.publisher == Answered(third, false, true) && t.chain == Some(third) && t.roots == third && t.registered &&
            Tx(second, false) in t.pending
  {
    RunFive(s, Send(Unconfirmed), Commit, Change(third), Begin, Send(Confirmed));
    hide AnyZero, Run;
  }

  /** ... lands after it, and is not noticed. */
  lemma LateLandingUnnoticed(s: State, second: Roots)
    requires s.publisher.Answered? && s.publisher.ok && s.registered && s.chain.Some? && !AnyZero(second)
    requires Tx(second, false) in s.pending
    ensures var t := Run(s, [Commit, Land(Tx(second, false)), Begin, Send(Confirmed), Commit]);
            !Due(t) && t.publisher.Idle? && t.roots == s.roots && t.chain == Some(second)
  {
    RunFive(s, Commit, Land(Tx(second, false)), Begin, Send(Confirmed), Commit);
    hide AnyZero, Run;
  }

  /** An update reported as failed can land after its successor and undo it. */
  lemma LateLandingUndoes(first: Roots, second: Roots, third: Roots)
    requires !AnyZero(first) && !AnyZero(second) && !AnyZero(third) && second != third
    ensures var actions := [Begin, Send(Confirmed), Commit, Change(second), Begin] +
                           [Send(Unconfirmed), Commit, Change(third), Begin, Send(Confirmed)] +
                           [Commit, Land(Tx(second, false)), Begin, Send(Confirmed), Commit];
            var s := Run(Fresh(first), actions);
            !Due(s) && s.publisher.Idle? && s.roots == third && s.chain == Some(second)
  {
    var a := [Begin, Send(Confirmed), Commit, Change(second), Begin];
    var b := [Send(Unconfirmed), Commit, Change(third), Begin, Send(Confirmed)];
    var c := [Commit, Land(Tx(second, false)), Begin, Send(Confirmed), Commit];
    RunFive(Fresh(first), Begin, Send(Confirmed), Commit, Change(second), Begin);
    var s := Run(Fresh(first), a);
    assert s.publisher == Snapshotted(second, true) && s.registered && s.chain.Some?;
    hide Run, Next, AnyZero;
    RetrySucceeds(s, second, third);
    LateLandingUnnoticed(Run(s, b), second);
    RunConcat(Fresh(first), a, b);
    RunConcat(Fresh(first), a + b, c);
  }

  // --------------------------------------------------------- the second writer

  predicate UpdaterStep(a: Action) { a.Prepare? || a.Overwrite? || a.Probe? }

  lemma PreparedStep(s: State, a: Action)
    requires !UpdaterStep(a)
    ensures Next(s, a).updater == s.updater
  {
    hide Executed, Reported;
  }

  lemma {:induction false} PreparedStays(s: State, actions: seq<Action>)
    requires forall i :: 0 <= i < |actions| ==> !UpdaterStep(actions[i])
    ensures Run(s, actions).updater == s.updater
    decreases |actions|
  {
    hide Next;
    if actions != [] {
      PreparedStays(s, actions[..|actions| - 1]);
      PreparedStep(Run(s, actions[..|actions| - 1]), actions[|actions| - 1]);
    }
  }

  lemma UpdaterWrites(t: State, r: Roots, built: Root)
    requires t.chain.Some? && t.updater == Prepared(Tx(r.(sanctions := built), false)) && !AnyZero(r)
    ensures Next(t, Overwrite(Confirmed)).chain == if built == ZERO_ROOT then t.chain else Some(r.(sanctions := built))
  {
  }

  /** Exactly what the updater's write does to the other roots.  It reads the record, the
      other parties do anything, then it writes: nothing but the sanctions root changes if
      and only if the membership and jurisdiction roots it read are still on chain, or
      the built root is zero and the program refuses it. */
  lemma UpdaterHarmlessIff(s: State, built: Root, actions: seq<Action>)
    requires Bookkeeping(s) && s.updaterRegistered && s.chain.Some?
    requires forall i :: 0 <= i < |actions| ==> !UpdaterStep(actions[i])
    ensures var t := Run(Next(s, Prepare(built)), actions);
            var after := Next(t, Overwrite(Confirmed)).chain;
            && t.chain.Some? && after.Some?
            && (after.value.membership == t.chain.value.membership <==>
                built == ZERO_ROOT || s.chain.value.membership == t.chain.value.membership)
            && (after.value.jurisdiction == t.chain.value.jurisdiction <==>
                built == ZERO_ROOT || s.chain.value.jurisdiction == t.chain.value.jurisdiction)
            && (built != ZERO_ROOT ==> after == Some(s.chain.value.(sanctions := built)))
  {
    var p := Next(s, Prepare(built));
    hide Run, AnyZero, Submit;
    BookkeepingStep(s, Prepare(built));
    PreparedStays(p, actions);
    BookkeepingHolds(p, actions);
    UpdaterWrites(Run(p, actions), s.chain.value, built);
  }

  /** The same for a write reported as failed that lands at any later time. */
  lemma LateUpdaterHarmlessIff(s: State, built: Root, actions: seq<Action>)
    requires Bookkeeping(s) && s.chain.Some?
    requires Tx(s.chain.value.(sanctions := built), false) in Run(s, actions).pending
    ensures var t := Run(s, actions);
            var after := Next(t, Land(Tx(s.chain.value.(sanctions := built), false))).chain;
            && t.chain.Some? && after.Some?
            && (after.value.membership == t.chain.value.membership <==>
                built == ZERO_ROOT || s.chain.value.membership == t.chain.value.membership)
            && (after.value.jurisdiction == t.chain.value.jurisdiction <==>
                built == ZERO_ROOT || s.chain.value.jurisdiction == t.chain.value.jurisdiction)
  {
    BookkeepingHolds(s, actions);
    hide Run;
  }

  /** Exactly when the updater's first tick after a start changes the record: its probe worked,
      the record exists and the built root is not zero; it then changes the sanctions root. */
  lemma FirstTick(s: State, ok: bool, built: Root)
    requires Bookkeeping(s)
    ensures Next(Next(Next(s, Probe(ok)), Prepare(built)), Overwrite(Confirmed)).chain ==
            if ok && s.chain.Some? && built != ZERO_ROOT then Some(s.chain.value.(sanctions := built)) else s.chain
  {
    var t := Next(Next(s, Probe(ok)), Prepare(built));
    if ok && s.chain.Some? {
      UpdaterWrites(t, s.chain.value, built);
    } else {
      PlaceholderRefused(built);
      hide AnyZero;
    }
  }

  predicate SameRecord(r: Roots, q: Roots) { r.membership == q.membership && r.jurisdiction == q.jurisdiction }

  /** Every root triple written by the run has these membership and jurisdiction roots. */
  predicate WritesOnly(s: State, actions: seq<Action>, r: Roots) {
    if actions == [] then true
    else
      var n := |actions| - 1;
      var w := Written(Run(s, actions[..n]), actions[n]);
      WritesOnly(s, actions[..n], r) && (w.Some? ==> SameRecord(w.value, r))
  }

  lemma {:induction false} RecordStays(s: State, actions: seq<Action>, r: Roots)
    requires s.chain.Some? && SameRecord(s.chain.value, r) && WritesOnly(s, actions, r)
    ensures Run(s, actions).chain.Some? && SameRecord(Run(s, actions).chain.value, r)
    decreases |actions|
  {
    hide Written, Next, SameRecord;
    if actions != [] {
      var n := |actions| - 1;
      RecordStays(s, actions[..n], r);
      WrittenIsNext(Run(s, actions[..n]), actions[n]);
    }
  }

  /** With no accepted write of other membership or jurisdiction roots between its read and
      its write, the updater changes the sanctions root alone. */
  lemma UpdaterChangesSanctionsOnly(s: State, built: Root, actions: seq<Action>)
    requires Bookkeeping(s) && s.updaterRegistered && s.chain.Some? && built != ZERO_ROOT
    requires forall i :: 0 <= i < |actions| ==> !UpdaterStep(actions[i])
    requires WritesOnly(Next(s, Prepare(built)), actions, s.chain.value)
    ensures var t := Run(Next(s, Prepare(built)), actions);
            t.chain.Some? && Next(t, Overwrite(Confirmed)).chain == Some(t.chain.value.(sanctions := built))
  {
    hide Run, WritesOnly, Bookkeeping;
    RecordStays(Next(s, Prepare(built)), actions, s.chain.value);
    UpdaterHarmlessIff(s, built, actions);
  }

  /** Without that, the updater writes back a membership root older than the published one. */
  lemma StaleOverwriteRun(stale: Roots, latest: Roots, built: Root)
    requires !AnyZero(stale) && !AnyZero(latest) && built != ZERO_ROOT && stale.membership != latest.membership
    ensures var actions := [Begin, Send(Confirmed), Commit, Probe(true), Prepare(built)] +
                           [Change(latest), Begin, Send(Confirmed), Commit, Overwrite(Confirmed)];
            var s := Run(Fresh(stale), actions);
            && !Due(s) && s.publisher.Idle? && s.roots == latest
            && s.chain == Some(Roots(stale.membership, built, stale.jurisdiction))
  {
    hide Run;
    var first := [Begin, Send(Confirmed), Commit, Probe(true), Prepare(built)];
    var second := [Change(latest), Begin, Send(Confirmed), Commit, Overwrite(Confirmed)];
    RunFive(Fresh(stale), Begin, Send(Confirmed), Commit, Probe(true), Prepare(built));
    var s := Run(Fresh(stale), first);
    assert s.updater == Prepared(Tx(stale.(sanctions := built), false)) && s.chain == Some(stale);
    assert s.registered && s.publisher.Idle?;
    RunFive(s, Change(latest), Begin, Send(Confirmed), Commit, Overwrite(Confirmed));
    RunConcat(Fresh(stale), first, second);
  }

  // ------------------------------------------------------------ a stuck issuer

  /** The record exists but the running service believes it is unregistered. */
  predicate Stuck(s: State) {
    && s.chain.Some? && !s.registered
    && (s.publisher.Snapshotted? ==> !s.publisher.wasRegistered)
    && !Succeeded(s)
  }

  /** Exactly when a publication works: with a due publication, a free lock and non-zero
      roots, a confirmed send publishes the current roots if and only if the service knows
      whether it is registered. */
  lemma PublishesIff(s: State)
    requires s.publisher.Idle? && Due(s) && !AnyZero(s.roots)
    ensures var t := Next(Next(Next(s, Begin), Send(Confirmed)), Commit);
            && (s.registered == s.chain.Some? ==> t.chain == Some(s.roots) && !Due(t))
            && (s.registered != s.chain.Some? ==> t == s)
    ensures Bookkeeping(s) ==> (s.registered != s.chain.Some? <==> Stuck(s))
  {
  }

  /** Own transactions of a stuck issuer, and late registrations, are refused. */
  predicate CannotWrite(a: Action) { !a.Overwrite? && (a.Land? ==> a.tx.register) }

  predicate WorkingRestart(a: Action) { a.Restart? && a.probed }

  lemma RegistrationRefused(c: Chain)
    requires c.Some?
    ensures forall r :: Submit(c, r, true).None?
  {
  }

  lemma StuckStep(s: State, a: Action)
    requires Stuck(s)
    ensures Stuck(Next(s, a)) <==> !WorkingRestart(a)
    ensures CannotWrite(a) ==> Next(s, a).chain == s.chain
  {
    RegistrationRefused(s.chain);
    hide AnyZero, Submit;
    WrittenIsNext(s, a);
  }

  predicate StuckThroughout(s: State, actions: seq<Action>) {
    Stuck(Run(s, actions)) && (actions == [] || StuckThroughout(s, actions[..|actions| - 1]))
  }

  /** In every run of all parties a stuck issuer stays stuck until, and exactly until, a
      restart whose probe works. */
  lemma {:induction false} StuckUntilWorkingRestart(s: State, actions: seq<Action>)
    requires Stuck(s)
    ensures StuckThroughout(s, actions) <==> forall i :: 0 <= i < |actions| ==> !WorkingRestart(actions[i])
    decreases |actions|
  {
    hide Stuck, Next, WorkingRestart;
    if actions != [] {
      var n := |actions| - 1;
      StuckUntilWorkingRestart(s, actions[..n]);
      if Stuck(Run(s, actions[..n])) {
        StuckStep(Run(s, actions[..n]), actions[n]);
      }
    }
  }

  /** Meanwhile nothing it sends reaches the chain. */
  lemma {:induction false} StuckChainFrozen(s: State, actions: seq<Action>)
    requires Stuck(s) && forall i :: 0 <= i < |actions| ==> !WorkingRestart(actions[i]) && CannotWrite(actions[i])
    ensures Stuck(Run(s, actions)) && Run(s, actions).chain == s.chain
    decreases |actions|
  {
    if actions != [] {
      StuckChainFrozen(s, actions[..|actions| - 1]);
      StuckStep(Run(s, actions[..|actions| - 1]), actions[|actions| - 1]);
    }
  }

  /** A registration that lands although its sender saw an error leads there. */
  lemma UnseenRegistrationSticks(r: Roots)
    requires !AnyZero(r)
    ensures Stuck(Run(Fresh(r), [Begin, Send(Unconfirmed), Commit, Land(Tx(r, true)), Begin]))
  {
    RunFive(Fresh(r), Begin, Send(Unconfirmed), Commit, Land(Tx(r, true)), Begin);
  }

  /** So does a healthy issuer whose start-up probe fails. */
  lemma FailedProbeSticks(r: Roots)
    requires !AnyZero(r)
    ensures Stuck(Run(Fresh(r), [Begin, Send(Confirmed), Commit, Restart(r, false), Begin]))
  {
    RunFive(Fresh(r), Begin, Send(Confirmed), Commit, Restart(r, false), Begin);
  }

  /** A state that claims to be clean while the chain differs stays unpublished: without a
      new change or a foreign or late write the chain keeps its roots, whatever restarts
      there are; a restart whose probe works is clean again, any other one is stuck. */
  lemma {:induction false} LostChangeStaysLost(s: State, actions: seq<Action>)
    requires s.publisher.Idle? && !Due(s) && s.chain.Some?
    requires forall i :: 0 <= i < |actions| ==> CannotWrite(actions[i]) && !actions[i].Change?
    ensures var t := Run(s, actions);
            t.chain == s.chain && !t.dirty && (Stuck(t) || (t.registered && t.publisher.Idle?))
    decreases |actions|
  {
    if actions != [] {
      var n := |actions| - 1;
      LostChangeStaysLost(s, actions[..n]);
      var t := Run(s, actions[..n]);
      if Stuck(t) {
        StuckStep(t, actions[n]);
      }
      hide Run, Stuck;
    }
  }
  // ----------------------------------------------------- the account's bytes

  datatype IssuerAccount = IssuerAccount(authority: Root, roots: Roots, slot: seq<Byte>, bump: Byte)

  function AccountBytes(discriminator: seq<Byte>, a: IssuerAccount): seq<Byte> {
    discriminator + a.authority + a.roots.membership + a.roots.sanctions + a.roots.jurisdiction + a.slot + [a.bump]
  }

  datatype ReadError = AccountMissing | DataTooShort(size: nat)

  /** `read_current_roots`: fixed offsets into the account data. */
  function ReadCurrentRoots(account: Option<seq<Byte>>): Result<Roots, ReadError> {
    match account
    case None => Err(AccountMissing)
    case Some(data) =>
      if |data| < 8 + 32 + 32 * 3 then Err(DataTooShort(|data|))
      else Ok(Roots(data[40..72], data[72..104], data[104..136]))
  }

  /** The updater reads exactly the roots the program stored. */
  lemma AccountRoundTrip(discriminator: seq<Byte>, a: IssuerAccount)
    requires |discriminator| == 8 && |a.slot| == 8 && |a.authority| == 32
    requires |a.roots.membership| == |a.roots.sanctions| == |a.roots.jurisdiction| == 32
    ensures ReadCurrentRoots(Some(AccountBytes(discriminator, a))) == Ok(a.roots)
  {
    var data := AccountBytes(discriminator, a);
    assert data[40..72] == a.roots.membership;
    assert data[72..104] == a.roots.sanctions;
    assert data[104..136] == a.roots.jurisdiction;
  }
}
