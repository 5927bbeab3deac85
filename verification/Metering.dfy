/** Quota accounting: the `usage_records` table and the three statements that touch
    it.  Times and counts are below 2^63, so the casts to `i64` are the identity. */
module Metering {
  import opened Wrappers

  const PERIOD_SECS: int := 30 * 24 * 60 * 60

  datatype Row = Row(count: int, periodStart: int, lastRequest: int)

  predicate Expired(row: Row, now: int) { now - row.periodStart >= PERIOD_SECS }

  /** The upsert of `try_reserve` on the row of one key, and whether it touched a row. */
  function Reserve(row: Option<Row>, now: int, limit: int): (Option<Row>, bool) {
    match row
    case None => (Some(Row(1, now, now)), true)
    case Some(r) =>
      if Expired(r, now) then (Some(Row(1, now, now)), true)
      else if r.count < limit then (Some(Row(r.count + 1, r.periodStart, now)), true)
      else (row, false)
  }

  function ReleaseOne(row: Option<Row>): Option<Row> {
    match row
    case None => None
    case Some(r) => Some(r.(count := if r.count - 1 > 0 then r.count - 1 else 0))
  }

  /** What `get` shows at `now`. */
  function View(row: Option<Row>, now: int): Row {
    if row.None? || Expired(row.value, now) then Row(0, now, now) else row.value
  }

  class UsageRecords {
    var rows: map<string, Row>

    function RowOf(key: string): Option<Row>
      reads this
    {
      if key in rows then Some(rows[key]) else None
    }

    constructor ()
      ensures rows == map[]
    {
      rows := map[];
    }

    method TryReserve(key: string, now: int, limit: int) returns (granted: bool)
      modifies this
      ensures (RowOf(key), granted) == Reserve(old(RowOf(key)), now, limit)
      ensures rows.Keys == old(rows.Keys) + {key} && forall k :: k in old(rows) && k != key ==> rows[k] == old(rows)[k]
    {
      if key !in rows {
        rows := rows[key := Row(1, now, now)];
        return true;
      }
      var r := rows[key];
      if now - r.periodStart >= PERIOD_SECS || r.count < limit {
        var rollover := now - r.periodStart >= PERIOD_SECS;
        rows := rows[key := Row(if rollover then 1 else r.count + 1, if rollover then now else r.periodStart, now)];
        return true;
      }
      return false;
    }

    method Release(key: string)
      modifies this
      ensures RowOf(key) == ReleaseOne(old(RowOf(key)))
      ensures rows.Keys == old(rows.Keys) && forall k :: k in rows && k != key ==> rows[k] == old(rows)[k]
    {
      if key in rows {
        var r := rows[key];
        rows := rows[key := r.(count := if r.count - 1 > 0 then r.count - 1 else 0)];
      }
    }

    method Get(key: string, now: int) returns (r: Row)
      ensures r == View(RowOf(key), now)
      ensures key !in rows || now - rows[key].periodStart >= 2_592_000 ==>
                r.count == 0 && r.periodStart == now && r.lastRequest == now
      ensures key in rows && now - rows[key].periodStart < 2_592_000 ==>
                r.count == rows[key].count && r.periodStart == rows[key].periodStart && r.lastRequest == rows[key].lastRequest
    {
      if key in rows {
        if now - rows[key].periodStart >= PERIOD_SECS {
          return Row(0, now, now);
        }
        return rows[key];
      }
      r := Row(0, now, now);
    }
  }

  // ------------------------------------------------------------------- runs

  datatype Op = ReserveAt(now: int) | Release

  /** The row, with what happened since the period it records began: when it began, the
      grants, the releases, and the time of the last grant. */
  datatype Tally = Tally(row: Option<Row>, began: int, grants: nat, releases: nat, lastGrant: int)

  predicate StartsPeriod(row: Option<Row>, now: int) { row.None? || Expired(row.value, now) }

  function Apply(t: Tally, op: Op, limit: int): Tally {
    match op
    case ReserveAt(now) =>
      var (row, granted) := Reserve(t.row, now, limit);
      if StartsPeriod(t.row, now) then Tally(row, now, 1, 0, now)
      else if granted then Tally(row, t.began, t.grants + 1, t.releases, now)
      else t.(row := row)
    case Release => Tally(ReleaseOne(t.row), t.began, t.grants, t.releases + 1, t.lastGrant)
  }

  function Run(ops: seq<Op>, limit: int): Tally {
    if ops == [] then Tally(None, 0, 0, 0, 0)
    else Apply(Run(ops[..|ops| - 1], limit), ops[|ops| - 1], limit)
  }

  /** In every run the count stays within 0 .. limit, the grants of a period never exceed
      the limit plus the releases applied in it, and the row dates its period and its
      last grant correctly. */
  lemma {:induction false} QuotaHolds(ops: seq<Op>, limit: int)
    requires limit >= 1
    ensures var t := Run(ops, limit);
            t.row.Some? ==>
              && 0 <= t.row.value.count <= limit
              && t.grants - t.releases <= t.row.value.count
              && t.grants <= limit + t.releases
              && t.row.value.periodStart == t.began && t.row.value.lastRequest == t.lastGrant
    decreases |ops|
  {
    if ops != [] {
      QuotaHolds(ops[..|ops| - 1], limit);
    }
  }

  lemma {:induction false} RowOnceReserved(ops: seq<Op>, limit: int)
    ensures Run(ops, limit).row.Some? <==> exists i :: 0 <= i < |ops| && ops[i].ReserveAt?
    decreases |ops|
  {
    if ops != [] {
      var n := |ops| - 1;
      RowOnceReserved(ops[..n], limit);
      if Run(ops[..n], limit).row.Some? {
        var i :| 0 <= i < n && ops[..n][i].ReserveAt?;
        assert ops[i].ReserveAt?;
      }
    }
  }

  /** What `get` shows after any run: within the period its true beginning, the time of the
      last grant and a count between the grants not released and the limit; before the
      first request and once 30 days have passed, nothing used and the present time. */
  lemma ShownAfterRun(ops: seq<Op>, limit: int, now: int)
    requires limit >= 1
    ensures var t, r := Run(ops, limit), View(Run(ops, limit).row, now);
            if (forall i :: 0 <= i < |ops| ==> !ops[i].ReserveAt?) || now - t.began >= 2_592_000
            then r.count == 0 && r.periodStart == now && r.lastRequest == now
            else r.periodStart == t.began && r.lastRequest == t.lastGrant && 0 <= r.count <= limit && t.grants - t.releases <= r.count
  {
    QuotaHolds(ops, limit);
    RowOnceReserved(ops, limit);
  }

  /** `try_reserve` and `get` agree, except that a limit of zero still grants the first
      request of a period. */
  lemma ReserveAgreesWithGetIff(row: Option<Row>, now: int, limit: nat)
    requires row.Some? ==> row.value.count >= 0
    ensures (Reserve(row, now, limit).1 <==> View(row, now).count < limit) <==>
            (limit >= 1 || !StartsPeriod(row, now))
  {
  }

  function Grants(times: seq<int>, limit: int): nat
    decreases |times|
  {
    if times == [] then 0
    else
      var n := |times| - 1;
      Grants(times[..n], limit) +
      if Reserve(Run(Ops(times[..n]), limit).row, times[n], limit).1 then 1 else 0
  }

  function Ops(times: seq<int>): (ops: seq<Op>)
    ensures |ops| == |times|
  {
    seq(|times|, i requires 0 <= i < |times| => ReserveAt(times[i]))
  }

  /** The documented promise: without releases exactly `limit` requests of a period are
      admitted, however many are made. */
  lemma {:induction false} ExactlyLimitPerPeriod(times: seq<int>, limit: nat)
    requires limit >= 1 && times != []
    requires forall i :: 0 <= i < |times| ==> times[i] - times[0] < PERIOD_SECS
    ensures Grants(times, limit) == if |times| <= limit then |times| else limit
    ensures var row := Run(Ops(times), limit).row;
            row.Some? && row.value.periodStart == times[0] && row.value.count == Grants(times, limit)
    decreases |times|
  {
    var n := |times| - 1;
    assert Ops(times)[..n] == Ops(times[..n]);
    if n > 0 {
      ExactlyLimitPerPeriod(times[..n], limit);
    } else {
      assert times[..0] == [] && Ops(times[..0]) == [];
    }
  }
}
