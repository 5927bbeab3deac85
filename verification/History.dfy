/** Daily usage: one bucket per UTC day, pruned on every write, and the history view
    built from the buckets. */
module History {
  import opened Arithmetic
  import opened Calendar
  import opened Text
  import opened Timestamp
  import opened Wrappers

  const DAY: nat := 86_400
  const MAX_DAILY_BUCKETS: nat := 400

  type Buckets = map<nat, nat>

  function SaturatingSub(a: nat, b: nat): nat { if a >= b then a - b else 0 }

  function DayStart(t: nat): nat { t / DAY * DAY }

  function PruneCutoff(now: nat): nat { SaturatingSub(now, (MAX_DAILY_BUCKETS - 1) * DAY) }

  function Prune(b: Buckets, now: nat): Buckets {
    map d | d in b && d >= PruneCutoff(now) :: b[d]
  }

  function Bucket(b: Buckets, d: nat): nat { if d in b then b[d] else 0 }

  function RecordDaily(b: Buckets, now: nat): Buckets {
    var d := DayStart(now);
    Prune(b[d := Bucket(b, d) + 1], now)
  }

  /** The `daily_usage` table, the rows of a key kept together. */
  class DailyUsageRows {
    var rows: map<string, Buckets>

    function BucketsOf(key: string): Buckets
      reads this
    {
      if key in rows then rows[key] else map[]
    }

    constructor ()
      ensures rows == map[]
    {
      rows := map[];
    }

    /** `record_daily`: insert or increment, then prune. */
    method Record(key: string, now: nat)
      modifies this
      ensures BucketsOf(key) == RecordDaily(old(BucketsOf(key)), now)
      ensures rows.Keys == old(rows.Keys) + {key} && forall k :: k in old(rows) && k != key ==> rows[k] == old(rows)[k]
    {
      var day := now / DAY * DAY;
      var mine := if key in rows then rows[key] else map[];
      rows := rows[key := mine[day := if day in mine then mine[day] + 1 else 1]];
      PruneOldBuckets(key, now);
    }

    /** `prune_old_buckets`. */
    method PruneOldBuckets(key: string, now: nat)
      modifies this
      ensures BucketsOf(key) == Prune(old(BucketsOf(key)), now)
      ensures rows.Keys == old(rows.Keys) && forall k :: k in rows && k != key ==> rows[k] == old(rows)[k]
    {
      var cutoff := SaturatingSub(now, (MAX_DAILY_BUCKETS - 1) * DAY);
      if key in rows {
        var mine := rows[key];
        rows := rows[key := map d | d in mine && d >= cutoff :: mine[d]];
      }
    }
  }

  /** The buckets after a sequence of `record_daily` calls. */
  function After(times: seq<nat>): Buckets {
    if times == [] then map[] else RecordDaily(After(times[..|times| - 1]), times[|times| - 1])
  }

  predicate Clock(times: seq<nat>) { forall i, j :: 0 <= i < j < |times| ==> times[i] <= times[j] }

  /** Calls whose day number lies in a .. b - 1. */
  function Calls(times: seq<nat>, a: int, b: int): nat {
    if times == [] then 0
    else Calls(times[..|times| - 1], a, b) + if a <= times[|times| - 1] / DAY < b then 1 else 0
  }

  lemma {:induction false} CallsSplit(times: seq<nat>, a: int, b: int, c: int)
    requires a <= b <= c
    ensures Calls(times, a, c) == Calls(times, a, b) + Calls(times, b, c)
  {
    if times != [] {
      CallsSplit(times[..|times| - 1], a, b, c);
    }
  }

  /** What the stored buckets mean: every stored bucket is a recent day and holds the
      calls of that day, and no recent day is missing. */
  ghost predicate Faithful(b: Buckets, times: seq<nat>, now: nat) {
    && (forall d :: d in b ==> d == d / DAY * DAY && PruneCutoff(now) <= d <= now)
    && (forall k: nat :: PruneCutoff(now) <= k * DAY ==> Right(b, times, k))
  }

  /** The bucket of day `k` holds the calls of day `k`. */
  predicate Right(b: Buckets, times: seq<nat>, k: nat) { Bucket(b, k * DAY) == Calls(times, k, k + 1) }

  lemma DayOf(k: nat)
    ensures k * DAY / DAY == k && k * DAY / DAY * DAY == k * DAY
  {
    Quotient(k * DAY, DAY, k, 0);
  }

  lemma PruneOlder(b: Buckets, times: seq<nat>, then_: nat, now: nat)
    requires Faithful(b, times, then_) && then_ <= now
    ensures Faithful(Prune(b, now), times, now)
  {
    forall k: nat | PruneCutoff(now) <= k * DAY ensures Right(Prune(b, now), times, k) {
      assert Right(b, times, k);
    }
  }

  lemma RecordIsFaithful(b: Buckets, times: seq<nat>, now: nat)
    requires Faithful(b, times, now)
    ensures Faithful(RecordDaily(b, now), times + [now], now)
  {
    var today := now / DAY;
    DayOf(today);
    assert (times + [now])[..|times|] == times;
    var b' := RecordDaily(b, now);
    forall k: nat | PruneCutoff(now) <= k * DAY
      ensures Right(b', times + [now], k)
    {
      DayOf(k);
      assert Right(b, times, k);
      assert k * DAY == DayStart(now) <==> k == today;
    }
  }

  /** Under a clock that does not go back, the buckets stay faithful in every run. */
  lemma {:induction false} BucketsFaithful(times: seq<nat>)
    requires Clock(times) && times != []
    ensures Faithful(After(times), times, times[|times| - 1])
    decreases |times|
  {
    var n := |times| - 1;
    var now := times[n];
    if n > 0 {
      BucketsFaithful(times[..n]);
      PruneOlder(After(times[..n]), times[..n], times[n - 1], now);
      PruneThenRecord(After(times[..n]), now);
      RecordIsFaithful(Prune(After(times[..n]), now), times[..n], now);
    } else {
      assert After(times[..0]) == map[] && times[..0] == [];
      RecordIsFaithful(map[], [], now);
    }
    assert times[..n] + [now] == times;
  }

  lemma PruneThenRecord(b: Buckets, now: nat)
    ensures RecordDaily(Prune(b, now), now) == RecordDaily(b, now)
  {
    assert DayStart(now) >= PruneCutoff(now);
  }

  /** At most 400 buckets are ever stored. */
  lemma BucketsBounded(times: seq<nat>)
    requires Clock(times)
    ensures |After(times)| <= MAX_DAILY_BUCKETS
  {
    if times != [] {
      var now := times[|times| - 1];
      BucketsFaithful(times);
      var keys := After(times).Keys;
      var lo := PruneCutoff(now) / DAY + if PruneCutoff(now) % DAY == 0 then 0 else 1;
      MultiplesBounded(keys, lo, now / DAY + 1);
    }
  }

  /** A set of multiples of DAY between two day numbers is no larger than their distance. */
  lemma {:induction false} MultiplesBounded(s: set<nat>, lo: nat, hi: nat)
    requires lo <= hi && forall d :: d in s ==> d == d / DAY * DAY && lo <= d / DAY < hi
    ensures |s| <= hi - lo
    decreases hi - lo
  {
    if lo == hi {
      assert s == {};
    } else {
      DayOf(hi - 1);
      var rest := s - {(hi - 1) * DAY};
      MultiplesBounded(rest, lo, hi - 1);
    }
  }

  // ------------------------------------------------------------- the history

  function HistoryDay(now: nat, offset: nat): nat { SaturatingSub(DayStart(now), offset * DAY) }

  /** Counts of the last `n` days, oldest first. */
  function Counts(b: Buckets, now: nat, n: nat): (r: seq<nat>)
    ensures |r| == n
  {
    if n == 0 then [] else [Bucket(b, HistoryDay(now, n - 1))] + Counts(b, now, n - 1)
  }

  function Sum(s: seq<nat>): nat { if s == [] then 0 else s[0] + Sum(s[1..]) }

  datatype DailyUsage = DailyUsage(date: string, count: nat)

  predicate Dated(now: nat) { now / DAY <= DaysFromCivil(Date(LAST_YEAR, 12, 31)) }

  /** Entry for the day `offset` days before today: its count and a label that reads
      back as the start of that day. */
  ghost predicate EntryFor(e: DailyUsage, b: Buckets, now: nat, offset: nat) {
    && e.count == Bucket(b, HistoryDay(now, offset))
    && ParseIso8601(e.date + "T00:00:00Z") == Value(HistoryDay(now, offset))
  }

  lemma LabelExists(now: nat, offset: nat)
    requires Dated(now)
    ensures CivilFromDays(HistoryDay(now, offset) / DAY).year >= 0
    ensures ParseIso8601(FormatDay(HistoryDay(now, offset)) + "T00:00:00Z") == Value(HistoryDay(now, offset))
  {
    hide ParseIso8601, FormatDay, CivilFromDays, DaysFromCivil, HistoryDay;
    HistoryDayAligned(now, offset);
    DayLabelRoundTrip(HistoryDay(now, offset));
  }

  /** `daily_history`: rows from the cutoff on are read into a map, then one entry per
      day is pushed, oldest first, absent days as zero. */
  method DailyHistory(b: Buckets, now: nat, days: nat) returns (out: seq<DailyUsage>)
    requires Dated(now)
    ensures |out| == days
    ensures forall i :: 0 <= i < days ==> EntryFor(out[i], b, now, days - 1 - i)
  {
    hide ParseIso8601, FormatDay, CivilFromDays, DaysFromCivil;
    out := [];
    if days == 0 {
      return;
    }
    var today := DayStart(now);
    var cutoff := SaturatingSub(today, (days - 1) * DAY);
    var counts := map d | d in b && d >= cutoff :: b[d];
    for offset := days downto 0
      invariant |out| == days - offset
      invariant forall i :: 0 <= i < |out| ==> EntryFor(out[i], b, now, days - 1 - i)
    {
      var day := SaturatingSub(today, offset * DAY);
      LabelExists(now, offset);
      var entry := DailyUsage(FormatDay(day), Bucket(counts, day));
      assert EntryFor(entry, b, now, offset);
      out := out + [entry];
    }
  }

  lemma HistoryDayAligned(now: nat, offset: nat)
    ensures HistoryDay(now, offset) % DAY == 0 && HistoryDay(now, offset) / DAY <= now / DAY
    ensures HistoryDay(now, offset) / DAY == SaturatingSub(now / DAY, offset)
    ensures HistoryDay(now, offset) == SaturatingSub(now / DAY, offset) * DAY
  {
    var k := SaturatingSub(now / DAY, offset);
    assert HistoryDay(now, offset) == k * DAY;
    DayOf(k);
    Quotient(k * DAY, DAY, k, 0);
  }

  lemma {:induction false} CountsAt(b: Buckets, now: nat, n: nat, i: nat)
    requires i < n
    ensures Counts(b, now, n)[i] == Bucket(b, HistoryDay(now, n - 1 - i))
  {
    if i > 0 {
      CountsAt(b, now, n - 1, i - 1);
    }
  }

  /** First day whose bucket the last `record_daily` call has not pruned. */
  function FirstKept(times: seq<nat>): nat {
    if times == [] then 0 else (PruneCutoff(times[|times| - 1]) + DAY - 1) / DAY
  }

  /** A day's bucket holds the calls of that day if it is kept and is zero if not, although
      the prune cutoff is not aligned to midnight. */
  lemma BucketOfDay(times: seq<nat>, k: nat)
    requires Clock(times)
    ensures Bucket(After(times), k * DAY) == if k >= FirstKept(times) then Calls(times, k, k + 1) else 0
  {
    if times != [] {
      var cutoff := PruneCutoff(times[|times| - 1]);
      BucketsFaithful(times);
      assert k >= FirstKept(times) <==> cutoff <= k * DAY;
      if cutoff <= k * DAY {
        assert Right(After(times), times, k);
      }
    }
  }

  function Larger(a: int, b: int): int { if a >= b then a else b }

  /** First day of the window that is still stored. */
  function WindowStart(times: seq<nat>, now: nat, n: nat): int { Larger(now / DAY + 1 - n, FirstKept(times)) }

  /** What day zero is counted again, once per day the window would reach before the epoch. */
  function Repeated(times: seq<nat>, now: nat, n: nat): nat {
    if FirstKept(times) == 0 then SaturatingSub(n, now / DAY + 1) * Calls(times, 0, 1) else 0
  }

  ghost predicate Recorded(times: seq<nat>, now: nat) {
    Clock(times) && (times != [] ==> times[|times| - 1] <= now)
  }

  lemma FirstKeptBound(times: seq<nat>, now: nat)
    requires Recorded(times, now)
    ensures FirstKept(times) <= now / DAY && FirstKept(times) <= SaturatingSub(now / DAY, 398)
  {
    if times != [] {
      var last := times[|times| - 1];
      assert last / DAY <= now / DAY && last < (last / DAY + 1) * DAY;
      assert PruneCutoff(last) <= SaturatingSub(last / DAY, 398) * DAY;
    }
  }

  lemma OneMoreDay(b: Buckets, now: nat, n: nat)
    requires n > 0
    ensures Sum(Counts(b, now, n)) == Bucket(b, SaturatingSub(now / DAY, n - 1) * DAY) + Sum(Counts(b, now, n - 1))
  {
    HistoryDayAligned(now, n - 1);
    assert Counts(b, now, n)[1..] == Counts(b, now, n - 1);
  }

  /** A day from the epoch on adds its own calls if it is stored. */
  lemma LaterDay(times: seq<nat>, now: nat, n: nat)
    requires Recorded(times, now) && 0 < n <= now / DAY + 1
    ensures var today := now / DAY;
            var k := today + 1 - n;
            Calls(times, WindowStart(times, now, n), today + 1) ==
            Calls(times, WindowStart(times, now, n - 1), today + 1) + if k >= FirstKept(times) then Calls(times, k, k + 1) else 0
  {
    var today := now / DAY;
    var k := today + 1 - n;
    FirstKeptBound(times, now);
    hide FirstKept, Calls, Recorded;
    if k >= FirstKept(times) {
      CallsSplit(times, k, k + 1, today + 1);
    }
  }

  /** For every number of days the history sums to the calls of the stored part of the
      window, plus one extra copy of day zero per day the window would reach before the
      epoch. */
  lemma {:induction false} HistorySum(times: seq<nat>, now: nat, n: nat)
    requires Recorded(times, now)
    ensures Sum(Counts(After(times), now, n)) ==
            Calls(times, WindowStart(times, now, n), now / DAY + 1) + Repeated(times, now, n)
  {
    var today := now / DAY;
    FirstKeptBound(times, now);
    if n <= today + 1 {
      NothingRepeated(times, now, n);
    }
    hide FirstKept, After, Clock, Calls, HistoryDay, Repeated;
    if n == 0 {
      CallsSplit(times, today + 1, today + 1, today + 1);
    } else {
      hide WindowStart, Counts, Sum;
      HistorySum(times, now, n - 1);
      OneMoreDay(After(times), now, n);
      BucketOfDay(times, SaturatingSub(today, n - 1));
      if today < n - 1 {
        EarlierDay(times, now, n);
      } else {
        LaterDay(times, now, n);
      }
    }
  }

  /** A day before the epoch reads day zero once more. */
  lemma EarlierDay(times: seq<nat>, now: nat, n: nat)
    requires Recorded(times, now) && now / DAY < n - 1
    ensures WindowStart(times, now, n) == WindowStart(times, now, n - 1) == FirstKept(times)
    ensures Repeated(times, now, n) ==
            Repeated(times, now, n - 1) + if FirstKept(times) == 0 then Calls(times, 0, 1) else 0
  {
    hide FirstKept, Calls;
  }

  lemma NothingRepeated(times: seq<nat>, now: nat, n: nat)
    requires n <= now / DAY + 1
    ensures Repeated(times, now, n) == 0 && (n > 0 ==> Repeated(times, now, n - 1) == 0)
  {
  }

  lemma {:induction false} NoCallsBefore(times: seq<nat>, a: int, b: int)
    requires b <= 0
    ensures Calls(times, a, b) == 0
  {
    if times != [] {
      NoCallsBefore(times[..|times| - 1], a, b);
    }
  }

  /** Exactly when the history of n days is right, for every n: no call fell on a day of
      the window that has been pruned, and the window does not read day zero again. */
  lemma HistoryExactIff(times: seq<nat>, now: nat, n: nat)
    requires Recorded(times, now)
    ensures var today := now / DAY;
            Sum(Counts(After(times), now, n)) == Calls(times, today + 1 - n, today + 1) <==>
            && Calls(times, today + 1 - n, WindowStart(times, now, n)) == 0
            && (n <= today + 1 || FirstKept(times) > 0 || Calls(times, 0, 1) == 0)
  {
    var today, start := now / DAY, WindowStart(times, now, n);
    HistorySum(times, now, n);
    FirstKeptBound(times, now);
    CallsSplit(times, today + 1 - n, start, today + 1);
    hide FirstKept, Calls, After, Counts;
    if n <= today + 1 {
      NothingRepeated(times, now, n);
    } else if FirstKept(times) == 0 {
      NoCallsBefore(times, today + 1 - n, start);
      if Calls(times, 0, 1) > 0 {
        ProductAtLeast(Calls(times, 0, 1), n - today - 1);
      }
    }
  }

  /** Up to 399 days nothing in the window has been pruned. */
  lemma NothingPruned(times: seq<nat>, now: nat, n: nat)
    requires Recorded(times, now) && n <= 399
    ensures Calls(times, now / DAY + 1 - n, WindowStart(times, now, n)) == 0
  {
    var a := now / DAY + 1 - n;
    FirstKeptBound(times, now);
    if FirstKept(times) == 0 && a < 0 {
      NoCallsBefore(times, a, 0);
    } else {
      CallsSplit(times, a, a, a);
    }
  }

  /** With 400 days a bucket just outside the unaligned cutoff is missing from the sum. */
  lemma FourHundredDaysTooMany()
    ensures var times, now := [0, 399 * DAY + 1], 399 * DAY + 1;
            Recorded(times, now) && Sum(Counts(After(times), now, 400)) != Calls(times, 0, 400)
  {
    var times, now := [0, 399 * DAY + 1], 399 * DAY + 1;
    assert times[..1] == [0] && times[..1][..0] == [];
    assert Calls(times[..1], 0, 1) == 1;
    assert now / DAY == 399 && FirstKept(times) == 1;
    HistoryExactIff(times, now, 400);
  }

  // ----------------------------------------------------------- the endpoint

  const DEFAULT_HISTORY_DAYS: nat := 30
  const MAX_HISTORY_DAYS: nat := 365

  /** `get_usage_history` clamps the number of days asked for. */
  function HistoryDays(days: Option<nat>): (n: nat)
    ensures days == None ==> n == 30
    ensures days.Some? && days.value == 0 ==> n == 1
    ensures days.Some? && 1 <= days.value <= 365 ==> n == days.value
    ensures days.Some? && days.value > 365 ==> n == 365
  {
    var d := if days.Some? then days.value else DEFAULT_HISTORY_DAYS;
    if d < 1 then 1 else if d > MAX_HISTORY_DAYS then MAX_HISTORY_DAYS else d
  }

  function CountsOf(out: seq<DailyUsage>): (r: seq<nat>)
    ensures |r| == |out| && forall i :: 0 <= i < |out| ==> r[i] == out[i].count
  {
    if out == [] then [] else CountsOf(out[..|out| - 1]) + [out[|out| - 1].count]
  }

  /** The entries `DailyHistory` returns carry exactly the counts of the window. */
  lemma HistoryCounts(b: Buckets, now: nat, days: nat, out: seq<DailyUsage>)
    requires |out| == days && forall i :: 0 <= i < days ==> EntryFor(out[i], b, now, days - 1 - i)
    ensures CountsOf(out) == Counts(b, now, days)
  {
    forall i | 0 <= i < days ensures CountsOf(out)[i] == Counts(b, now, days)[i] {
      CountsAt(b, now, days, i);
      assert EntryFor(out[i], b, now, days - 1 - i);
    }
  }

  /** Up to 399 days, entries like those of `DailyHistory` sum to the recorded calls of
      their days if and only if the days do not reach before the epoch or day zero is
      empty. */
  lemma EntriesSumToCalls(times: seq<nat>, now: nat, out: seq<DailyUsage>)
    requires Recorded(times, now) && |out| <= 399
    requires forall i :: 0 <= i < |out| ==> EntryFor(out[i], After(times), now, |out| - 1 - i)
    ensures var today := now / DAY;
            Sum(CountsOf(out)) == Calls(times, today + 1 - |out|, today + 1) <==>
            |out| <= today + 1 || Calls(times, 0, 1) == 0
  {
    hide EntryFor, CountsOf, Counts, Calls, FirstKept, Recorded, After, WindowStart;
    HistoryCounts(After(times), now, |out|, out);
    HistoryExactIff(times, now, |out|);
    NothingPruned(times, now, |out|);
    FirstKeptBound(times, now);
  }

  /** The usage history endpoint: one entry per day of the clamped number asked for, with
      the recorded calls of those days as their sum whenever the days do not reach before
      the epoch, and otherwise exactly when day zero is empty. */
  method GetUsageHistory(ghost times: seq<nat>, buckets: Buckets, now: nat, days: Option<nat>)
    returns (out: seq<DailyUsage>)
    requires Recorded(times, now) && Dated(now) && buckets == After(times)
    ensures |out| == HistoryDays(days)
    ensures forall i :: 0 <= i < |out| ==> EntryFor(out[i], buckets, now, |out| - 1 - i)
    ensures var today := now / DAY;
            Sum(CountsOf(out)) == Calls(times, today + 1 - |out|, today + 1) <==>
            |out| <= today + 1 || Calls(times, 0, 1) == 0
  {
    hide EntryFor, CountsOf, Calls, Recorded, After, Dated;
    out := DailyHistory(buckets, now, HistoryDays(days));
    EntriesSumToCalls(times, now, out);
  }
}
