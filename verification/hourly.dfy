/**
 * The hour-of-day heatmap for one weekday: keep the rows of that day,
 * count the rows per hour value, then lay the counts out over the hours
 * 0..23 with 0 for an hour nobody ordered in.
 */
module Hourly {
  import opened Aggregate
  import opened Sales

  const HoursPerDay := 24

  /** The number of rows placed on weekday `day` at hour `h`. */
  function OrdersAt(s: seq<Sale>, day: string, h: int): nat
  {
    if |s| == 0 then 0
    else OrdersAt(s[..|s| - 1], day, h) + (if s[|s| - 1].day == day && s[|s| - 1].hour == h then 1 else 0)
  }

  /** The number of rows placed on weekday `day`. */
  function OrdersOn(s: seq<Sale>, day: string): nat
  {
    if |s| == 0 then 0
    else OrdersOn(s[..|s| - 1], day) + (if s[|s| - 1].day == day then 1 else 0)
  }

  /** The hour column of the rows placed on weekday `day`, in table order. */
  function DayHours(s: seq<Sale>, day: string): (r: seq<int>)
    ensures |r| == OrdersOn(s, day)
    ensures forall h :: multiset(r)[h] == OrdersAt(s, day, h)
  {
    if |s| == 0 then []
    else
      var p := DayHours(s[..|s| - 1], day);
      if s[|s| - 1].day == day then p + [s[|s| - 1].hour] else p
  }

  /** The number of times each value occurs; values that do not occur are absent. */
  method ValueCounts(xs: seq<int>) returns (counts: map<int, nat>)
    ensures forall v :: v in counts <==> v in xs
    ensures forall v :: v in counts ==> counts[v] == multiset(xs)[v]
  {
    counts := map[];
    var i := 0;
    while i < |xs|
      invariant 0 <= i <= |xs|
      invariant forall v :: v in counts <==> v in xs[..i]
      invariant forall v :: v in counts ==> counts[v] == multiset(xs[..i])[v]
    {
      assert xs[..i + 1] == xs[..i] + [xs[i]];
      var seen := if xs[i] in counts then counts[xs[i]] else 0;
      counts := counts[xs[i] := seen + 1];
      i := i + 1;
    }
    assert xs[..|xs|] == xs;
  }

  /** The counts laid out over 0..n-1, with 0 where a value is absent. */
  function Reindex(counts: map<int, nat>, n: nat): (r: seq<nat>)
    ensures |r| == n
    ensures forall h :: 0 <= h < n && h in counts ==> r[h] == counts[h]
    ensures forall h :: 0 <= h < n && h !in counts ==> r[h] == 0
  {
    seq(n, h requires 0 <= h < n => if h in counts then counts[h] else 0)
  }

  /**
   * The heatmap column for weekday `day`: exactly 24 entries, the entry
   * for hour h counting the rows of that day at that hour. When every
   * hour lies in 0..23 the entries add up to the number of rows of that
   * day, and a day without rows gives 24 zeros.
   */
  method HourlyCounts(s: seq<Sale>, day: string) returns (r: seq<nat>)
    ensures |r| == HoursPerDay
    ensures forall h :: 0 <= h < HoursPerDay ==> r[h] == OrdersAt(s, day, h)
    ensures (forall i :: 0 <= i < |s| ==> 0 <= s[i].hour < HoursPerDay) ==> Sum(r) == OrdersOn(s, day)
    ensures (forall i :: 0 <= i < |s| ==> s[i].day != day) ==> forall h :: 0 <= h < HoursPerDay ==> r[h] == 0
  {
    var hours := DayHours(s, day);
    var counts := ValueCounts(hours);
    r := Reindex(counts, HoursPerDay);
    forall h | 0 <= h < HoursPerDay ensures r[h] == OrdersAt(s, day, h) {
      if h !in counts {
        assert h !in hours;
      }
    }
    if forall i :: 0 <= i < |s| ==> 0 <= s[i].hour < HoursPerDay {
      HourSumPrefix(r, s, day, HoursPerDay);
      assert r[..HoursPerDay] == r;
      HourSumIsDayCount(s, day);
    }
    if forall i :: 0 <= i < |s| ==> s[i].day != day {
      NoOrdersOnDay(s, day);
    }
  }

  /** The sum of OrdersAt over the hours 0..n-1. */
  function HourSum(s: seq<Sale>, day: string, n: nat): nat
  {
    if n == 0 then 0 else HourSum(s, day, n - 1) + OrdersAt(s, day, n - 1)
  }

  lemma {:induction false} HourSumPrefix(r: seq<nat>, s: seq<Sale>, day: string, n: nat)
    requires n <= |r|
    requires forall h :: 0 <= h < n ==> r[h] == OrdersAt(s, day, h)
    ensures Sum(r[..n]) == HourSum(s, day, n)
  {
    if n > 0 {
      assert r[..n][..n - 1] == r[..n - 1];
      HourSumPrefix(r, s, day, n - 1);
    }
    if n == |r| {
      assert r[..n] == r;
    }
  }

  lemma {:induction false} HourSumStep(s: seq<Sale>, day: string, n: nat)
    requires |s| > 0
    ensures HourSum(s, day, n)
         == HourSum(s[..|s| - 1], day, n)
            + (if s[|s| - 1].day == day && 0 <= s[|s| - 1].hour < n then 1 else 0)
  {
    if n > 0 {
      HourSumStep(s, day, n - 1);
    }
  }

  lemma {:induction false} HourSumEmpty(s: seq<Sale>, day: string, n: nat)
    requires |s| == 0
    ensures HourSum(s, day, n) == 0
  {
    if n > 0 {
      HourSumEmpty(s, day, n - 1);
    }
  }

  /** With every hour in 0..23, the per-hour counts of a day add up to the day's count. */
  lemma {:induction false} HourSumIsDayCount(s: seq<Sale>, day: string)
    requires forall i :: 0 <= i < |s| ==> 0 <= s[i].hour < HoursPerDay
    ensures HourSum(s, day, HoursPerDay) == OrdersOn(s, day)
  {
    if |s| > 0 {
      var p := s[..|s| - 1];
      assert forall i :: 0 <= i < |p| ==> p[i] == s[i];
      HourSumStep(s, day, HoursPerDay);
      HourSumIsDayCount(p, day);
      assert 0 <= s[|s| - 1].hour < HoursPerDay;
    } else {
      HourSumEmpty(s, day, HoursPerDay);
    }
  }

  /** A weekday without rows has no orders at any hour. */
  lemma {:induction false} NoOrdersOnDay(s: seq<Sale>, day: string)
    requires forall i :: 0 <= i < |s| ==> s[i].day != day
    ensures forall h :: OrdersAt(s, day, h) == 0
  {
    if |s| > 0 {
      NoOrdersOnDay(s[..|s| - 1], day);
    }
  }
}
