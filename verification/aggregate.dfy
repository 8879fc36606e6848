/**
 * The group-by/sum machinery shared by every view of the dashboard: a
 * table is a sequence of rows, a key function picks the grouping column
 * and a measure function the summed column.
 */
module Aggregate {

  /** One row of a group-by result: a key and the sum of the measure over its rows. */
  datatype Group<K> = Group(key: K, total: int)

  function Min(a: int, b: int): int { if a <= b then a else b }

  function Max(a: int, b: int): int { if a >= b then a else b }

  /**
   * The sum of a sequence of integers: `Total` of a plain column, with no
   * row type to measure (see `SumIsTotal`).
   */
  function Sum(xs: seq<int>): int
  {
    if |xs| == 0 then 0 else Sum(xs[..|xs| - 1]) + xs[|xs| - 1]
  }

  /** The sum of the measure `m` over every row of `s`. */
  function Total<T>(s: seq<T>, m: T -> int): int
  {
    if |s| == 0 then 0 else Total(s[..|s| - 1], m) + m(s[|s| - 1])
  }

  /**
   * The sum of the measure `m` over the rows of `s` whose key is `k`: the
   * reference total of one group, `TotalWhere` for the filter "equals `k`"
   * (see `KeyTotalIsTotalWhere`).
   */
  function KeyTotal<T, K(==)>(s: seq<T>, key: T -> K, k: K, m: T -> int): int
  {
    if |s| == 0 then 0
    else KeyTotal(s[..|s| - 1], key, k, m) + (if key(s[|s| - 1]) == k then m(s[|s| - 1]) else 0)
  }

  /** The sum of the measure `m` over the rows of `s` whose key satisfies `keep`. */
  function TotalWhere<T, K>(s: seq<T>, key: T -> K, keep: K -> bool, m: T -> int): int
  {
    if |s| == 0 then 0
    else TotalWhere(s[..|s| - 1], key, keep, m) + (if keep(key(s[|s| - 1])) then m(s[|s| - 1]) else 0)
  }

  lemma {:induction false} SumIsTotal(xs: seq<int>)
    ensures Sum(xs) == Total(xs, x => x)
  {
    if |xs| > 0 {
      SumIsTotal(xs[..|xs| - 1]);
    }
  }

  lemma {:induction false} KeyTotalIsTotalWhere<T, K>(s: seq<T>, key: T -> K, k: K, m: T -> int)
    ensures KeyTotal(s, key, k, m) == TotalWhere(s, key, k' => k' == k, m)
  {
    if |s| > 0 {
      KeyTotalIsTotalWhere(s[..|s| - 1], key, k, m);
    }
  }

  /** The set of keys that occur in `s`. */
  function KeysOf<T, K>(s: seq<T>, key: T -> K): set<K>
  {
    set i | 0 <= i < |s| :: key(s[i])
  }

  /** Appending a row adds its key to the keys of the table. */
  lemma KeysOfSnoc<T, K>(s: seq<T>, key: T -> K)
    requires |s| > 0
    ensures KeysOf(s, key) == KeysOf(s[..|s| - 1], key) + {key(s[|s| - 1])}
  {
    var p := s[..|s| - 1];
    forall k | k in KeysOf(s, key) ensures k in KeysOf(p, key) + {key(s[|s| - 1])} {
      var i :| 0 <= i < |s| && key(s[i]) == k;
      if i < |p| {
        assert p[i] == s[i];
      }
    }
    forall k | k in KeysOf(p, key) ensures k in KeysOf(s, key) {
      var i :| 0 <= i < |p| && key(p[i]) == k;
      assert s[i] == p[i];
    }
  }

  predicate HasKey<K(==)>(g: seq<Group<K>>, k: K)
  {
    exists i :: 0 <= i < |g| && g[i].key == k
  }

  /** No key is listed twice. */
  predicate DistinctKeys<K(==)>(g: seq<Group<K>>)
  {
    forall i, j :: 0 <= i < j < |g| ==> g[i].key != g[j].key
  }

  /** The sum of the totals of a group-by result. */
  function GroupSum<K>(g: seq<Group<K>>): int
  {
    if |g| == 0 then 0 else GroupSum(g[..|g| - 1]) + g[|g| - 1].total
  }

  /** The sum of the totals of the groups whose key satisfies `keep`. */
  function GroupSumWhere<K>(g: seq<Group<K>>, keep: K -> bool): int
  {
    if |g| == 0 then 0
    else GroupSumWhere(g[..|g| - 1], keep) + (if keep(g[|g| - 1].key) then g[|g| - 1].total else 0)
  }

  /** Adds `v` to the total of the group keyed `k`. */
  function Bump<K(==)>(g: seq<Group<K>>, k: K, v: int): seq<Group<K>>
  {
    seq(|g|, i requires 0 <= i < |g| => if g[i].key == k then Group(k, g[i].total + v) else g[i])
  }

  /**
   * `g` is the group-by of `s` on `key` summing `m`: every key of `s` is
   * listed exactly once, no other key is listed, and each total is the
   * sum of the measure over the rows with that key. (That `g` then has one
   * entry per distinct key is `GroupTotalsCount`.)
   */
  ghost predicate IsGrouping<T, K(!new)>(g: seq<Group<K>>, s: seq<T>, key: T -> K, m: T -> int)
  {
    && DistinctKeys(g)
    && (forall k :: HasKey(g, k) <==> k in KeysOf(s, key))
    && (forall i :: 0 <= i < |g| ==> g[i].total == KeyTotal(s, key, g[i].key, m))
  }

  /** Accounts one row with key `k` and measure `v` into the groups `g`. */
  function GroupStep<K(==)>(g: seq<Group<K>>, k: K, v: int): seq<Group<K>>
  {
    if HasKey(g, k) then Bump(g, k, v) else g + [Group(k, v)]
  }

  /**
   * Single-pass group-by with a sum: each row either adds its measure to
   * the group of its key or opens a new group at the end, so groups come
   * in order of first appearance.
   */
  function GroupTotals<T, K(==, !new)>(s: seq<T>, key: T -> K, m: T -> int): (g: seq<Group<K>>)
    ensures IsGrouping(g, s, key, m)
  {
    if |s| == 0 then []
    else
      var g := GroupTotals(s[..|s| - 1], key, m);
      GroupStepKeepsGrouping(s, key, m, g);
      GroupStep(g, key(s[|s| - 1]), m(s[|s| - 1]))
  }

  lemma GroupStepKeepsGrouping<T, K(!new)>(s: seq<T>, key: T -> K, m: T -> int, g: seq<Group<K>>)
    requires |s| > 0
    requires IsGrouping(g, s[..|s| - 1], key, m)
    ensures IsGrouping(GroupStep(g, key(s[|s| - 1]), m(s[|s| - 1])), s, key, m)
  {
    if HasKey(g, key(s[|s| - 1])) {
      BumpKeepsGrouping(s, key, m, g);
    } else {
      AppendKeepsGrouping(s, key, m, g);
    }
  }

  lemma BumpKeepsGrouping<T, K(!new)>(s: seq<T>, key: T -> K, m: T -> int, g: seq<Group<K>>)
    requires |s| > 0
    requires IsGrouping(g, s[..|s| - 1], key, m)
    requires HasKey(g, key(s[|s| - 1]))
    ensures IsGrouping(Bump(g, key(s[|s| - 1]), m(s[|s| - 1])), s, key, m)
  {
    var p := s[..|s| - 1];
    var kx := key(s[|s| - 1]);
    var r := Bump(g, kx, m(s[|s| - 1]));
    KeysOfSnoc(s, key);
    assert KeysOf(s, key) == KeysOf(p, key);
    assert forall i :: 0 <= i < |g| ==> r[i].key == g[i].key;
    assert DistinctKeys(r);
    forall k ensures HasKey(r, k) <==> HasKey(g, k) {
      if HasKey(g, k) {
        var i :| 0 <= i < |g| && g[i].key == k;
        assert r[i].key == k;
      }
      if HasKey(r, k) {
        var i :| 0 <= i < |r| && r[i].key == k;
        assert g[i].key == k;
      }
    }
    forall i | 0 <= i < |r| ensures r[i].total == KeyTotal(s, key, r[i].key, m) {
      assert KeyTotal(s, key, g[i].key, m)
          == KeyTotal(p, key, g[i].key, m) + (if kx == g[i].key then m(s[|s| - 1]) else 0);
    }
  }

  lemma AppendKeepsGrouping<T, K(!new)>(s: seq<T>, key: T -> K, m: T -> int, g: seq<Group<K>>)
    requires |s| > 0
    requires IsGrouping(g, s[..|s| - 1], key, m)
    requires !HasKey(g, key(s[|s| - 1]))
    ensures IsGrouping(g + [Group(key(s[|s| - 1]), m(s[|s| - 1]))], s, key, m)
  {
    var p := s[..|s| - 1];
    var kx := key(s[|s| - 1]);
    var r := g + [Group(kx, m(s[|s| - 1]))];
    KeysOfSnoc(s, key);
    AppendKeepsDistinct(g, kx, m(s[|s| - 1]));
    AppendHasKey(g, kx, m(s[|s| - 1]));
    KeyTotalAbsent(p, key, kx, m);
    forall i | 0 <= i < |r| ensures r[i].total == KeyTotal(s, key, r[i].key, m) {
      if i < |g| {
        assert g[i].key != kx by { assert HasKey(g, g[i].key); }
      }
    }
  }

  lemma AppendKeepsDistinct<K>(g: seq<Group<K>>, k: K, v: int)
    requires DistinctKeys(g) && !HasKey(g, k)
    ensures DistinctKeys(g + [Group(k, v)])
  {
    forall i | 0 <= i < |g| ensures g[i].key != k {
      assert HasKey(g, g[i].key);
    }
  }

  lemma AppendHasKey<K>(g: seq<Group<K>>, kx: K, v: int)
    ensures forall k :: HasKey(g + [Group(kx, v)], k) <==> HasKey(g, k) || k == kx
  {
    var r := g + [Group(kx, v)];
    forall k ensures HasKey(r, k) <==> HasKey(g, k) || k == kx {
      if HasKey(g, k) {
        var i :| 0 <= i < |g| && g[i].key == k;
        assert r[i].key == k;
      }
      if HasKey(r, k) && k != kx {
        var i :| 0 <= i < |r| && r[i].key == k;
        assert g[i].key == k;
      }
      if k == kx {
        assert r[|g|].key == k;
      }
    }
  }

  /** The group-by has exactly one entry per distinct key of the table. */
  lemma {:induction false} GroupTotalsCount<T, K(!new)>(s: seq<T>, key: T -> K, m: T -> int)
    ensures |GroupTotals(s, key, m)| == |KeysOf(s, key)|
  {
    if |s| > 0 {
      var p := s[..|s| - 1];
      var kx := key(s[|s| - 1]);
      var g := GroupTotals(p, key, m);
      GroupTotalsCount(p, key, m);
      assert GroupTotals(s, key, m) == GroupStep(g, kx, m(s[|s| - 1]));
      KeysOfSnoc(s, key);
      AddOneCount(KeysOf(p, key), kx, HasKey(g, kx));
    }
  }

  lemma AddOneCount<K>(a: set<K>, x: K, present: bool)
    requires present <==> x in a
    ensures |a + {x}| == |a| + (if present then 0 else 1)
  {
    if present {
      assert a + {x} == a;
    }
  }

  /** A key that never occurs accumulates nothing. */
  lemma {:induction false} KeyTotalAbsent<T, K>(s: seq<T>, key: T -> K, k: K, m: T -> int)
    requires k !in KeysOf(s, key)
    ensures KeyTotal(s, key, k, m) == 0
  {
    if |s| > 0 {
      KeyTotalAbsent(s[..|s| - 1], key, k, m);
    }
  }

  lemma {:induction false} GroupSumWhereBump<K>(g: seq<Group<K>>, k: K, v: int, keep: K -> bool)
    requires DistinctKeys(g)
    ensures GroupSumWhere(Bump(g, k, v), keep)
         == GroupSumWhere(g, keep) + (if HasKey(g, k) && keep(k) then v else 0)
  {
    if |g| > 0 {
      var p := g[..|g| - 1];
      assert Bump(g, k, v)[..|g| - 1] == Bump(p, k, v);
      GroupSumWhereBump(p, k, v, keep);
      if g[|g| - 1].key == k {
        assert !HasKey(p, k);
      } else {
        assert HasKey(g, k) ==> HasKey(p, k);
      }
    }
  }

  /**
   * Summing the groups whose key passes `keep` gives the same as summing
   * the rows whose key passes `keep`: grouping neither loses nor invents
   * any part of the measure.
   */
  lemma {:induction false} GroupTotalsPreserveSum<T, K(!new)>(s: seq<T>, key: T -> K, m: T -> int, keep: K -> bool)
    ensures GroupSumWhere(GroupTotals(s, key, m), keep) == TotalWhere(s, key, keep, m)
  {
    if |s| > 0 {
      var p := s[..|s| - 1];
      var x := s[|s| - 1];
      var g := GroupTotals(p, key, m);
      GroupTotalsPreserveSum(p, key, m, keep);
      if HasKey(g, key(x)) {
        GroupSumWhereBump(g, key(x), m(x), keep);
      } else {
        assert (g + [Group(key(x), m(x))])[..|g|] == g;
      }
    }
  }

  lemma {:induction false} GroupSumWhereAll<K>(g: seq<Group<K>>)
    ensures GroupSumWhere(g, _ => true) == GroupSum(g)
  {
    if |g| > 0 {
      GroupSumWhereAll(g[..|g| - 1]);
    }
  }

  lemma {:induction false} TotalWhereAll<T, K>(s: seq<T>, key: T -> K, m: T -> int)
    ensures TotalWhere(s, key, _ => true, m) == Total(s, m)
  {
    if |s| > 0 {
      TotalWhereAll(s[..|s| - 1], key, m);
    }
  }

  /** The group totals of a table add up to the table's total. */
  lemma GroupTotalsSum<T, K(!new)>(s: seq<T>, key: T -> K, m: T -> int)
    ensures GroupSum(GroupTotals(s, key, m)) == Total(s, m)
  {
    GroupTotalsPreserveSum(s, key, m, _ => true);
    GroupSumWhereAll(GroupTotals(s, key, m));
    TotalWhereAll(s, key, m);
  }
}
