/**
 * The top and bottom product rankings: group the rows by product, sum a
 * measure, and keep the n largest or the n smallest sums. Ties are broken
 * by first appearance of the product in the table (a stable sort); n at
 * or below zero keeps nothing.
 */
module Ranking {
  import opened Aggregate
  import opened Sales

  datatype Direction = Largest | Smallest

  /** A total of `a` may be listed before one of `b`. */
  predicate Precedes(dir: Direction, a: int, b: int)
  {
    match dir
    case Largest => a >= b
    case Smallest => a <= b
  }

  /** Totals are non-increasing (Largest) or non-decreasing (Smallest). */
  predicate Ordered<K>(dir: Direction, g: seq<Group<K>>)
  {
    forall i, j :: 0 <= i < j < |g| ==> Precedes(dir, g[i].total, g[j].total)
  }

  /** Inserts `x` after every entry that may precede it. */
  function Insert<K>(dir: Direction, x: Group<K>, st: seq<Group<K>>): (r: seq<Group<K>>)
    requires Ordered(dir, st)
    ensures Ordered(dir, r)
    ensures multiset(r) == multiset(st) + multiset{x}
    decreases |st|
  {
    if |st| == 0 then [x]
    else if Precedes(dir, st[0].total, x.total) then
      var rest := Insert(dir, x, st[1..]);
      InsertBehindHead(dir, x, st, rest);
      [st[0]] + rest
    else
      [x] + st
  }

  lemma InsertBehindHead<K>(dir: Direction, x: Group<K>, st: seq<Group<K>>, rest: seq<Group<K>>)
    requires |st| > 0 && Ordered(dir, st) && Precedes(dir, st[0].total, x.total)
    requires Ordered(dir, rest) && multiset(rest) == multiset(st[1..]) + multiset{x}
    ensures Ordered(dir, [st[0]] + rest)
    ensures multiset([st[0]] + rest) == multiset(st) + multiset{x}
  {
    assert st == [st[0]] + st[1..];
    forall j | 0 <= j < |rest| ensures Precedes(dir, st[0].total, rest[j].total) {
      assert rest[j] in multiset(rest);
      if rest[j] != x {
        assert rest[j] in multiset(st[1..]);
        var k :| 0 <= k < |st[1..]| && st[1..][k] == rest[j];
        assert st[k + 1] == rest[j];
      }
    }
  }

  /** Inserting an entry with a new key keeps the keys distinct. */
  lemma {:induction false} InsertKeepsDistinct<K(!new)>(dir: Direction, x: Group<K>, st: seq<Group<K>>)
    requires Ordered(dir, st) && DistinctKeys(st) && !HasKey(st, x.key)
    ensures DistinctKeys(Insert(dir, x, st))
    decreases |st|
  {
    if |st| > 0 && Precedes(dir, st[0].total, x.total) {
      var tail := st[1..];
      assert !HasKey(tail, x.key);
      InsertKeepsDistinct(dir, x, tail);
      var rest := Insert(dir, x, tail);
      forall j | 0 <= j < |rest| ensures rest[j].key != st[0].key {
        assert rest[j] in multiset(rest);
        if rest[j] != x {
          assert rest[j] in multiset(tail);
          var k :| 0 <= k < |tail| && tail[k] == rest[j];
          assert st[k + 1] == rest[j];
        } else {
          assert st[0].key != x.key by { assert !HasKey(st, x.key); }
        }
      }
    }
  }

  /** Stable insertion sort by total in direction `dir`. */
  function Sort<K(==)>(dir: Direction, g: seq<Group<K>>): (r: seq<Group<K>>)
    ensures Ordered(dir, r)
  {
    if |g| == 0 then []
    else Insert(dir, g[|g| - 1], Sort(dir, g[..|g| - 1]))
  }

  /** Sorting only reorders: the result is a permutation of its input. */
  lemma {:induction false} SortPermutes<K>(dir: Direction, g: seq<Group<K>>)
    ensures multiset(Sort(dir, g)) == multiset(g)
  {
    if |g| > 0 {
      SortPermutes(dir, g[..|g| - 1]);
      assert g == g[..|g| - 1] + [g[|g| - 1]];
    }
  }

  /** Sorting keeps the entries and their number. */
  lemma SortKeepsEntries<K(!new)>(dir: Direction, g: seq<Group<K>>)
    ensures |Sort(dir, g)| == |g|
    ensures forall y :: y in Sort(dir, g) <==> y in g
  {
    var r := Sort(dir, g);
    SortPermutes(dir, g);
    assert |r| == |multiset(r)| == |multiset(g)| == |g|;
    forall y ensures y in r <==> y in g {
      assert y in r <==> y in multiset(r);
      assert y in g <==> y in multiset(g);
    }
  }

  /** Sorting a group-by result keeps its keys distinct. */
  lemma {:induction false} SortKeepsDistinct<K(!new)>(dir: Direction, g: seq<Group<K>>)
    requires DistinctKeys(g)
    ensures DistinctKeys(Sort(dir, g))
  {
    if |g| > 0 {
      var p := g[..|g| - 1];
      var x := g[|g| - 1];
      var sp := Sort(dir, p);
      SortKeepsEntries(dir, p);
      SortKeepsDistinct(dir, p);
      forall i | 0 <= i < |sp| ensures sp[i].key != x.key {
        assert sp[i] in p;
        var j :| 0 <= j < |p| && p[j] == sp[i];
        assert g[j] == sp[i];
      }
      InsertKeepsDistinct(dir, x, sp);
    }
  }

  /** The per-product totals of the measure `m`, one group per product. */
  function ProductTotals(s: seq<Sale>, m: Sale -> int): (g: seq<Group<string>>)
    ensures IsGrouping(g, s, ProductOf, m)
  {
    GroupTotals(s, ProductOf, m)
  }

  /**
   * The n products with the largest (or smallest) total of `m`, best
   * first. There are min(n, number of products) of them, each with its
   * true total, each product at most once, and no product left out has a
   * total that should have ranked before a selected one.
   */
  function Rank(s: seq<Sale>, m: Sale -> int, n: int, dir: Direction): (r: seq<Group<string>>)
    ensures |r| == Min(Max(n, 0), |KeysOf(s, ProductOf)|)
    ensures Ordered(dir, r)
    ensures DistinctKeys(r)
    ensures forall i :: 0 <= i < |r| ==>
              r[i].key in KeysOf(s, ProductOf) && r[i].total == KeyTotal(s, ProductOf, r[i].key, m)
    ensures forall p, i :: p in KeysOf(s, ProductOf) && !HasKey(r, p) && 0 <= i < |r| ==>
              Precedes(dir, r[i].total, KeyTotal(s, ProductOf, p, m))
  {
    var g := ProductTotals(s, m);
    var st := Sort(dir, g);
    SortKeepsEntries(dir, g);
    SortKeepsDistinct(dir, g);
    GroupTotalsCount(s, ProductOf, m);
    var r := st[..Min(Max(n, 0), |st|)];
    RankFacts(dir, s, m, g, st, r);
    r
  }

  lemma RankFacts(dir: Direction, s: seq<Sale>, m: Sale -> int, g: seq<Group<string>>,
                   st: seq<Group<string>>, r: seq<Group<string>>)
    requires IsGrouping(g, s, ProductOf, m)
    requires Ordered(dir, st) && DistinctKeys(st) && forall y :: y in st <==> y in g
    requires |r| <= |st| && r == st[..|r|]
    ensures DistinctKeys(r)
    ensures forall i :: 0 <= i < |r| ==>
              r[i].key in KeysOf(s, ProductOf) && r[i].total == KeyTotal(s, ProductOf, r[i].key, m)
    ensures forall p, i :: p in KeysOf(s, ProductOf) && !HasKey(r, p) && 0 <= i < |r| ==>
              Precedes(dir, r[i].total, KeyTotal(s, ProductOf, p, m))
  {
    forall i | 0 <= i < |r|
      ensures r[i].key in KeysOf(s, ProductOf) && r[i].total == KeyTotal(s, ProductOf, r[i].key, m)
    {
      assert r[i] == st[i];
      assert st[i] in g;
      var j :| 0 <= j < |g| && g[j] == st[i];
      assert HasKey(g, g[j].key);
    }
    forall p, i | p in KeysOf(s, ProductOf) && !HasKey(r, p) && 0 <= i < |r|
      ensures Precedes(dir, r[i].total, KeyTotal(s, ProductOf, p, m))
    {
      assert HasKey(g, p);
      var j :| 0 <= j < |g| && g[j].key == p;
      assert g[j] in st;
      var k :| 0 <= k < |st| && st[k] == g[j];
      assert r[i] == st[i];
    }
  }

  /** The measure with its sign flipped. */
  function Negated<T>(m: T -> int): T -> int
  {
    x => -m(x)
  }

  function NegateGroup<K>(e: Group<K>): Group<K>
  {
    Group(e.key, -e.total)
  }

  /** The groups with their totals' signs flipped. */
  function Negate<K>(g: seq<Group<K>>): (r: seq<Group<K>>)
    ensures |r| == |g|
  {
    seq(|g|, i requires 0 <= i < |g| => NegateGroup(g[i]))
  }

  lemma OrderedNegate<K>(g: seq<Group<K>>)
    requires Ordered(Smallest, g)
    ensures Ordered(Largest, Negate(g))
  {
  }

  lemma {:induction false} InsertNegate<K>(x: Group<K>, st: seq<Group<K>>)
    requires Ordered(Smallest, st)
    ensures Ordered(Largest, Negate(st))
    ensures Negate(Insert(Smallest, x, st)) == Insert(Largest, NegateGroup(x), Negate(st))
    decreases |st|
  {
    OrderedNegate(st);
    if |st| > 0 {
      var nst := Negate(st);
      assert nst[0] == NegateGroup(st[0]);
      assert nst[1..] == Negate(st[1..]);
      if Precedes(Smallest, st[0].total, x.total) {
        InsertNegate(x, st[1..]);
        assert Negate([st[0]] + Insert(Smallest, x, st[1..]))
            == [NegateGroup(st[0])] + Negate(Insert(Smallest, x, st[1..]));
      } else {
        assert Negate([x] + st) == [NegateGroup(x)] + nst;
      }
    } else {
      assert Negate([x]) == [NegateGroup(x)];
    }
  }

  lemma {:induction false} SortNegate<K>(g: seq<Group<K>>)
    ensures Negate(Sort(Smallest, g)) == Sort(Largest, Negate(g))
  {
    if |g| > 0 {
      var p := g[..|g| - 1];
      SortNegate(p);
      InsertNegate(g[|g| - 1], Sort(Smallest, p));
      assert Negate(g)[..|g| - 1] == Negate(p);
    }
  }

  lemma NegateKeys<K>(g: seq<Group<K>>, k: K)
    ensures HasKey(Negate(g), k) <==> HasKey(g, k)
  {
    if HasKey(g, k) {
      var i :| 0 <= i < |g| && g[i].key == k;
      assert Negate(g)[i].key == k;
    }
  }

  lemma NegateStep<K>(g: seq<Group<K>>, k: K, v: int)
    ensures Negate(GroupStep(g, k, v)) == GroupStep(Negate(g), k, -v)
  {
    NegateKeys(g, k);
    if HasKey(g, k) {
      assert Negate(Bump(g, k, v)) == Bump(Negate(g), k, -v);
    } else {
      assert Negate(g + [Group(k, v)]) == Negate(g) + [Group(k, -v)];
    }
  }

  lemma GroupTotalsUnfold<T, K(!new)>(s: seq<T>, key: T -> K, m: T -> int)
    requires |s| > 0
    ensures GroupTotals(s, key, m) == GroupStep(GroupTotals(s[..|s| - 1], key, m), key(s[|s| - 1]), m(s[|s| - 1]))
  {
  }

  lemma {:induction false} GroupTotalsNegate<T, K(!new)>(s: seq<T>, key: T -> K, m: T -> int)
    ensures Negate(GroupTotals(s, key, m)) == GroupTotals(s, key, Negated(m))
  {
    if |s| > 0 {
      var p := s[..|s| - 1];
      var x := s[|s| - 1];
      var a := GroupTotals(p, key, m);
      var b := GroupTotals(p, key, Negated(m));
      GroupTotalsNegate(p, key, m);
      GroupTotalsUnfold(s, key, m);
      GroupTotalsUnfold(s, key, Negated(m));
      NegateStepChain(a, b, GroupTotals(s, key, m), GroupTotals(s, key, Negated(m)), key(x), m(x), Negated(m)(x));
    }
  }

  lemma NegateStepChain<K>(a: seq<Group<K>>, b: seq<Group<K>>, ga: seq<Group<K>>, gb: seq<Group<K>>, k: K, v: int, v': int)
    requires Negate(a) == b && v' == -v
    requires ga == GroupStep(a, k, v) && gb == GroupStep(b, k, v')
    ensures Negate(ga) == gb
  {
    NegateStep(a, k, v);
  }

  /**
   * The bottom ranking is the top ranking of the negated measure, with
   * signs flipped back: the two directions are one ranking, mirrored.
   */
  lemma BottomIsNegatedTop(s: seq<Sale>, m: Sale -> int, n: int)
    ensures Negate(Rank(s, m, n, Smallest)) == Rank(s, Negated(m), n, Largest)
  {
    var g := ProductTotals(s, m);
    var h := ProductTotals(s, Negated(m));
    GroupTotalsNegate(s, ProductOf, m);
    SortNegate(g);
    RankUnfold(s, m, n, Smallest);
    RankUnfold(s, Negated(m), n, Largest);
    NegateTake(Sort(Smallest, g), Sort(Largest, h), Min(Max(n, 0), |Sort(Smallest, g)|));
  }

  lemma RankUnfold(s: seq<Sale>, m: Sale -> int, n: int, dir: Direction)
    ensures Rank(s, m, n, dir) == Sort(dir, ProductTotals(s, m))[..Min(Max(n, 0), |Sort(dir, ProductTotals(s, m))|)]
  {
  }

  lemma NegateTake<K>(a: seq<Group<K>>, b: seq<Group<K>>, k: int)
    requires Negate(a) == b && 0 <= k <= |a|
    ensures Negate(a[..k]) == b[..k]
  {
  }

  /** The "Top Sellers" view: the n products with the most units ordered. */
  function TopSellers(s: seq<Sale>, n: int): (r: seq<Group<string>>)
    ensures |r| == Min(Max(n, 0), |KeysOf(s, ProductOf)|)
    ensures Ordered(Largest, r)
    ensures DistinctKeys(r)
    ensures forall i :: 0 <= i < |r| ==>
              r[i].key in KeysOf(s, ProductOf) && r[i].total == KeyTotal(s, ProductOf, r[i].key, QuantityOf)
    ensures forall p, i :: p in KeysOf(s, ProductOf) && !HasKey(r, p) && 0 <= i < |r| ==>
              Precedes(Largest, r[i].total, KeyTotal(s, ProductOf, p, QuantityOf))
  {
    Rank(s, QuantityOf, n, Largest)
  }

  /** The "Lowest Sellers" view: the n products with the fewest units ordered. */
  function LowestSellers(s: seq<Sale>, n: int): (r: seq<Group<string>>)
    ensures |r| == Min(Max(n, 0), |KeysOf(s, ProductOf)|)
    ensures Ordered(Smallest, r)
    ensures DistinctKeys(r)
    ensures forall i :: 0 <= i < |r| ==>
              r[i].key in KeysOf(s, ProductOf) && r[i].total == KeyTotal(s, ProductOf, r[i].key, QuantityOf)
    ensures forall p, i :: p in KeysOf(s, ProductOf) && !HasKey(r, p) && 0 <= i < |r| ==>
              Precedes(Smallest, r[i].total, KeyTotal(s, ProductOf, p, QuantityOf))
  {
    Rank(s, QuantityOf, n, Smallest)
  }
}
