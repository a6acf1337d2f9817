/** Insertion-ordered count tables, as Python's `Counter` and `defaultdict(int)`
    keep them, and the stable descending sort behind `Counter.most_common()` and
    `sorted(d.items(), key=lambda x: x[1], reverse=True)`. */
module Counts {

  /** A count table as its `items()`: (key, count) pairs in insertion order. */
  type Assoc<T> = seq<(T, int)>

  predicate DistinctKeys<T(==)>(a: Assoc<T>) {
    forall i, j :: 0 <= i < j < |a| ==> a[i].0 != a[j].0
  }

  function KeySet<T>(a: Assoc<T>): set<T> {
    set p | p in a :: p.0
  }

  function Keys<T>(a: Assoc<T>): (ks: seq<T>)
    ensures |ks| == |a|
    ensures forall k :: 0 <= k < |a| ==> ks[k] == a[k].0
  {
    if a == [] then [] else [a[0].0] + Keys(a[1..])
  }

  /** `d.get(x, 0)`. */
  function Get<T(==)>(a: Assoc<T>, x: T): int {
    if a == [] then 0 else if a[0].0 == x then a[0].1 else Get(a[1..], x)
  }

  /** `d[x] += 1`: bump an existing entry in place, or append `(x, 1)`. */
  function Bump<T(==)>(a: Assoc<T>, x: T): Assoc<T> {
    if a == [] then [(x, 1)]
    else if a[0].0 == x then [(x, a[0].1 + 1)] + a[1..]
    else [a[0]] + Bump(a[1..], x)
  }

  /** Bumping adds exactly one to the bumped key and changes no other count. */
  lemma {:induction false} BumpGet<T>(a: Assoc<T>, x: T, y: T)
    ensures Get(Bump(a, x), y) == Get(a, y) + (if x == y then 1 else 0)
  {
    if a != [] && a[0].0 != x {
      BumpGet(a[1..], x, y);
    }
  }

  /** Bumping only ever adds `x` to the keys. */
  lemma {:induction false} BumpKeySet<T>(a: Assoc<T>, x: T)
    ensures KeySet(Bump(a, x)) == KeySet(a) + {x}
  {
    if a != [] {
      assert KeySet(a) == {a[0].0} + KeySet(a[1..]) by {
        assert a == [a[0]] + a[1..];
      }
      if a[0].0 == x {
        assert KeySet(Bump(a, x)) == {x} + KeySet(a[1..]) by {
          assert Bump(a, x) == [(x, a[0].1 + 1)] + a[1..];
        }
      } else {
        BumpKeySet(a[1..], x);
        assert KeySet(Bump(a, x)) == {a[0].0} + KeySet(Bump(a[1..], x)) by {
          assert Bump(a, x) == [a[0]] + Bump(a[1..], x);
        }
      }
    }
  }

  /** An entry already present stays in its place; a new key goes at the end. */
  lemma {:induction false} BumpKeys<T>(a: Assoc<T>, x: T)
    ensures x in KeySet(a) ==> Keys(Bump(a, x)) == Keys(a)
    ensures x !in KeySet(a) ==> Keys(Bump(a, x)) == Keys(a) + [x]
  {
    if a != [] {
      assert KeySet(a) == {a[0].0} + KeySet(a[1..]) by {
        assert a == [a[0]] + a[1..];
      }
      if a[0].0 != x {
        BumpKeys(a[1..], x);
        assert Keys(Bump(a, x)) == [a[0].0] + Keys(Bump(a[1..], x));
        assert Keys(a) == [a[0].0] + Keys(a[1..]);
      }
    }
  }

  /** Bumping keeps the keys distinct. */
  lemma BumpDistinct<T>(a: Assoc<T>, x: T)
    requires DistinctKeys(a)
    ensures DistinctKeys(Bump(a, x))
  {
    BumpKeys(a, x);
    BumpKeySet(a, x);
    var r := Bump(a, x);
    forall i, j | 0 <= i < j < |r| ensures r[i].0 != r[j].0 {
      assert r[i].0 == Keys(r)[i] && r[j].0 == Keys(r)[j];
      if x in KeySet(a) {
        assert Keys(r)[i] == Keys(a)[i] && Keys(r)[j] == Keys(a)[j];
      } else if j < |a| {
        assert Keys(r)[i] == Keys(a)[i] && Keys(r)[j] == Keys(a)[j];
      } else {
        assert Keys(r)[i] == Keys(a)[i] && r[j].0 == x;
        assert a[i] in a;
      }
    }
  }

  /** Bumping keeps every stored count positive. */
  lemma {:induction false} BumpPositive<T>(a: Assoc<T>, x: T)
    requires forall p :: p in a ==> p.1 >= 1
    ensures forall p :: p in Bump(a, x) ==> p.1 >= 1
  {
    if a != [] && a[0].0 != x {
      BumpPositive(a[1..], x);
    }
  }

  // ---------------------------------------------------------------------------
  // Counter(s)

  /** `Counter(s)`, or a `defaultdict(int)` bumped once per item of `s`, in order. */
  function Tally<T(==)>(s: seq<T>): Assoc<T> {
    if s == [] then [] else Bump(Tally(s[..|s| - 1]), s[|s| - 1])
  }

  /** Counting one more item is one more bump. */
  lemma TallySnoc<T>(s: seq<T>, x: T)
    ensures Tally(s + [x]) == Bump(Tally(s), x)
  {
    assert (s + [x])[..|s|] == s;
  }

  /** Each key's count is its number of occurrences. */
  lemma {:induction false} TallyGet<T>(s: seq<T>, x: T)
    ensures Get(Tally(s), x) == multiset(s)[x]
  {
    if s != [] {
      var init, last := s[..|s| - 1], s[|s| - 1];
      TallyGet(init, x);
      BumpGet(Tally(init), last, x);
      assert s == init + [last];
    }
  }

  /** The keys are distinct and are exactly the items of `s`; every count is
      positive. */
  lemma {:induction false} TallyKeys<T>(s: seq<T>)
    ensures DistinctKeys(Tally(s))
    ensures KeySet(Tally(s)) == set x | x in s
    ensures forall p :: p in Tally(s) ==> p.1 >= 1
  {
    if s != [] {
      var init, last := s[..|s| - 1], s[|s| - 1];
      TallyKeys(init);
      BumpKeySet(Tally(init), last);
      BumpDistinct(Tally(init), last);
      BumpPositive(Tally(init), last);
      assert s == init + [last];
      assert (set x | x in s) == (set x | x in init) + {last};
    }
  }

  /** An entry of a tally carries the count of its key. */
  lemma TallyValue<T>(s: seq<T>, p: (T, int))
    requires p in Tally(s)
    ensures p.0 in s && p.1 == multiset(s)[p.0] && p.1 >= 1
  {
    TallyKeys(s);
    TallyGet(s, p.0);
    var k :| 0 <= k < |Tally(s)| && Tally(s)[k] == p;
    GetDistinct(Tally(s), k);
    assert p.0 in KeySet(Tally(s));
  }

  /** With distinct keys, `get` finds the entry at its position. */
  lemma {:induction false} GetDistinct<T>(a: Assoc<T>, k: nat)
    requires DistinctKeys(a) && k < |a|
    ensures Get(a, a[k].0) == a[k].1
  {
    if k > 0 {
      assert DistinctKeys(a[1..]) by {
        forall i, j | 0 <= i < j < |a[1..]| ensures a[1..][i].0 != a[1..][j].0 {
          assert a[1..][i] == a[i + 1] && a[1..][j] == a[j + 1];
        }
      }
      GetDistinct(a[1..], k - 1);
    }
  }

  /** Index of the first occurrence of `x` in `s`. */
  function FirstIndex<T(==)>(s: seq<T>, x: T): (k: nat)
    requires x in s
    ensures k < |s| && s[k] == x
    ensures forall j :: 0 <= j < k ==> s[j] != x
  {
    if s[0] == x then 0 else 1 + FirstIndex(s[1..], x)
  }

  lemma FirstIndexPrefix<T>(s: seq<T>, t: seq<T>, x: T)
    requires x in s
    ensures x in s + t && FirstIndex(s + t, x) == FirstIndex(s, x)
  {
    var k := FirstIndex(s, x);
    assert (s + t)[k] == x;
    assert forall j :: 0 <= j < |s| ==> (s + t)[j] == s[j];
  }

  /** The keys of `a` appear in order of their first occurrence in `s`. */
  ghost predicate InFirstOccurrenceOrder<T>(a: Assoc<T>, s: seq<T>) {
    forall i, j :: 0 <= i < j < |a| && a[i].0 in s && a[j].0 in s ==>
      FirstIndex(s, a[i].0) < FirstIndex(s, a[j].0)
  }

  /** Insertion order of a tally is first-occurrence order. */
  lemma {:induction false} TallyOrder<T>(s: seq<T>)
    ensures InFirstOccurrenceOrder(Tally(s), s)
  {
    if s != [] {
      var init, last := s[..|s| - 1], s[|s| - 1];
      assert s == init + [last];
      TallyOrder(init);
      TallyKeys(init);
      BumpKeys(Tally(init), last);
      var a, b := Tally(init), Tally(s);
      assert Keys(b) == Keys(a) || Keys(b) == Keys(a) + [last];
      forall i, j | 0 <= i < j < |b| && b[i].0 in s && b[j].0 in s
        ensures FirstIndex(s, b[i].0) < FirstIndex(s, b[j].0)
      {
        assert b[i].0 == Keys(b)[i] && b[j].0 == Keys(b)[j];
        assert b[i].0 in KeySet(a) by {
          assert Keys(b)[i] == Keys(a)[i];
          assert a[i] in a;
        }
        assert b[i].0 in init;
        FirstIndexPrefix(init, [last], b[i].0);
        if j < |a| {
          assert Keys(b)[j] == Keys(a)[j];
          assert a[j] in a;
          assert b[j].0 in init;
          FirstIndexPrefix(init, [last], b[j].0);
        } else {
          assert b[j].0 == last && last !in KeySet(a);
          assert last !in init;
        }
      }
    }
  }

  // ---------------------------------------------------------------------------
  // Stable sort by count, descending

  function Sum<T>(a: Assoc<T>): int {
    if a == [] then 0 else a[0].1 + Sum(a[1..])
  }

  lemma {:induction false} SumBump<T>(a: Assoc<T>, x: T)
    ensures Sum(Bump(a, x)) == Sum(a) + 1
  {
    if a != [] && a[0].0 != x {
      SumBump(a[1..], x);
    }
  }

  /** The counts of a tally add up to the length of the sequence. */
  lemma {:induction false} TallySum<T>(s: seq<T>)
    ensures Sum(Tally(s)) == |s|
  {
    if s != [] {
      TallySum(s[..|s| - 1]);
      SumBump(Tally(s[..|s| - 1]), s[|s| - 1]);
    }
  }

  /** Place `x` before the first entry whose count is not greater than its own. */
  function Insert<T>(x: (T, int), ys: Assoc<T>): Assoc<T> {
    if ys == [] || ys[0].1 <= x.1 then [x] + ys else [ys[0]] + Insert(x, ys[1..])
  }

  /** Insertion sort, descending by count; equal counts keep their order. */
  function SortDesc<T>(a: Assoc<T>): Assoc<T> {
    if a == [] then [] else Insert(a[0], SortDesc(a[1..]))
  }

  ghost predicate NonIncreasing<T>(a: Assoc<T>) {
    forall i, j :: 0 <= i < j < |a| ==> a[i].1 >= a[j].1
  }

  lemma {:induction false} InsertFacts<T>(x: (T, int), ys: Assoc<T>)
    ensures multiset(Insert(x, ys)) == multiset(ys) + multiset{x}
    ensures Sum(Insert(x, ys)) == x.1 + Sum(ys)
    ensures NonIncreasing(ys) ==> NonIncreasing(Insert(x, ys))
  {
    InsertPermutes(x, ys);
    if NonIncreasing(ys) {
      InsertSorted(x, ys);
    }
  }

  lemma {:induction false} InsertPermutes<T>(x: (T, int), ys: Assoc<T>)
    ensures multiset(Insert(x, ys)) == multiset(ys) + multiset{x}
    ensures Sum(Insert(x, ys)) == x.1 + Sum(ys)
  {
    if ys != [] && ys[0].1 > x.1 {
      InsertPermutes(x, ys[1..]);
      assert ys == [ys[0]] + ys[1..];
    }
  }

  lemma {:induction false} InsertSorted<T>(x: (T, int), ys: Assoc<T>)
    requires NonIncreasing(ys)
    ensures NonIncreasing(Insert(x, ys))
  {
    if ys != [] && ys[0].1 > x.1 {
      var rest := ys[1..];
      assert forall k :: 0 <= k < |rest| ==> rest[k] == ys[k + 1];
      InsertSorted(x, rest);
      InsertBounded(x, rest, ys[0].1);
      assert Insert(x, ys) == [ys[0]] + Insert(x, rest);
    }
  }

  /** Inserting below a bound keeps every count below it. */
  lemma {:induction false} InsertBounded<T>(x: (T, int), ys: Assoc<T>, c: int)
    requires x.1 <= c && forall k :: 0 <= k < |ys| ==> ys[k].1 <= c
    ensures forall k :: 0 <= k < |Insert(x, ys)| ==> Insert(x, ys)[k].1 <= c
  {
    if ys != [] && ys[0].1 > x.1 {
      InsertBounded(x, ys[1..], c);
    }
  }

  /** The sort is a permutation, sorted by count descending, with the same total. */
  lemma {:induction false} SortDescFacts<T>(a: Assoc<T>)
    ensures multiset(SortDesc(a)) == multiset(a)
    ensures NonIncreasing(SortDesc(a))
    ensures Sum(SortDesc(a)) == Sum(a)
  {
    if a != [] {
      SortDescFacts(a[1..]);
      InsertFacts(a[0], SortDesc(a[1..]));
      assert a == [a[0]] + a[1..];
    }
  }

  lemma {:induction false} InsertKeys<T>(x: (T, int), ys: Assoc<T>)
    ensures KeySet(Insert(x, ys)) == {x.0} + KeySet(ys)
    ensures x.0 !in KeySet(ys) && DistinctKeys(ys) ==> DistinctKeys(Insert(x, ys))
  {
    if ys != [] {
      assert KeySet(ys) == {ys[0].0} + KeySet(ys[1..]) by {
        assert ys == [ys[0]] + ys[1..];
      }
      if ys[0].1 <= x.1 {
        assert KeySet(Insert(x, ys)) == {x.0} + KeySet(ys) by {
          assert Insert(x, ys) == [x] + ys;
        }
        if x.0 !in KeySet(ys) && DistinctKeys(ys) {
          var r := Insert(x, ys);
          forall i, j | 0 <= i < j < |r| ensures r[i].0 != r[j].0 {
            if i == 0 {
              assert r[j] == ys[j - 1] && ys[j - 1] in ys;
            } else {
              assert r[i] == ys[i - 1] && r[j] == ys[j - 1];
            }
          }
        }
      } else {
        InsertKeys(x, ys[1..]);
        var r := Insert(x, ys);
        assert r == [ys[0]] + Insert(x, ys[1..]);
        assert KeySet(r) == {ys[0].0} + KeySet(Insert(x, ys[1..]));
        if x.0 !in KeySet(ys) && DistinctKeys(ys) {
          assert DistinctKeys(ys[1..]) by {
            forall i, j | 0 <= i < j < |ys[1..]| ensures ys[1..][i].0 != ys[1..][j].0 {
              assert ys[1..][i] == ys[i + 1] && ys[1..][j] == ys[j + 1];
            }
          }
          forall p | p in ys[1..] ensures p.0 != ys[0].0 {
            var m :| 0 <= m < |ys[1..]| && ys[1..][m] == p;
            assert ys[m + 1] == p;
          }
          forall j | 0 < j < |r| ensures r[0].0 != r[j].0 {
            assert r[j] in Insert(x, ys[1..]);
          }
        }
      }
    }
  }

  /** Sorting keeps the set of keys and their distinctness. */
  lemma {:induction false} SortDescKeys<T>(a: Assoc<T>)
    ensures KeySet(SortDesc(a)) == KeySet(a)
    ensures DistinctKeys(a) ==> DistinctKeys(SortDesc(a))
  {
    if a != [] {
      SortDescKeys(a[1..]);
      InsertKeys(a[0], SortDesc(a[1..]));
      assert KeySet(a) == {a[0].0} + KeySet(a[1..]) by {
        assert a == [a[0]] + a[1..];
      }
      if DistinctKeys(a) {
        assert DistinctKeys(a[1..]) by {
          forall i, j | 0 <= i < j < |a[1..]| ensures a[1..][i].0 != a[1..][j].0 {
            assert a[1..][i] == a[i + 1] && a[1..][j] == a[j + 1];
          }
        }
        forall p | p in a[1..] ensures p.0 != a[0].0 {
          var m :| 0 <= m < |a[1..]| && a[1..][m] == p;
          assert a[m + 1] == p;
        }
      }
    }
  }

  /** Ties in `a` ordered by first occurrence in `s`. */
  ghost predicate TiesInFirstOccurrenceOrder<T>(a: Assoc<T>, s: seq<T>) {
    forall i, j :: 0 <= i < j < |a| && a[i].1 == a[j].1 && a[i].0 in s && a[j].0 in s ==>
      FirstIndex(s, a[i].0) < FirstIndex(s, a[j].0)
  }

  lemma {:induction false} InsertStable<T>(x: (T, int), ys: Assoc<T>, s: seq<T>)
    requires x.0 in s
    requires TiesInFirstOccurrenceOrder(ys, s)
    requires forall p :: p in ys && p.0 in s ==> FirstIndex(s, x.0) < FirstIndex(s, p.0)
    ensures TiesInFirstOccurrenceOrder(Insert(x, ys), s)
  {
    if ys != [] && ys[0].1 > x.1 {
      var rest := ys[1..];
      assert forall k :: 0 <= k < |rest| ==> rest[k] == ys[k + 1];
      InsertStable(x, rest, s);
      var tail := Insert(x, rest);
      InsertFrom(x, rest);
      assert Insert(x, ys) == [ys[0]] + tail;
      forall j | 0 <= j < |tail| && ys[0].1 == tail[j].1 && ys[0].0 in s && tail[j].0 in s
        ensures FirstIndex(s, ys[0].0) < FirstIndex(s, tail[j].0)
      {
        var m :| 0 <= m < |rest| && rest[m] == tail[j];
        assert ys[m + 1] == tail[j];
      }
    }
  }

  /** Every entry of `Insert(x, ys)` is `x` or an entry of `ys`. */
  lemma {:induction false} InsertFrom<T>(x: (T, int), ys: Assoc<T>)
    ensures forall k :: 0 <= k < |Insert(x, ys)| ==>
      Insert(x, ys)[k] == x || exists m :: 0 <= m < |ys| && ys[m] == Insert(x, ys)[k]
  {
    if ys != [] && ys[0].1 > x.1 {
      var rest := ys[1..];
      InsertFrom(x, rest);
      var r := Insert(x, ys);
      forall k | 0 <= k < |r| ensures r[k] == x || exists m :: 0 <= m < |ys| && ys[m] == r[k] {
        if k == 0 {
          assert ys[0] == r[k];
        } else if r[k] != x {
          var m :| 0 <= m < |rest| && rest[m] == Insert(x, rest)[k - 1];
          assert ys[m + 1] == r[k];
        }
      }
    }
  }

  /** Stability: if `a` lists its keys in first-occurrence order, equal counts
      stay in that order after sorting. */
  lemma {:induction false} SortDescStable<T>(a: Assoc<T>, s: seq<T>)
    requires forall p :: p in a ==> p.0 in s
    requires InFirstOccurrenceOrder(a, s)
    requires DistinctKeys(a)
    ensures TiesInFirstOccurrenceOrder(SortDesc(a), s)
  {
    if a != [] {
      var rest := a[1..];
      assert InFirstOccurrenceOrder(rest, s) by {
        forall i, j | 0 <= i < j < |rest| && rest[i].0 in s && rest[j].0 in s
          ensures FirstIndex(s, rest[i].0) < FirstIndex(s, rest[j].0)
        {
          assert rest[i] == a[i + 1] && rest[j] == a[j + 1];
        }
      }
      assert DistinctKeys(rest) by {
        forall i, j | 0 <= i < j < |rest| ensures rest[i].0 != rest[j].0 {
          assert rest[i] == a[i + 1] && rest[j] == a[j + 1];
        }
      }
      SortDescStable(rest, s);
      SortDescFacts(rest);
      forall p | p in SortDesc(rest) && p.0 in s
        ensures FirstIndex(s, a[0].0) < FirstIndex(s, p.0)
      {
        assert p in multiset(rest);
        var m :| 0 <= m < |rest| && rest[m] == p;
        assert a[m + 1] == p;
      }
      InsertStable(a[0], SortDesc(rest), s);
    }
  }

  /** With distinct keys, a key's first position among the keys is its own. */
  lemma FirstIndexKeys<T>(a: Assoc<T>, i: nat)
    requires DistinctKeys(a) && i < |a|
    ensures a[i].0 in Keys(a) && FirstIndex(Keys(a), a[i].0) == i
  {
    var ks := Keys(a);
    assert ks[i] == a[i].0;
    var f := FirstIndex(ks, a[i].0);
    assert ks[f] == a[f].0;
  }

  /** `sorted(a.items(), key=count, reverse=True)` keeps entries of equal count
      in their order in `a`. */
  lemma SortDescKeepsTies<T>(a: Assoc<T>)
    requires DistinctKeys(a)
    ensures TiesInFirstOccurrenceOrder(SortDesc(a), Keys(a))
  {
    var ks := Keys(a);
    forall i, j | 0 <= i < j < |a| && a[i].0 in ks && a[j].0 in ks
      ensures FirstIndex(ks, a[i].0) < FirstIndex(ks, a[j].0)
    {
      FirstIndexKeys(a, i);
      FirstIndexKeys(a, j);
    }
    forall p | p in a ensures p.0 in ks {
      var k :| 0 <= k < |a| && a[k] == p;
      assert ks[k] == p.0;
    }
    SortDescStable(a, ks);
  }

  /** `Counter(s).most_common(n)`: the `n` most frequent items, ties in first
      occurrence order. */
  function MostCommon<T(==)>(s: seq<T>, n: nat): Assoc<T> {
    MostCommonOf(Tally(s), n)
  }

  /** `c.most_common(n)` of an already built counter `c`. */
  function MostCommonOf<T>(a: Assoc<T>, n: nat): Assoc<T> {
    var sorted := SortDesc(a);
    if n < |sorted| then sorted[..n] else sorted
  }

  /** The sorted counter of `s`: distinct items of `s` with their counts, by count
      descending with ties in first-occurrence order, every item present. */
  lemma SortedTallyFacts<T>(s: seq<T>)
    ensures var sorted := SortDesc(Tally(s));
      && DistinctKeys(sorted)
      && (forall k :: 0 <= k < |sorted| ==> sorted[k].0 in s && sorted[k].1 == multiset(s)[sorted[k].0])
      && NonIncreasing(sorted)
      && TiesInFirstOccurrenceOrder(sorted, s)
    ensures forall x :: x in s ==> exists m :: 0 <= m < |SortDesc(Tally(s))| && SortDesc(Tally(s))[m].0 == x
  {
    var tally := Tally(s);
    var sorted := SortDesc(tally);
    forall x | x in s ensures exists m :: 0 <= m < |sorted| && sorted[m].0 == x {
      SortedTallyCovers(s, x);
    }
    TallyKeys(s);
    TallyOrder(s);
    SortDescFacts(tally);
    SortDescKeys(tally);
    assert forall p :: p in tally ==> p.0 in s by {
      forall p | p in tally ensures p.0 in s {
        assert p.0 in KeySet(tally);
      }
    }
    SortDescStable(tally, s);
    forall k | 0 <= k < |sorted| ensures sorted[k].0 in s && sorted[k].1 == multiset(s)[sorted[k].0] {
      assert sorted[k] in multiset(tally);
      TallyValue(s, sorted[k]);
    }
  }

  /** Every item of `s` has an entry in its sorted counter. */
  lemma SortedTallyCovers<T>(s: seq<T>, x: T)
    requires x in s
    ensures exists m :: 0 <= m < |SortDesc(Tally(s))| && SortDesc(Tally(s))[m].0 == x
  {
    var tally := Tally(s);
    var sorted := SortDesc(tally);
    TallyKeys(s);
    SortDescFacts(tally);
    assert x in KeySet(tally);
    var p :| p in tally && p.0 == x;
    assert p in multiset(sorted);
    var m :| 0 <= m < |sorted| && sorted[m] == p;
  }

  /** The keys of `most_common(n)`: at most `n` distinct items of `s`, by count
      descending with ties in first-occurrence order; no item left out
      outranks one kept, and a kept item tied with it occurs first in `s`. */
  lemma MostCommonFacts<T>(s: seq<T>, n: nat)
    ensures var ks := Keys(MostCommon(s, n));
      && |ks| <= n
      && (forall i, j :: 0 <= i < j < |ks| ==> ks[i] != ks[j])
      && (forall k :: 0 <= k < |ks| ==> ks[k] in s)
      && (forall i, j :: 0 <= i < j < |ks| ==> multiset(s)[ks[i]] >= multiset(s)[ks[j]])
      && (forall i, j :: 0 <= i < j < |ks| && multiset(s)[ks[i]] == multiset(s)[ks[j]] ==>
            FirstIndex(s, ks[i]) < FirstIndex(s, ks[j]))
      && (forall x :: x in s && x !in ks ==>
            && |ks| == n
            && (forall k :: 0 <= k < |ks| ==> multiset(s)[ks[k]] >= multiset(s)[x])
            && (forall k :: 0 <= k < |ks| && multiset(s)[ks[k]] == multiset(s)[x] ==>
                  FirstIndex(s, ks[k]) < FirstIndex(s, x)))
  {
    MostCommonKept(s, n);
    MostCommonLeftOut(s, n);
  }

  /** `most_common(n)` is the first `n` entries of the sorted counter. */
  lemma MostCommonPrefix<T>(s: seq<T>, n: nat)
    ensures var mc, sorted := MostCommon(s, n), SortDesc(Tally(s));
      && |mc| <= n && |mc| <= |sorted|
      && (|mc| < n ==> |mc| == |sorted|)
      && forall k :: 0 <= k < |mc| ==> mc[k] == sorted[k]
  {
  }

  /** The kept items: at most `n`, distinct, by count with ties in
      first-occurrence order. */
  lemma MostCommonKept<T>(s: seq<T>, n: nat)
    ensures var ks := Keys(MostCommon(s, n));
      && |ks| <= n
      && (forall i, j :: 0 <= i < j < |ks| ==> ks[i] != ks[j])
      && (forall k :: 0 <= k < |ks| ==> ks[k] in s)
      && (forall i, j :: 0 <= i < j < |ks| ==> multiset(s)[ks[i]] >= multiset(s)[ks[j]])
      && (forall i, j :: 0 <= i < j < |ks| && multiset(s)[ks[i]] == multiset(s)[ks[j]] ==>
            FirstIndex(s, ks[i]) < FirstIndex(s, ks[j]))
  {
    var sorted := SortDesc(Tally(s));
    var ks := Keys(MostCommon(s, n));
    SortedTallyFacts(s);
    MostCommonPrefix(s, n);
    forall k | 0 <= k < |ks| ensures ks[k] == sorted[k].0 && ks[k] in s && multiset(s)[ks[k]] == sorted[k].1 {
    }
    forall i, j | 0 <= i < j < |ks| ensures ks[i] != ks[j] && multiset(s)[ks[i]] >= multiset(s)[ks[j]] {
    }
  }

  /** An item `most_common(n)` leaves out is outranked by every kept one, and
      a kept item tied with it occurs first in `s`. */
  lemma MostCommonLeftOut<T>(s: seq<T>, n: nat)
    ensures var ks := Keys(MostCommon(s, n));
      forall x :: x in s && x !in ks ==>
        && |ks| == n
        && (forall k :: 0 <= k < |ks| ==> multiset(s)[ks[k]] >= multiset(s)[x])
        && (forall k :: 0 <= k < |ks| && multiset(s)[ks[k]] == multiset(s)[x] ==>
              FirstIndex(s, ks[k]) < FirstIndex(s, x))
  {
    var sorted := SortDesc(Tally(s));
    var ks := Keys(MostCommon(s, n));
    SortedTallyFacts(s);
    MostCommonPrefix(s, n);
    assert forall k :: 0 <= k < |ks| ==> ks[k] == sorted[k].0;
    forall x | x in s && x !in ks
      ensures && |ks| == n
              && (forall k :: 0 <= k < |ks| ==> multiset(s)[ks[k]] >= multiset(s)[x])
              && (forall k :: 0 <= k < |ks| && multiset(s)[ks[k]] == multiset(s)[x] ==>
                    FirstIndex(s, ks[k]) < FirstIndex(s, x))
    {
      SortedTallyCovers(s, x);
      var m :| 0 <= m < |sorted| && sorted[m].0 == x;
      assert m >= |ks|;
      forall k | 0 <= k < |ks|
        ensures multiset(s)[ks[k]] >= multiset(s)[x]
        ensures multiset(s)[ks[k]] == multiset(s)[x] ==> FirstIndex(s, ks[k]) < FirstIndex(s, x)
      {
        assert sorted[k].1 >= sorted[m].1;
        assert sorted[k].0 in s && sorted[m].0 in s;
      }
    }
  }
}
