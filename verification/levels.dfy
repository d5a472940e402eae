/**
 * The level-wise search of the Apriori miner as specification functions:
 * frequent 1-itemsets, the level-2 cross join, the support filter, the
 * prefix join that builds level k+1 from level k. The whole search is
 * in module Mining; the class AprioriAlgorithm is proved against these.
 */
module Levels {
  import opened Itemsets

  // ---------------------------------------------------------------------
  // Level 1: the frequent items, in the ascending key order of std::map
  // ---------------------------------------------------------------------

  /** A non-empty set has an element. */
  lemma SomeElement(s: set<int>)
    requires s != {}
    ensures exists x :: x in s
  {
    if forall x :: x !in s {
      assert false;
    }
  }

  /** A finite non-empty set of integers has a least element. */
  lemma {:induction false} MinExists(s: set<int>)
    requires s != {}
    ensures exists m :: m in s && forall y :: y in s ==> m <= y
  {
    SomeElement(s);
    var x :| x in s;
    var s' := s - {x};
    if s' == {} {
      forall y | y in s ensures x <= y {
        assert y != x ==> y in s';
      }
    } else {
      MinExists(s');
      var m :| m in s' && forall y :: y in s' ==> m <= y;
      var least := if x < m then x else m;
      forall y | y in s ensures least <= y {
        if y != x { assert y in s'; }
      }
      assert least in s;
    }
  }

  /** The elements of a set in ascending order, as an in-order walk of a std::map visits its keys. */
  function Ascending(s: set<int>): (r: seq<int>)
    ensures StrictlyAscending(r)
    ensures forall x :: x in r <==> x in s
    ensures |r| == |s|
    decreases s
  {
    if s == {} then []
    else
      MinExists(s);
      var m :| m in s && forall y :: y in s ==> m <= y;
      var rest := Ascending(s - {m});
      PrependLeast(s, m, rest);
      [m] + rest
  }

  /** Putting the least element in front of the ascending rest of a set lists the whole set ascending. */
  lemma PrependLeast(s: set<int>, m: int, rest: seq<int>)
    requires m in s && forall y :: y in s ==> m <= y
    requires StrictlyAscending(rest)
    requires forall x :: x in rest <==> x in s - {m}
    requires |rest| == |s - {m}|
    ensures StrictlyAscending([m] + rest)
    ensures forall x :: x in [m] + rest <==> x in s
    ensures |[m] + rest| == |s|
  {
    forall t | 0 <= t < |rest| ensures m < rest[t] {
      assert rest[t] in rest;
    }
    forall x ensures x in [m] + rest <==> x in s {
      if x != m {
        assert x in s <==> x in s - {m};
      }
    }
    assert s == (s - {m}) + {m};
  }

  /** The entries of keys whose posting list is long enough, with that length as support, in the order of keys. */
  function FrequentItems(positions: map<int, seq<int>>, keys: seq<int>, minSupp: int): (r: seq<Entry>)
    requires forall k :: k in keys ==> k in positions
    ensures NonEmptyItems(r)
  {
    if keys == [] then []
    else
      var x := keys[|keys| - 1];
      FrequentItems(positions, keys[..|keys| - 1], minSupp)
        + (if |positions[x]| >= minSupp then [Entry([x], |positions[x]|)] else [])
  }

  /** Extending the keys by one extends FrequentItems by that key's entry, when frequent. */
  lemma FrequentItemsSnoc(positions: map<int, seq<int>>, keys: seq<int>, t: nat, minSupp: int)
    requires t < |keys| && forall k :: k in keys ==> k in positions
    ensures FrequentItems(positions, keys[..t + 1], minSupp)
         == FrequentItems(positions, keys[..t], minSupp)
            + (if |positions[keys[t]]| >= minSupp then [Entry([keys[t]], |positions[keys[t]]|)] else [])
  {
    assert keys[..t + 1][..t] == keys[..t];
  }

  /** The frequent 1-itemsets: every key of the posting-list map in ascending order, filtered. */
  function Level1(positions: map<int, seq<int>>, minSupp: int): (r: seq<Entry>)
    ensures NonEmptyItems(r)
  {
    FrequentItems(positions, Ascending(positions.Keys), minSupp)
  }

  /**
   * Every entry of f is a one-item set {x} with x among the keys, whose
   * posting list reaches minSupp (equality included) and whose length is
   * the entry's support.
   */
  predicate FrequentSingletons(f: seq<Entry>, positions: map<int, seq<int>>, keys: set<int>, minSupp: int)
  {
    forall i :: 0 <= i < |f| ==>
      |f[i].items| == 1 && f[i].items[0] in keys && f[i].items[0] in positions
      && f[i].support == |positions[f[i].items[0]]| && f[i].support >= minSupp
  }

  /** The entries' first items strictly increase. */
  predicate AscendingFirsts(f: seq<Entry>)
  {
    NonEmptyItems(f) && forall i, j :: 0 <= i < j < |f| ==> f[i].items[0] < f[j].items[0]
  }

  /** FrequentItems over strictly ascending keys keeps only frequent keys, in ascending order. */
  lemma {:induction false} FrequentItemsSound(positions: map<int, seq<int>>, keys: seq<int>, minSupp: int)
    requires forall k :: k in keys ==> k in positions
    requires StrictlyAscending(keys)
    ensures FrequentSingletons(FrequentItems(positions, keys, minSupp), positions, (set k | k in keys), minSupp)
    ensures AscendingFirsts(FrequentItems(positions, keys, minSupp))
  {
    if keys != [] {
      var init := keys[..|keys| - 1];
      var x := keys[|keys| - 1];
      FrequentItemsSound(positions, init, minSupp);
      var prev := FrequentItems(positions, init, minSupp);
      var f := FrequentItems(positions, keys, minSupp);
      assert forall y :: y in init ==> y in keys && y < x;
      forall i | 0 <= i < |prev| ensures f[i] == prev[i] && prev[i].items[0] in keys && prev[i].items[0] < x {
        assert prev[i].items[0] in (set k | k in init);
      }
    }
  }

  /** Every key whose list reaches minSupp has its entry in FrequentItems. */
  lemma {:induction false} FrequentItemsComplete(positions: map<int, seq<int>>, keys: seq<int>, minSupp: int)
    requires forall k :: k in keys ==> k in positions
    ensures forall x :: (x in keys && |positions[x]| >= minSupp
                         ==> Entry([x], |positions[x]|) in FrequentItems(positions, keys, minSupp))
  {
    if keys != [] {
      var init := keys[..|keys| - 1];
      FrequentItemsComplete(positions, init, minSupp);
      assert forall y :: y in keys ==> y in init || y == keys[|keys| - 1];
    }
  }

  /**
   * Level1 holds exactly the keys whose posting list is at least minSupp
   * long, with that length as support, in ascending key order.
   */
  lemma Level1Spec(positions: map<int, seq<int>>, minSupp: int)
    ensures FrequentSingletons(Level1(positions, minSupp), positions, positions.Keys, minSupp)
    ensures AscendingFirsts(Level1(positions, minSupp))
    ensures forall x :: (x in positions && |positions[x]| >= minSupp
                         ==> Entry([x], |positions[x]|) in Level1(positions, minSupp))
  {
    var keys := Ascending(positions.Keys);
    assert (set k | k in keys) == positions.Keys;
    FrequentItemsSound(positions, keys, minSupp);
    FrequentItemsComplete(positions, keys, minSupp);
  }

  // ---------------------------------------------------------------------
  // Level 2: every pair of frequent items
  // ---------------------------------------------------------------------

  /** Every entry has at least one item. */
  predicate NonEmptyItems(f: seq<Entry>)
  {
    forall i :: 0 <= i < |f| ==> |f[i].items| > 0
  }

  /** The candidate {f[i], f[j]} built from the first items of two entries. */
  function Pair(f: seq<Entry>, i: nat, j: nat): Entry
    requires i < |f| && j < |f| && NonEmptyItems(f)
  {
    Entry([f[i].items[0], f[j].items[0]], 0)
  }

  /** The pairs (i, j') for i < j' < j, in increasing j'. */
  function PairRow(f: seq<Entry>, i: nat, j: nat): seq<Entry>
    requires i < |f| && j <= |f| && NonEmptyItems(f)
  {
    if j <= i + 1 then [] else PairRow(f, i, j - 1) + [Pair(f, i, j - 1)]
  }

  /** The pairs whose first index is below i, row after row. */
  function PairsUpTo(f: seq<Entry>, i: nat): seq<Entry>
    requires i <= |f| && NonEmptyItems(f)
  {
    if i == 0 then [] else PairsUpTo(f, i - 1) + PairRow(f, i - 1, |f|)
  }

  /** The level-2 candidates: {f[i], f[j]} for all i < j, in (i, j) order. */
  function Pairs(f: seq<Entry>): seq<Entry>
    requires NonEmptyItems(f)
  {
    PairsUpTo(f, |f|)
  }

  /** A row holds exactly the pairs (i, j') with i < j' < j. */
  lemma {:induction false} PairRowMembers(f: seq<Entry>, i: nat, j: nat)
    requires i < |f| && j <= |f| && NonEmptyItems(f)
    ensures |PairRow(f, i, j)| == if j <= i + 1 then 0 else j - i - 1
    ensures forall t :: 0 <= t < |PairRow(f, i, j)| ==> PairRow(f, i, j)[t] == Pair(f, i, i + 1 + t)
  {
    if j > i + 1 {
      PairRowMembers(f, i, j - 1);
    }
  }

  /** Twice the number of pairs below row i is i * (2n - i - 1). */
  lemma {:induction false} PairsUpToLength(f: seq<Entry>, i: nat)
    requires i <= |f| && NonEmptyItems(f)
    ensures 2 * |PairsUpTo(f, i)| == i * (2 * |f| - i - 1)
  {
    if i > 0 {
      PairsUpToLength(f, i - 1);
      PairRowMembers(f, i - 1, |f|);
      assert |PairsUpTo(f, i)| == |PairsUpTo(f, i - 1)| + |f| - i;
      assert (i - 1) * (2 * |f| - i) + 2 * (|f| - i) == i * (2 * |f| - i - 1);
    }
  }

  /** n frequent items give n(n-1)/2 pairs. */
  lemma PairsCount(f: seq<Entry>)
    requires NonEmptyItems(f)
    ensures 2 * |Pairs(f)| == |f| * (|f| - 1)
  {
    PairsUpToLength(f, |f|);
  }

  /** Every pair below row i is {f[a], f[b]} for some a < i and a < b. */
  lemma {:induction false} PairsUpToSound(f: seq<Entry>, i: nat)
    requires i <= |f| && NonEmptyItems(f)
    ensures forall e :: e in PairsUpTo(f, i) ==> exists a, b :: 0 <= a < i && a < b < |f| && e == Pair(f, a, b)
  {
    if i > 0 {
      PairsUpToSound(f, i - 1);
      var row := PairRow(f, i - 1, |f|);
      PairRowMembers(f, i - 1, |f|);
      forall e | e in row ensures exists a, b :: 0 <= a < i && a < b < |f| && e == Pair(f, a, b) {
        var t :| 0 <= t < |row| && row[t] == e;
        assert e == Pair(f, i - 1, i + t);
      }
    }
  }

  /** Every {f[a], f[b]} with a < i and a < b is among the pairs below row i. */
  lemma {:induction false} PairsUpToComplete(f: seq<Entry>, i: nat)
    requires i <= |f| && NonEmptyItems(f)
    ensures forall a, b :: 0 <= a < i && a < b < |f| ==> Pair(f, a, b) in PairsUpTo(f, i)
  {
    if i > 0 {
      PairsUpToComplete(f, i - 1);
      var row := PairRow(f, i - 1, |f|);
      PairRowMembers(f, i - 1, |f|);
      assert PairsUpTo(f, i) == PairsUpTo(f, i - 1) + row;
      forall a, b | 0 <= a < i && a < b < |f| ensures Pair(f, a, b) in PairsUpTo(f, i) {
        if a == i - 1 {
          assert row[b - i] == Pair(f, a, b);
          assert Pair(f, a, b) in row;
        } else {
          assert Pair(f, a, b) in PairsUpTo(f, i - 1);
        }
      }
    }
  }

  /** The level-2 candidates are exactly the pairs {f[a], f[b]} with a < b. */
  lemma PairsMembers(f: seq<Entry>)
    requires NonEmptyItems(f)
    ensures forall e :: e in Pairs(f) <==> exists a, b :: 0 <= a < b < |f| && e == Pair(f, a, b)
  {
    PairsUpToSound(f, |f|);
    PairsUpToComplete(f, |f|);
  }

  /** The indices a < b of the pair {f[a], f[b]} that a given level-2 candidate is. */
  lemma PairPartners(f: seq<Entry>, e: Entry) returns (a: nat, b: nat)
    requires NonEmptyItems(f) && e in Pairs(f)
    ensures a < b < |f| && e == Pair(f, a, b)
  {
    PairsUpToSound(f, |f|);
    a, b :| 0 <= a < |f| && a < b < |f| && e == Pair(f, a, b);
  }

  // ---------------------------------------------------------------------
  // Sortedness helpers
  // ---------------------------------------------------------------------

  /** Every entry holds k strictly ascending items. */
  predicate Level(f: seq<Entry>, k: nat)
  {
    forall i :: 0 <= i < |f| ==> |f[i].items| == k && StrictlyAscending(f[i].items)
  }

  /** Every entry of a is lexicographically below every entry of b. */
  predicate AllBelow(a: seq<Entry>, b: seq<Entry>)
  {
    forall s, t :: 0 <= s < |a| && 0 <= t < |b| ==> LexLess(a[s].items, b[t].items)
  }

  /** Concatenating two sorted lists, every entry of the first below every entry of the second, stays sorted. */
  lemma LexSortedConcat(a: seq<Entry>, b: seq<Entry>)
    requires LexSorted(a) && LexSorted(b) && AllBelow(a, b)
    ensures LexSorted(a + b)
  {
    forall i, j | 0 <= i < j < |a + b| ensures LexLess((a + b)[i].items, (a + b)[j].items) {
      if j < |a| {
      } else if i >= |a| {
        assert (a + b)[i] == b[i - |a|] && (a + b)[j] == b[j - |a|];
      } else {
        assert (a + b)[j] == b[j - |a|];
      }
    }
  }

  /** Frequent items in ascending order give sorted pairs of two strictly ascending items. */
  lemma PairsSorted(f: seq<Entry>)
    requires NonEmptyItems(f)
    requires forall i, j :: 0 <= i < j < |f| ==> f[i].items[0] < f[j].items[0]
    ensures Level(Pairs(f), 2) && LexSorted(Pairs(f))
  {
    PairsUpToSorted(f, |f|);
  }

  lemma {:induction false} PairsUpToSorted(f: seq<Entry>, i: nat)
    requires i <= |f| && NonEmptyItems(f)
    requires forall i, j :: 0 <= i < j < |f| ==> f[i].items[0] < f[j].items[0]
    ensures Level(PairsUpTo(f, i), 2) && LexSorted(PairsUpTo(f, i))
  {
    if i > 0 {
      PairsUpToSorted(f, i - 1);
      PairRowSorted(f, i - 1);
      PairsBeforeRow(f, i);
      LexSortedConcat(PairsUpTo(f, i - 1), PairRow(f, i - 1, |f|));
    }
  }

  /** One row of pairs is sorted and each of its pairs is strictly ascending. */
  lemma PairRowSorted(f: seq<Entry>, i: nat)
    requires i < |f| && NonEmptyItems(f)
    requires forall i, j :: 0 <= i < j < |f| ==> f[i].items[0] < f[j].items[0]
    ensures Level(PairRow(f, i, |f|), 2) && LexSorted(PairRow(f, i, |f|))
  {
    var row := PairRow(f, i, |f|);
    PairRowMembers(f, i, |f|);
    forall s, t | 0 <= s < t < |row| ensures LexLess(row[s].items, row[t].items) {
      LexLessLast([f[i].items[0]], f[i + 1 + s].items[0], f[i + 1 + t].items[0]);
      assert row[s].items == [f[i].items[0]] + [f[i + 1 + s].items[0]];
      assert row[t].items == [f[i].items[0]] + [f[i + 1 + t].items[0]];
    }
    forall t | 0 <= t < |row| ensures |row[t].items| == 2 && StrictlyAscending(row[t].items) {
      assert row[t] == Pair(f, i, i + 1 + t);
    }
  }

  /** The pairs below row i all start with an item below any bound the first items of rows 0..i-1 stay under. */
  lemma {:induction false} PairsUpToFirstBelow(f: seq<Entry>, i: nat, bound: int)
    requires i <= |f| && NonEmptyItems(f)
    requires forall a :: 0 <= a < i ==> f[a].items[0] < bound
    ensures forall t :: 0 <= t < |PairsUpTo(f, i)| ==>
      |PairsUpTo(f, i)[t].items| == 2 && PairsUpTo(f, i)[t].items[0] < bound
  {
    if i > 0 {
      PairsUpToFirstBelow(f, i - 1, bound);
      PairRowMembers(f, i - 1, |f|);
    }
  }

  /** Every pair of an earlier row is below every pair of row i - 1. */
  lemma PairsBeforeRow(f: seq<Entry>, i: nat)
    requires 0 < i <= |f| && NonEmptyItems(f)
    requires forall i, j :: 0 <= i < j < |f| ==> f[i].items[0] < f[j].items[0]
    ensures AllBelow(PairsUpTo(f, i - 1), PairRow(f, i - 1, |f|))
  {
    var prev := PairsUpTo(f, i - 1);
    var row := PairRow(f, i - 1, |f|);
    PairsUpToFirstBelow(f, i - 1, f[i - 1].items[0]);
    PairRowMembers(f, i - 1, |f|);
    forall s, t | 0 <= s < |prev| && 0 <= t < |row| ensures LexLess(prev[s].items, row[t].items) {
      LexLessHead(prev[s].items, row[t].items);
    }
  }

  // ---------------------------------------------------------------------
  // Support filter
  // ---------------------------------------------------------------------

  /**
   * The candidates whose support reaches minSupp, in their original order,
   * each paired with its support; the candidates' own counts are ignored.
   */
  function Filter(data: seq<seq<int>>, cands: seq<Entry>, minSupp: int): seq<Entry>
  {
    if cands == [] then []
    else
      var c := cands[|cands| - 1].items;
      Filter(data, cands[..|cands| - 1], minSupp)
        + (if Support(data, c) >= minSupp then [Entry(c, Support(data, c))] else [])
  }

  /** Extending the candidates by one extends Filter by that candidate's entry, when frequent. */
  lemma FilterSnoc(data: seq<seq<int>>, cands: seq<Entry>, i: nat, minSupp: int)
    requires i < |cands|
    ensures Filter(data, cands[..i + 1], minSupp)
         == Filter(data, cands[..i], minSupp)
            + (if Support(data, cands[i].items) >= minSupp
               then [Entry(cands[i].items, Support(data, cands[i].items))] else [])
  {
    assert cands[..i + 1][..i] == cands[..i];
  }

  /** Candidate k passes the threshold, and e is its frequent entry. */
  predicate KeptAs(data: seq<seq<int>>, cands: seq<Entry>, minSupp: int, k: int, e: Entry)
    requires 0 <= k < |cands|
  {
    Support(data, cands[k].items) >= minSupp && e == Entry(cands[k].items, Support(data, cands[k].items))
  }

  /**
   * Filter keeps a candidate exactly when its support reaches minSupp
   * (equality included), and records its true support.
   */
  lemma {:induction false} FilterMembers(data: seq<seq<int>>, cands: seq<Entry>, minSupp: int)
    ensures forall e :: e in Filter(data, cands, minSupp) <==>
      exists k :: 0 <= k < |cands| && KeptAs(data, cands, minSupp, k, e)
  {
    if cands != [] {
      var init := cands[..|cands| - 1];
      var last := |cands| - 1;
      var c := cands[last].items;
      var tail := if Support(data, c) >= minSupp then [Entry(c, Support(data, c))] else [];
      FilterMembers(data, init, minSupp);
      assert Filter(data, cands, minSupp) == Filter(data, init, minSupp) + tail;
      forall e ensures e in Filter(data, cands, minSupp) <==>
        exists k :: 0 <= k < |cands| && KeptAs(data, cands, minSupp, k, e)
      {
        if e in Filter(data, init, minSupp) {
          var k :| 0 <= k < |init| && KeptAs(data, init, minSupp, k, e);
          assert cands[k] == init[k];
          assert KeptAs(data, cands, minSupp, k, e);
        }
        if e in tail {
          assert KeptAs(data, cands, minSupp, last, e);
        }
        if exists k :: 0 <= k < |cands| && KeptAs(data, cands, minSupp, k, e) {
          var k :| 0 <= k < |cands| && KeptAs(data, cands, minSupp, k, e);
          if k < |init| {
            assert cands[k] == init[k];
            assert KeptAs(data, init, minSupp, k, e);
          } else {
            assert e in tail;
          }
        }
      }
    }
  }

  /** Filter keeps the candidates' length, ascending items and lexicographic order. */
  lemma {:induction false} FilterShape(data: seq<seq<int>>, cands: seq<Entry>, minSupp: int, k: nat)
    requires Level(cands, k) && LexSorted(cands)
    ensures Level(Filter(data, cands, minSupp), k) && LexSorted(Filter(data, cands, minSupp))
  {
    if cands != [] {
      var init := cands[..|cands| - 1];
      var prev := Filter(data, init, minSupp);
      FilterShape(data, init, minSupp, k);
      FilterMembers(data, init, minSupp);
      var last := cands[|cands| - 1];
      forall s | 0 <= s < |prev| ensures LexLess(prev[s].items, last.items) {
        assert prev[s] in prev;
        var t :| 0 <= t < |init| && KeptAs(data, init, minSupp, t, prev[s]);
        assert init[t] == cands[t];
        assert prev[s].items == cands[t].items;
        assert LexLess(cands[t].items, cands[|cands| - 1].items);
      }
      var tail := if Support(data, last.items) >= minSupp then [Entry(last.items, Support(data, last.items))] else [];
      assert AllBelow(prev, tail);
      LexSortedConcat(prev, tail);
    }
  }

  // ---------------------------------------------------------------------
  // Prefix join: level k+1 from level k
  // ---------------------------------------------------------------------

  /** a and b agree at every index below min(|a|, |b|) - 1; the last position is never compared. */
  predicate AgreeBelowLast(a: seq<int>, b: seq<int>)
  {
    forall k :: 0 <= k < |a| - 1 && k < |b| - 1 ==> a[k] == b[k]
  }

  /** For sequences of one length, agreeing below the last position is equality of the prefixes. */
  lemma AgreePrefix(a: seq<int>, b: seq<int>)
    requires |a| == |b| > 0
    ensures AgreeBelowLast(a, b) <==> a[..|a| - 1] == b[..|b| - 1]
  {
    if AgreeBelowLast(a, b) {
      assert a[..|a| - 1] == b[..|b| - 1];
    }
    if a[..|a| - 1] == b[..|b| - 1] {
      forall k | 0 <= k < |a| - 1 ensures a[k] == b[k] {
        assert a[..|a| - 1][k] == b[..|b| - 1][k];
      }
    }
  }

  /** a followed by the last item of b. */
  function Joined(a: seq<int>, b: seq<int>): seq<int>
    requires |b| > 0
  {
    a + [b[|b| - 1]]
  }

  /** The joins of f[i] with f[j], f[j+1], ... while they agree with f[i] below the last item, bounded by |f|. */
  function RunFrom(f: seq<Entry>, i: nat, j: nat): seq<Entry>
    requires i < |f| && NonEmptyItems(f)
    decreases |f| - j
  {
    if j >= |f| || !AgreeBelowLast(f[i].items, f[j].items) then []
    else [Entry(Joined(f[i].items, f[j].items), 0)] + RunFrom(f, i, j + 1)
  }

  /** The joins whose first partner has index i or more, outer index below |f| - 1. */
  function JoinFrom(f: seq<Entry>, i: nat): seq<Entry>
    requires NonEmptyItems(f)
    decreases |f| - i
  {
    if i + 1 >= |f| then [] else RunFrom(f, i, i + 1) + JoinFrom(f, i + 1)
  }

  /** The level k+1 candidates the prefix join builds from the frequent k-itemsets f. */
  function Join(f: seq<Entry>): seq<Entry>
    requires NonEmptyItems(f)
  {
    JoinFrom(f, 0)
  }

  /** e is the join of f[a] with f[b], and f[a], f[b] agree below their last items. */
  predicate JoinsWith(f: seq<Entry>, a: nat, b: nat, e: Entry)
    requires a < |f| && b < |f| && NonEmptyItems(f)
  {
    AgreeBelowLast(f[a].items, f[b].items) && e == Entry(Joined(f[a].items, f[b].items), 0)
  }

  /** RunFrom(f, i, j) lists the joins of f[i] with f[j], f[j+1], ..., each agreeing with f[i]. */
  lemma {:induction false} RunMembers(f: seq<Entry>, i: nat, j: nat)
    requires i < |f| && NonEmptyItems(f)
    ensures RunFrom(f, i, j) == [] || j + |RunFrom(f, i, j)| <= |f|
    ensures forall t :: 0 <= t < |RunFrom(f, i, j)| ==>
      j + t < |f| && JoinsWith(f, i, j + t, RunFrom(f, i, j)[t])
    decreases |f| - j
  {
    if j < |f| && AgreeBelowLast(f[i].items, f[j].items) {
      RunMembers(f, i, j + 1);
      var run := RunFrom(f, i, j);
      var rest := RunFrom(f, i, j + 1);
      assert run == [Entry(Joined(f[i].items, f[j].items), 0)] + rest;
      forall t | 0 <= t < |run| ensures j + t < |f| && JoinsWith(f, i, j + t, run[t]) {
        if t > 0 {
          assert run[t] == rest[t - 1];
        }
      }
    } else {
      assert RunFrom(f, i, j) == [];
    }
  }

  /** The run from j stops at the end of f or at the first index that disagrees with f[i]. */
  lemma {:induction false} RunEnds(f: seq<Entry>, i: nat, j: nat)
    requires i < |f| && NonEmptyItems(f)
    ensures j + |RunFrom(f, i, j)| >= |f| || !AgreeBelowLast(f[i].items, f[j + |RunFrom(f, i, j)|].items)
    decreases |f| - j
  {
    if j < |f| && AgreeBelowLast(f[i].items, f[j].items) {
      RunEnds(f, i, j + 1);
    }
  }

  /**
   * The inner scan of the join as AprioriAlgorithm.cpp:174 writes it: j
   * advances while compare(f[i], f[j]) holds, with no test j < |f|. The
   * predicate holds when the scan from j goes on to read f[|f|], past the end.
   */
  predicate ScanOverruns(f: seq<Entry>, i: nat, j: nat)
    requires i < |f|
    decreases |f| - j
  {
    j >= |f| || (AgreeBelowLast(f[i].items, f[j].items) && ScanOverruns(f, i, j + 1))
  }

  /** The unbounded scan overruns exactly when every entry from j to the end agrees with f[i]. */
  lemma {:induction false} ScanOverrunsIff(f: seq<Entry>, i: nat, j: nat)
    requires i < |f|
    ensures ScanOverruns(f, i, j) <==> forall m :: j <= m < |f| ==> AgreeBelowLast(f[i].items, f[m].items)
    decreases |f| - j
  {
    if j < |f| {
      ScanOverrunsIff(f, i, j + 1);
    }
  }

  /** The bounded run reaches the end of f exactly when the unbounded scan would overrun it. */
  lemma {:induction false} ScanOverrunsRun(f: seq<Entry>, i: nat, j: nat)
    requires i < |f| && NonEmptyItems(f)
    ensures ScanOverruns(f, i, j) <==> j + |RunFrom(f, i, j)| >= |f|
    decreases |f| - j
  {
    if j < |f| {
      ScanOverrunsRun(f, i, j + 1);
    }
  }

  /**
   * Three frequent 2-itemsets {1,2}, {1,3}, {1,4} pass the size test
   * (more than two) and make the unbounded scan from {1,2} overrun; the
   * bounded join yields {1,2,3}, {1,2,4}, {1,3,4}.
   */
  lemma ScanOverrunsExample()
    ensures ScanOverruns([Entry([1, 2], 2), Entry([1, 3], 2), Entry([1, 4], 2)], 0, 1)
    ensures Join([Entry([1, 2], 2), Entry([1, 3], 2), Entry([1, 4], 2)])
         == [Entry([1, 2, 3], 0), Entry([1, 2, 4], 0), Entry([1, 3, 4], 0)]
  {
    var f := [Entry([1, 2], 2), Entry([1, 3], 2), Entry([1, 4], 2)];
    assert AgreeBelowLast(f[0].items, f[1].items) && AgreeBelowLast(f[0].items, f[2].items);
    assert AgreeBelowLast(f[1].items, f[2].items);
    assert ScanOverruns(f, 0, 3) && ScanOverruns(f, 0, 2);
    assert Joined(f[0].items, f[1].items) == [1, 2, 3] && Joined(f[0].items, f[2].items) == [1, 2, 4];
    assert Joined(f[1].items, f[2].items) == [1, 3, 4];
    assert RunFrom(f, 0, 3) == [] && RunFrom(f, 1, 3) == [];
    assert RunFrom(f, 0, 2) == [Entry([1, 2, 4], 0)];
    assert RunFrom(f, 0, 1) == [Entry([1, 2, 3], 0), Entry([1, 2, 4], 0)];
    assert JoinFrom(f, 1) == RunFrom(f, 1, 2) == [Entry([1, 3, 4], 0)];
  }

  /** Every entry of JoinFrom(f, i) joins some f[a] with a later f[b] that agrees with it. */
  lemma {:induction false} JoinMembers(f: seq<Entry>, i: nat)
    requires NonEmptyItems(f)
    ensures forall e :: e in JoinFrom(f, i) ==> exists a, b :: i <= a < b < |f| && JoinsWith(f, a, b, e)
    decreases |f| - i
  {
    if i + 1 < |f| {
      JoinMembers(f, i + 1);
      var run := RunFrom(f, i, i + 1);
      RunMembers(f, i, i + 1);
      forall e | e in run ensures exists a, b :: i <= a < b < |f| && JoinsWith(f, a, b, e) {
        var t :| 0 <= t < |run| && run[t] == e;
        assert i < i + 1 + t < |f|;
      }
    }
  }

  /** Every entry of the run of f[a] starting at a + 1 is in JoinFrom(f, i) when i <= a. */
  lemma {:induction false} RunInJoin(f: seq<Entry>, i: nat, a: nat)
    requires NonEmptyItems(f) && i <= a && a + 1 < |f|
    ensures forall e :: e in RunFrom(f, a, a + 1) ==> e in JoinFrom(f, i)
    decreases a - i
  {
    if i < a {
      RunInJoin(f, i + 1, a);
    }
  }

  /** In a sorted level, every entry strictly between two agreeing entries agrees with them. */
  lemma AgreeBetween(f: seq<Entry>, k: nat, a: nat, b: nat)
    requires k >= 1 && Level(f, k) && LexSorted(f)
    requires a < b < |f| && AgreeBelowLast(f[a].items, f[b].items)
    ensures forall m :: a < m <= b ==> AgreeBelowLast(f[a].items, f[m].items)
  {
    AgreePrefix(f[a].items, f[b].items);
    forall m | a < m < b ensures AgreeBelowLast(f[a].items, f[m].items) {
      LexBetweenSharesPrefix(f[a].items, f[m].items, f[b].items, k - 1);
      AgreePrefix(f[a].items, f[m].items);
    }
  }

  /** When f[j..b] all agree with f[a], the run of f[a] from j reaches b. */
  lemma {:induction false} RunReaches(f: seq<Entry>, a: nat, j: nat, b: nat)
    requires NonEmptyItems(f) && a < j <= b < |f|
    requires forall m :: j <= m <= b ==> AgreeBelowLast(f[a].items, f[m].items)
    ensures Entry(Joined(f[a].items, f[b].items), 0) in RunFrom(f, a, j)
    decreases b - j
  {
    var e := Entry(Joined(f[a].items, f[b].items), 0);
    assert AgreeBelowLast(f[a].items, f[j].items);
    assert RunFrom(f, a, j) == [Entry(Joined(f[a].items, f[j].items), 0)] + RunFrom(f, a, j + 1);
    if j < b {
      RunReaches(f, a, j + 1, b);
      assert e in RunFrom(f, a, j + 1);
    }
  }

  /**
   * Join completeness on sorted input: when f is lexicographically sorted
   * and all its entries have k items, every pair a < b that agrees below
   * the last item is joined, because the entries between them agree too.
   */
  lemma JoinComplete(f: seq<Entry>, k: nat)
    requires k >= 1 && Level(f, k) && LexSorted(f)
    ensures forall a, b :: (0 <= a < b < |f| && AgreeBelowLast(f[a].items, f[b].items)
                            ==> Entry(Joined(f[a].items, f[b].items), 0) in Join(f))
  {
    forall a, b | 0 <= a < b < |f| && AgreeBelowLast(f[a].items, f[b].items)
      ensures Entry(Joined(f[a].items, f[b].items), 0) in Join(f)
    {
      AgreeBetween(f, k, a, b);
      RunReaches(f, a, a + 1, b);
      RunInJoin(f, 0, a);
    }
  }

  /** Joining two agreeing, ordered k-itemsets gives a strictly ascending (k+1)-itemset. */
  lemma JoinedShape(x: seq<int>, y: seq<int>)
    requires |x| == |y| > 0 && StrictlyAscending(x)
    requires AgreeBelowLast(x, y) && LexLess(x, y)
    ensures |Joined(x, y)| == |x| + 1 && StrictlyAscending(Joined(x, y))
    ensures x[|x| - 1] < y[|y| - 1]
  {
    AgreePrefix(x, y);
    LexLessSamePrefix(x, y);
  }

  /** Two joins of one itemset x with later y < z that agree with x are ordered as y and z. */
  lemma JoinedOrdered(x: seq<int>, y: seq<int>, z: seq<int>)
    requires |x| == |y| == |z| > 0
    requires AgreeBelowLast(x, y) && AgreeBelowLast(x, z) && LexLess(y, z)
    ensures LexLess(Joined(x, y), Joined(x, z))
  {
    AgreePrefix(x, y);
    AgreePrefix(x, z);
    LexLessSamePrefix(y, z);
    LexLessLast(x, y[|y| - 1], z[|z| - 1]);
  }

  /** A run of joins of f[i] is sorted and made of strictly ascending (k+1)-itemsets. */
  lemma RunShape(f: seq<Entry>, k: nat, i: nat, j: nat)
    requires k >= 1 && Level(f, k) && LexSorted(f)
    requires i < j && i < |f|
    ensures Level(RunFrom(f, i, j), k + 1) && LexSorted(RunFrom(f, i, j))
  {
    var run := RunFrom(f, i, j);
    RunMembers(f, i, j);
    forall t | 0 <= t < |run| ensures |run[t].items| == k + 1 && StrictlyAscending(run[t].items) {
      assert j + t < |f| && JoinsWith(f, i, j + t, run[t]);
      JoinedShape(f[i].items, f[j + t].items);
    }
    forall s, t | 0 <= s < t < |run| ensures LexLess(run[s].items, run[t].items) {
      assert j + s < |f| && JoinsWith(f, i, j + s, run[s]);
      assert j + t < |f| && JoinsWith(f, i, j + t, run[t]);
      JoinedOrdered(f[i].items, f[j + s].items, f[j + t].items);
    }
  }

  /** Joins keep the order of the itemsets they extend. */
  lemma JoinedLexLess(x: seq<int>, y: seq<int>, u: seq<int>, v: seq<int>)
    requires |y| > 0 && |v| > 0 && LexLess(x, u)
    ensures LexLess(Joined(x, y), Joined(u, v))
  {
    LexLessExtend(x, u, [y[|y| - 1]], [v[|v| - 1]]);
  }

  /** f[i] is lexicographically below every later entry of f. */
  predicate Leads(f: seq<Entry>, i: nat)
  {
    forall a :: i < a < |f| ==> LexLess(f[i].items, f[a].items)
  }

  /** The partners a < b whose join is a given entry of JoinFrom(f, i). */
  lemma JoinPartners(f: seq<Entry>, i: nat, e: Entry) returns (a: nat, b: nat)
    requires NonEmptyItems(f) && e in JoinFrom(f, i)
    ensures i <= a < b < |f| && JoinsWith(f, a, b, e)
  {
    JoinMembers(f, i);
    a, b :| i <= a < b < |f| && JoinsWith(f, a, b, e);
  }

  /** A join of f[i] is below every join of a later f[a], when f[i] is below every later entry. */
  lemma JoinedBelowLater(f: seq<Entry>, i: nat, m: nat, a: nat, b: nat)
    requires NonEmptyItems(f) && i < m < |f| && i < a < b < |f|
    requires Leads(f, i)
    ensures LexLess(Joined(f[i].items, f[m].items), Joined(f[a].items, f[b].items))
  {
    assert LexLess(f[i].items, f[a].items);
    JoinedLexLess(f[i].items, f[m].items, f[a].items, f[b].items);
  }

  /** Every join of f[i] is below every join of a later f[a], when f[i] is below every later entry. */
  lemma RunBelowLater(f: seq<Entry>, i: nat)
    requires NonEmptyItems(f) && i + 1 < |f|
    requires Leads(f, i)
    ensures AllBelow(RunFrom(f, i, i + 1), JoinFrom(f, i + 1))
  {
    var run := RunFrom(f, i, i + 1);
    var rest := JoinFrom(f, i + 1);
    RunMembers(f, i, i + 1);
    forall s, t | 0 <= s < |run| && 0 <= t < |rest| ensures LexLess(run[s].items, rest[t].items) {
      assert i + 1 + s < |f| && JoinsWith(f, i, i + 1 + s, run[s]);
      assert rest[t] in rest;
      var a, b := JoinPartners(f, i + 1, rest[t]);
      JoinedBelowLater(f, i, i + 1 + s, a, b);
    }
  }

  /** JoinFrom(f, i) is sorted and made of strictly ascending (k+1)-itemsets. */
  lemma {:induction false} JoinFromShape(f: seq<Entry>, k: nat, i: nat)
    requires k >= 1 && Level(f, k) && LexSorted(f)
    ensures Level(JoinFrom(f, i), k + 1) && LexSorted(JoinFrom(f, i))
    decreases |f| - i
  {
    if i + 1 < |f| {
      JoinFromShape(f, k, i + 1);
      RunShape(f, k, i, i + 1);
      RunBelowLater(f, i);
      LexSortedConcat(RunFrom(f, i, i + 1), JoinFrom(f, i + 1));
    }
  }

  /**
   * On lexicographically sorted, strictly ascending k-itemsets the join
   * yields lexicographically sorted, strictly ascending (k+1)-itemsets, so
   * duplicate-free ones.
   */
  lemma JoinShape(f: seq<Entry>, k: nat)
    requires k >= 1 && Level(f, k) && LexSorted(f)
    ensures Level(Join(f), k + 1) && LexSorted(Join(f))
  {
    JoinFromShape(f, k, 0);
  }
}
