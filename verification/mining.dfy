/**
 * The level-wise loop of the Apriori miner as a specification: count and
 * prune the candidates of one level, stop once at most two of them are
 * frequent, otherwise join the survivors into the next level's candidates.
 * The lemmas prove the whole run sound (every reported itemset is strictly
 * ascending and carries its true support, which reaches the threshold),
 * ordered (by size, then lexicographically, so free of duplicates) and,
 * for a positive threshold, complete.
 */
module Mining {
  import opened Itemsets
  import opened Levels

  /** Every item of c is in the set. */
  predicate Within(c: seq<int>, items: set<int>)
  {
    forall x :: x in c ==> x in items
  }

  /** Every entry's items are drawn from the set. */
  predicate ItemsIn(f: seq<Entry>, items: set<int>)
  {
    forall i :: 0 <= i < |f| ==> Within(f[i].items, items)
  }

  /** The candidates of level k: sorted, strictly ascending k-itemsets over the occurring items. */
  predicate Candidates(data: seq<seq<int>>, cands: seq<Entry>, k: nat)
  {
    k >= 1 && Level(cands, k) && LexSorted(cands) && ItemsIn(cands, ItemSet(data))
  }

  /** A reported entry: a non-empty, strictly ascending itemset with its true support, at least minSupp. */
  predicate Frequent(data: seq<seq<int>>, minSupp: int, e: Entry)
  {
    e.items != [] && StrictlyAscending(e.items)
    && e.support == Support(data, e.items) && e.support >= minSupp
  }

  /** Every entry is Frequent and has at least k items. */
  predicate SoundFrom(data: seq<seq<int>>, minSupp: int, r: seq<Entry>, k: nat)
  {
    forall i :: 0 <= i < |r| ==> |r[i].items| >= k && Frequent(data, minSupp, r[i])
  }

  /** Ordered by size, and lexicographically within one size. */
  predicate Ranked(r: seq<Entry>)
  {
    forall i, j :: 0 <= i < j < |r| ==>
      |r[i].items| < |r[j].items| || (|r[i].items| == |r[j].items| && LexLess(r[i].items, r[j].items))
  }

  // ---------------------------------------------------------------------
  // One round: count, prune, join
  // ---------------------------------------------------------------------

  /** Pruning keeps candidates, so it keeps their items. */
  lemma FilterItemsIn(data: seq<seq<int>>, cands: seq<Entry>, minSupp: int, items: set<int>)
    requires ItemsIn(cands, items)
    ensures ItemsIn(Filter(data, cands, minSupp), items)
  {
    var f := Filter(data, cands, minSupp);
    FilterMembers(data, cands, minSupp);
    forall i | 0 <= i < |f| ensures Within(f[i].items, items) {
      assert f[i] in f;
      var t :| 0 <= t < |cands| && KeptAs(data, cands, minSupp, t, f[i]);
      assert f[i].items == cands[t].items;
    }
  }

  /** A join takes its items from the two entries it joins. */
  lemma JoinItemsIn(f: seq<Entry>, items: set<int>)
    requires NonEmptyItems(f) && ItemsIn(f, items)
    ensures ItemsIn(Join(f), items)
  {
    var g := Join(f);
    JoinMembers(f, 0);
    forall i | 0 <= i < |g| ensures Within(g[i].items, items) {
      assert g[i] in g;
      var a, b :| 0 <= a < b < |f| && JoinsWith(f, a, b, g[i]);
      assert Within(f[a].items, items) && Within(f[b].items, items);
      var last := f[b].items[|f[b].items| - 1];
      assert last in f[b].items;
      assert forall x :: x in g[i].items ==> x in f[a].items || x == last;
    }
  }

  /**
   * When some candidate of level k survives, k items fit in the occurring
   * items, and the join of the survivors is a valid level k + 1.
   */
  lemma MineStep(data: seq<seq<int>>, minSupp: int, cands: seq<Entry>, k: nat)
    requires Candidates(data, cands, k)
    requires Filter(data, cands, minSupp) != []
    ensures k <= |ItemSet(data)| && NonEmptyItems(Filter(data, cands, minSupp))
    ensures Candidates(data, Join(Filter(data, cands, minSupp)), k + 1)
  {
    var f := Filter(data, cands, minSupp);
    FilterShape(data, cands, minSupp, k);
    FilterItemsIn(data, cands, minSupp, ItemSet(data));
    assert Within(f[0].items, ItemSet(data));
    AscendingLengthBound(f[0].items, ItemSet(data));
    JoinShape(f, k);
    JoinItemsIn(f, ItemSet(data));
  }

  /**
   * The rounds from level k on: the frequent candidates of this level, then,
   * when more than two survive, the rounds over their join.
   */
  function Mine(data: seq<seq<int>>, minSupp: int, cands: seq<Entry>, k: nat): seq<Entry>
    requires Candidates(data, cands, k)
    decreases |ItemSet(data)| + 1 - k
  {
    var f := Filter(data, cands, minSupp);
    if |f| <= 2 then f
    else
      MineStep(data, minSupp, cands, k);
      f + Mine(data, minSupp, Join(f), k + 1)
  }

  /**
   * One round of the miner: the frequent candidates are non-empty itemsets;
   * with more than two of them the mining goes on from their join one level
   * up, otherwise it stops with them.
   */
  lemma MineUnfold(data: seq<seq<int>>, minSupp: int, cands: seq<Entry>, k: nat)
    requires Candidates(data, cands, k)
    ensures NonEmptyItems(Filter(data, cands, minSupp))
    ensures |Filter(data, cands, minSupp)| > 2 ==>
              k <= |ItemSet(data)| && Candidates(data, Join(Filter(data, cands, minSupp)), k + 1)
              && Mine(data, minSupp, cands, k)
                 == Filter(data, cands, minSupp) + Mine(data, minSupp, Join(Filter(data, cands, minSupp)), k + 1)
    ensures |Filter(data, cands, minSupp)| <= 2 ==> Mine(data, minSupp, cands, k) == Filter(data, cands, minSupp)
  {
    var f := Filter(data, cands, minSupp);
    FilterLevel(data, cands, minSupp, k);
    if |f| > 2 {
      MineStep(data, minSupp, cands, k);
    }
  }

  /** The level-2 candidates built from the frequent items are a valid level 2. */
  lemma PairsCandidates(data: seq<seq<int>>, minSupp: int)
    ensures Candidates(data, Pairs(Level1(Index(data), minSupp)), 2)
  {
    var positions := Index(data);
    var first := Level1(positions, minSupp);
    Level1Spec(positions, minSupp);
    PairsSorted(first);
    var g := Pairs(first);
    forall i | 0 <= i < |g| ensures Within(g[i].items, ItemSet(data)) {
      assert g[i] in g;
      var a, b := PairPartners(first, g[i]);
      assert first[a].items[0] in positions && first[b].items[0] in positions;
    }
  }

  /**
   * The frequent itemsets the miner reports: the frequent items from the
   * posting lists, then the rounds starting from their pairs.
   */
  function FrequentItemsets(data: seq<seq<int>>, minSupp: int): seq<Entry>
  {
    var first := Level1(Index(data), minSupp);
    PairsCandidates(data, minSupp);
    first + Mine(data, minSupp, Pairs(first), 2)
  }

  /**
   * The state of the level-wise loop at level k: the map indexes the rows;
   * while not done the candidates are level-k candidates whose mining
   * completes the results to goal, and once done the results are goal.
   */
  ghost predicate Pending(data: seq<seq<int>>, minSupp: int, positions: map<int, seq<int>>, cands: seq<Entry>,
                          results: seq<Entry>, done: bool, k: nat, goal: seq<Entry>)
  {
    WellFormed(data) && positions == Index(data)
    && (!done ==> Candidates(data, cands, k) && results + Mine(data, minSupp, cands, k) == goal)
    && (done ==> results == goal)
  }

  /**
   * After the first step on empty containers (frequent items f, results r,
   * candidates c), the loop starts at level 2 with all frequent itemsets as goal.
   */
  lemma PendingStart(data: seq<seq<int>>, minSupp: int, f: seq<Entry>, r: seq<Entry>, c: seq<Entry>)
    requires WellFormed(data) && f == [] + Level1(Index(data), minSupp)
    requires NonEmptyItems(f) && r == [] + f && c == [] + Pairs(f)
    ensures Pending(data, minSupp, Index(data), c, r, false, 2, FrequentItemsets(data, minSupp))
  {
    var first := Level1(Index(data), minSupp);
    assert [] + first == first;
    assert f == first && r == first;
    assert [] + Pairs(f) == Pairs(f);
    assert c == Pairs(first);
    PairsCandidates(data, minSupp);
    assert FrequentItemsets(data, minSupp) == first + Mine(data, minSupp, Pairs(first), 2);
  }

  // ---------------------------------------------------------------------
  // Soundness and order
  // ---------------------------------------------------------------------

  /** An occurring item is a key of the posting-list map, with the item's support as list length. */
  lemma IndexSupport(data: seq<seq<int>>, x: int)
    requires x in ItemSet(data)
    ensures x in Index(data) && |Index(data)[x]| == Support(data, [x])
  {
    PostingLength(data, x, |data|);
  }

  /** Every survivor of a level-k round is a frequent k-itemset with its true support. */
  lemma FilterSound(data: seq<seq<int>>, cands: seq<Entry>, minSupp: int, k: nat)
    requires k >= 1 && Level(cands, k)
    ensures SoundFrom(data, minSupp, Filter(data, cands, minSupp), k)
    ensures Level(Filter(data, cands, minSupp), k)
  {
    var f := Filter(data, cands, minSupp);
    FilterMembers(data, cands, minSupp);
    forall i | 0 <= i < |f| ensures |f[i].items| >= k && Frequent(data, minSupp, f[i]) {
      assert f[i] in f;
      var t :| 0 <= t < |cands| && KeptAs(data, cands, minSupp, t, f[i]);
    }
    FilterLevel(data, cands, minSupp, k);
  }

  /** Pruning keeps the candidates' size and ascending items. */
  lemma FilterLevel(data: seq<seq<int>>, cands: seq<Entry>, minSupp: int, k: nat)
    requires Level(cands, k)
    ensures Level(Filter(data, cands, minSupp), k)
  {
    var f := Filter(data, cands, minSupp);
    FilterMembers(data, cands, minSupp);
    forall i | 0 <= i < |f| ensures |f[i].items| == k && StrictlyAscending(f[i].items) {
      assert f[i] in f;
      var t :| 0 <= t < |cands| && KeptAs(data, cands, minSupp, t, f[i]);
    }
  }

  /** Joining two sound lists, the second of larger itemsets, is sound. */
  lemma SoundConcat(data: seq<seq<int>>, minSupp: int, a: seq<Entry>, b: seq<Entry>, k: nat)
    requires SoundFrom(data, minSupp, a, k) && SoundFrom(data, minSupp, b, k + 1)
    ensures SoundFrom(data, minSupp, a + b, k)
  {
    forall i | 0 <= i < |a + b| ensures |(a + b)[i].items| >= k && Frequent(data, minSupp, (a + b)[i]) {
      if i >= |a| {
        assert (a + b)[i] == b[i - |a|];
      }
    }
  }

  /** Every entry the rounds from level k report is frequent, with its true support and at least k items. */
  lemma {:induction false} MineSound(data: seq<seq<int>>, minSupp: int, cands: seq<Entry>, k: nat)
    requires Candidates(data, cands, k)
    ensures SoundFrom(data, minSupp, Mine(data, minSupp, cands, k), k)
    decreases |ItemSet(data)| + 1 - k
  {
    var f := Filter(data, cands, minSupp);
    FilterSound(data, cands, minSupp, k);
    if |f| > 2 {
      MineStep(data, minSupp, cands, k);
      MineSound(data, minSupp, Join(f), k + 1);
      SoundConcat(data, minSupp, f, Mine(data, minSupp, Join(f), k + 1), k);
    }
  }

  /** A sorted level is ranked. */
  lemma LevelRanked(f: seq<Entry>, k: nat)
    requires Level(f, k) && LexSorted(f)
    ensures Ranked(f)
  {
  }

  /** A ranked list of k-itemsets followed by a ranked list of larger ones is ranked. */
  lemma RankedConcat(data: seq<seq<int>>, minSupp: int, a: seq<Entry>, b: seq<Entry>, k: nat)
    requires Ranked(a) && Level(a, k)
    requires Ranked(b) && SoundFrom(data, minSupp, b, k + 1)
    ensures Ranked(a + b)
  {
    forall i, j | 0 <= i < j < |a + b| ensures
      |(a + b)[i].items| < |(a + b)[j].items|
      || (|(a + b)[i].items| == |(a + b)[j].items| && LexLess((a + b)[i].items, (a + b)[j].items))
    {
      if j < |a| {
        assert (a + b)[i] == a[i] && (a + b)[j] == a[j];
      } else if i >= |a| {
        assert (a + b)[i] == b[i - |a|] && (a + b)[j] == b[j - |a|];
      } else {
        assert (a + b)[i] == a[i] && (a + b)[j] == b[j - |a|];
      }
    }
  }

  /** The rounds report their itemsets by size, and lexicographically within one size. */
  lemma {:induction false} MineRanked(data: seq<seq<int>>, minSupp: int, cands: seq<Entry>, k: nat)
    requires Candidates(data, cands, k)
    ensures Ranked(Mine(data, minSupp, cands, k))
    decreases |ItemSet(data)| + 1 - k
  {
    var f := Filter(data, cands, minSupp);
    FilterShape(data, cands, minSupp, k);
    LevelRanked(f, k);
    if |f| > 2 {
      MineStep(data, minSupp, cands, k);
      var rest := Mine(data, minSupp, Join(f), k + 1);
      MineRanked(data, minSupp, Join(f), k + 1);
      MineSound(data, minSupp, Join(f), k + 1);
      RankedConcat(data, minSupp, f, rest, k);
    }
  }

  /** The frequent items are sound: {x} with the support of x, which reaches minSupp. */
  lemma Level1Sound(data: seq<seq<int>>, minSupp: int)
    ensures SoundFrom(data, minSupp, Level1(Index(data), minSupp), 1)
    ensures Level(Level1(Index(data), minSupp), 1)
  {
    var positions := Index(data);
    var first := Level1(positions, minSupp);
    Level1Spec(positions, minSupp);
    forall i | 0 <= i < |first| ensures Frequent(data, minSupp, first[i]) && StrictlyAscending(first[i].items) {
      var x := first[i].items[0];
      assert first[i].items == [x];
      IndexSupport(data, x);
    }
  }

  /** The frequent items come in ascending order. */
  lemma Level1Ranked(data: seq<seq<int>>, minSupp: int)
    ensures Ranked(Level1(Index(data), minSupp))
  {
    var first := Level1(Index(data), minSupp);
    Level1Spec(Index(data), minSupp);
    forall i, j | 0 <= i < j < |first| ensures |first[i].items| == |first[j].items| && LexLess(first[i].items, first[j].items) {
      LexLessHead(first[i].items, first[j].items);
    }
  }

  /**
   * Soundness and order of the whole run: every reported entry is a
   * non-empty, strictly ascending itemset carrying its true support, which
   * reaches minSupp; entries come by size, then lexicographically; no
   * itemset is reported twice.
   */
  lemma FrequentItemsetsSound(data: seq<seq<int>>, minSupp: int)
    ensures forall e :: e in FrequentItemsets(data, minSupp) ==> Frequent(data, minSupp, e)
    ensures Ranked(FrequentItemsets(data, minSupp))
    ensures forall i, j :: 0 <= i < j < |FrequentItemsets(data, minSupp)| ==>
      FrequentItemsets(data, minSupp)[i].items != FrequentItemsets(data, minSupp)[j].items
  {
    var first := Level1(Index(data), minSupp);
    PairsCandidates(data, minSupp);
    var rest := Mine(data, minSupp, Pairs(first), 2);
    var r := FrequentItemsets(data, minSupp);
    assert r == first + rest;
    Level1Sound(data, minSupp);
    Level1Ranked(data, minSupp);
    MineSound(data, minSupp, Pairs(first), 2);
    MineRanked(data, minSupp, Pairs(first), 2);
    SoundConcat(data, minSupp, first, rest, 1);
    RankedConcat(data, minSupp, first, rest, 1);
    forall e | e in r ensures Frequent(data, minSupp, e) {
      var i :| 0 <= i < |r| && r[i] == e;
    }
    forall i, j | 0 <= i < j < |r| ensures r[i].items != r[j].items {
      LexLessIrreflexive(r[i].items);
    }
  }

  // ---------------------------------------------------------------------
  // Completeness
  // ---------------------------------------------------------------------

  /** Every frequent, strictly ascending k-itemset is among the candidates, with the candidates' support 0. */
  ghost predicate Covers(data: seq<seq<int>>, minSupp: int, cands: seq<Entry>, k: nat)
  {
    forall c :: |c| == k && StrictlyAscending(c) && Support(data, c) >= minSupp ==> Entry(c, 0) in cands
  }

  /** Every frequent, strictly ascending k-itemset is in f, with its support. */
  ghost predicate Found(data: seq<seq<int>>, minSupp: int, f: seq<Entry>, k: nat)
  {
    forall c :: |c| == k && StrictlyAscending(c) && Support(data, c) >= minSupp ==> Entry(c, Support(data, c)) in f
  }

  /** Pruning a covering candidate list keeps every frequent one. */
  lemma FilterFound(data: seq<seq<int>>, minSupp: int, cands: seq<Entry>, k: nat)
    requires Covers(data, minSupp, cands, k)
    ensures Found(data, minSupp, Filter(data, cands, minSupp), k)
  {
    FilterMembers(data, cands, minSupp);
    forall c | |c| == k && StrictlyAscending(c) && Support(data, c) >= minSupp
      ensures Entry(c, Support(data, c)) in Filter(data, cands, minSupp)
    {
      assert Entry(c, 0) in cands;
      var t :| 0 <= t < |cands| && cands[t] == Entry(c, 0);
      assert KeptAs(data, cands, minSupp, t, Entry(c, Support(data, c)));
    }
  }

  /** Leaving out an item of a strictly ascending itemset keeps it strictly ascending and a subset. */
  lemma DropAt(c: seq<int>, i: nat)
    requires StrictlyAscending(c) && i < |c|
    ensures StrictlyAscending(c[..i] + c[i + 1..])
    ensures forall x :: x in c[..i] + c[i + 1..] ==> x in c
  {
    var d := c[..i] + c[i + 1..];
    assert forall t :: 0 <= t < |d| ==> d[t] == if t < i then c[t] else c[t + 1];
    forall x | x in d ensures x in c {
      var t :| 0 <= t < |d| && d[t] == x;
    }
  }

  /** A frequent prefix: leaving items off the end of a frequent itemset keeps it frequent. */
  lemma PrefixFrequent(data: seq<seq<int>>, c: seq<int>, n: nat)
    requires StrictlyAscending(c) && n <= |c|
    ensures StrictlyAscending(c[..n]) && Support(data, c[..n]) >= Support(data, c)
  {
    assert forall x :: x in c[..n] ==> x in c;
    SupportAntitone(data, c[..n], c);
  }

  /**
   * The stopping rule is safe from level 2 on: a frequent itemset with more
   * than k >= 2 items has at least three distinct frequent k-subsets (drop
   * its first, second-to-last or last of its first k + 1 items), so a level
   * holding all frequent k-itemsets has more than two entries.
   */
  lemma ThreeSubsets(data: seq<seq<int>>, minSupp: int, f: seq<Entry>, k: nat, c: seq<int>)
    requires k >= 2 && Found(data, minSupp, f, k)
    requires |c| > k && StrictlyAscending(c) && Support(data, c) >= minSupp
    ensures |f| >= 3
  {
    var d := c[..k + 1];
    PrefixFrequent(data, c, k + 1);
    var u, v, w := d[..k] + d[k + 1..], d[..k - 1] + d[k..], d[..0] + d[1..];
    DropAt(d, k);
    DropAt(d, k - 1);
    DropAt(d, 0);
    SupportAntitone(data, u, d);
    SupportAntitone(data, v, d);
    SupportAntitone(data, w, d);
    assert Entry(u, Support(data, u)) in f && Entry(v, Support(data, v)) in f && Entry(w, Support(data, w)) in f;
    var iu :| 0 <= iu < |f| && f[iu] == Entry(u, Support(data, u));
    var iv :| 0 <= iv < |f| && f[iv] == Entry(v, Support(data, v));
    var iw :| 0 <= iw < |f| && f[iw] == Entry(w, Support(data, w));
    assert u[k - 1] == d[k - 1] && v[k - 1] == d[k] && d[k - 1] < d[k];
    assert u[0] == d[0] && v[0] == d[0] && w[0] == d[1] && d[0] < d[1];
    assert iu != iv && iu != iw && iv != iw;
  }

  /**
   * The two subsets of d that drop its second-to-last or its last item:
   * strictly ascending, inside d, agreeing below the last item, and joined
   * back into d.
   */
  lemma LastTwo(d: seq<int>, p: seq<int>, a: seq<int>, b: seq<int>)
    requires |d| >= 2 && StrictlyAscending(d)
    requires p == d[..|d| - 2] && a == p + [d[|d| - 2]] && b == p + [d[|d| - 1]]
    ensures |a| == |b| == |d| - 1
    ensures StrictlyAscending(a) && StrictlyAscending(b)
    ensures (forall x :: x in a ==> x in d) && (forall x :: x in b ==> x in d)
    ensures AgreeBelowLast(a, b) && LexLess(a, b)
    ensures Joined(a, b) == d
  {
    assert a == d[..|d| - 1];
    assert forall t :: 0 <= t < |b| ==> b[t] == if t < |d| - 2 then d[t] else d[t + 1];
    forall x | x in b ensures x in d {
      var t :| 0 <= t < |b| && b[t] == x;
    }
    LexLessLast(p, d[|d| - 2], d[|d| - 1]);
  }

  /**
   * Join completeness for frequent itemsets: a frequent (k+1)-itemset d is
   * the join of its two k-subsets that drop the last and the second-to-last
   * item, both frequent, so both in f and adjacent-compatible.
   */
  lemma JoinFindsOne(data: seq<seq<int>>, minSupp: int, f: seq<Entry>, k: nat, d: seq<int>)
    requires k >= 1 && Level(f, k) && LexSorted(f) && Found(data, minSupp, f, k)
    requires |d| == k + 1 && StrictlyAscending(d) && Support(data, d) >= minSupp
    ensures Entry(d, 0) in Join(f)
  {
    var p := d[..k - 1];
    var a, b := p + [d[k - 1]], p + [d[k]];
    LastTwo(d, p, a, b);
    SupportAntitone(data, a, d);
    SupportAntitone(data, b, d);
    assert Entry(a, Support(data, a)) in f && Entry(b, Support(data, b)) in f;
    var ia :| 0 <= ia < |f| && f[ia] == Entry(a, Support(data, a));
    var ib :| 0 <= ib < |f| && f[ib] == Entry(b, Support(data, b));
    LexSortedIndex(f, ia, ib);
    JoinComplete(f, k);
  }

  /** The join of a level holding all frequent k-itemsets covers the frequent (k+1)-itemsets. */
  lemma JoinCovers(data: seq<seq<int>>, minSupp: int, f: seq<Entry>, k: nat)
    requires k >= 1 && Level(f, k) && LexSorted(f) && Found(data, minSupp, f, k)
    ensures Covers(data, minSupp, Join(f), k + 1)
  {
    forall d | |d| == k + 1 && StrictlyAscending(d) && Support(data, d) >= minSupp ensures Entry(d, 0) in Join(f) {
      JoinFindsOne(data, minSupp, f, k, d);
    }
  }

  /** A level holding all frequent k-itemsets followed by all frequent larger ones holds all of at least k items. */
  lemma FoundThenRest(data: seq<seq<int>>, minSupp: int, f: seq<Entry>, rest: seq<Entry>, k: nat)
    requires Found(data, minSupp, f, k)
    requires forall c :: (|c| >= k + 1 && StrictlyAscending(c) && Support(data, c) >= minSupp
                          ==> Entry(c, Support(data, c)) in rest)
    ensures forall c :: (|c| >= k && StrictlyAscending(c) && Support(data, c) >= minSupp
                         ==> Entry(c, Support(data, c)) in f + rest)
  {
    forall c | |c| >= k && StrictlyAscending(c) && Support(data, c) >= minSupp
      ensures Entry(c, Support(data, c)) in f + rest
    {
      if |c| == k {
        assert Entry(c, Support(data, c)) in f;
      } else {
        assert Entry(c, Support(data, c)) in rest;
      }
    }
  }

  /** A level k >= 2 holding all frequent k-itemsets, but at most two entries, leaves no larger frequent itemset out. */
  lemma StopFound(data: seq<seq<int>>, minSupp: int, f: seq<Entry>, k: nat)
    requires k >= 2 && Found(data, minSupp, f, k) && |f| <= 2
    ensures forall c :: (|c| >= k && StrictlyAscending(c) && Support(data, c) >= minSupp
                         ==> Entry(c, Support(data, c)) in f)
  {
    forall c | |c| >= k && StrictlyAscending(c) && Support(data, c) >= minSupp
      ensures Entry(c, Support(data, c)) in f
    {
      if |c| > k {
        ThreeSubsets(data, minSupp, f, k, c);
        assert false;
      }
    }
  }

  /** With more than two survivors, the join of a covering level is a covering level one up. */
  lemma JoinReady(data: seq<seq<int>>, minSupp: int, cands: seq<Entry>, k: nat)
    requires Candidates(data, cands, k) && Covers(data, minSupp, cands, k)
    requires |Filter(data, cands, minSupp)| > 2
    ensures k <= |ItemSet(data)| && NonEmptyItems(Filter(data, cands, minSupp))
    ensures Candidates(data, Join(Filter(data, cands, minSupp)), k + 1)
    ensures Covers(data, minSupp, Join(Filter(data, cands, minSupp)), k + 1)
  {
    var f := Filter(data, cands, minSupp);
    FilterFound(data, minSupp, cands, k);
    FilterShape(data, cands, minSupp, k);
    MineStep(data, minSupp, cands, k);
    JoinCovers(data, minSupp, f, k);
  }

  /** A continuing round reports the frequent k-itemsets, followed by the larger ones the later rounds report. */
  lemma MineCompleteStep(data: seq<seq<int>>, minSupp: int, cands: seq<Entry>, k: nat)
    requires Candidates(data, cands, k) && Covers(data, minSupp, cands, k)
    requires |Filter(data, cands, minSupp)| > 2 && NonEmptyItems(Filter(data, cands, minSupp))
    requires Candidates(data, Join(Filter(data, cands, minSupp)), k + 1)
    requires forall c :: (|c| >= k + 1 && StrictlyAscending(c) && Support(data, c) >= minSupp
                          ==> Entry(c, Support(data, c)) in Mine(data, minSupp, Join(Filter(data, cands, minSupp)), k + 1))
    ensures forall c :: (|c| >= k && StrictlyAscending(c) && Support(data, c) >= minSupp
                         ==> Entry(c, Support(data, c)) in Mine(data, minSupp, cands, k))
  {
    var f := Filter(data, cands, minSupp);
    FilterFound(data, minSupp, cands, k);
    MineUnfold(data, minSupp, cands, k);
    FoundThenRest(data, minSupp, f, Mine(data, minSupp, Join(f), k + 1), k);
  }

  /** A stopping round from level 2 on leaves no frequent itemset of at least k items out. */
  lemma MineCompleteStop(data: seq<seq<int>>, minSupp: int, cands: seq<Entry>, k: nat)
    requires Candidates(data, cands, k) && Covers(data, minSupp, cands, k) && k >= 2
    requires |Filter(data, cands, minSupp)| <= 2
    ensures forall c :: (|c| >= k && StrictlyAscending(c) && Support(data, c) >= minSupp
                         ==> Entry(c, Support(data, c)) in Mine(data, minSupp, cands, k))
  {
    FilterFound(data, minSupp, cands, k);
    MineUnfold(data, minSupp, cands, k);
    StopFound(data, minSupp, Filter(data, cands, minSupp), k);
  }

  /** From a covering level k >= 2 on, the rounds report every frequent itemset of at least k items. */
  lemma {:induction false} MineComplete(data: seq<seq<int>>, minSupp: int, cands: seq<Entry>, k: nat)
    requires Candidates(data, cands, k) && k >= 2
    requires Covers(data, minSupp, cands, k)
    ensures forall c :: (|c| >= k && StrictlyAscending(c) && Support(data, c) >= minSupp
                         ==> Entry(c, Support(data, c)) in Mine(data, minSupp, cands, k))
    decreases |ItemSet(data)| + 1 - k
  {
    if |Filter(data, cands, minSupp)| > 2 {
      JoinReady(data, minSupp, cands, k);
      MineComplete(data, minSupp, Join(Filter(data, cands, minSupp)), k + 1);
      MineCompleteStep(data, minSupp, cands, k);
    } else {
      MineCompleteStop(data, minSupp, cands, k);
    }
  }

  /** A frequent item (threshold at least 1) is among the frequent items, with its support. */
  lemma Level1Finds(data: seq<seq<int>>, minSupp: int, x: int)
    requires minSupp >= 1 && Support(data, [x]) >= minSupp
    ensures x in ItemSet(data)
    ensures Entry([x], Support(data, [x])) in Level1(Index(data), minSupp)
  {
    CountWitness(data, [x], |data|);
    var r :| 0 <= r < |data| && Contains(data[r], [x]);
    assert x in data[r];
    IndexSupport(data, x);
    Level1Spec(Index(data), minSupp);
  }

  /** Two frequent items x < y give the candidate {x, y}. */
  lemma PairOf(first: seq<Entry>, x: int, y: int, sx: int, sy: int)
    requires AscendingFirsts(first) && x < y
    requires Entry([x], sx) in first && Entry([y], sy) in first
    ensures Entry([x, y], 0) in Pairs(first)
  {
    var a :| 0 <= a < |first| && first[a] == Entry([x], sx);
    var b :| 0 <= b < |first| && first[b] == Entry([y], sy);
    assert first[a].items[0] == x && first[b].items[0] == y;
    assert a < b;
    PairsMembers(first);
    assert Pair(first, a, b) == Entry([x, y], 0);
  }

  /** With a positive threshold, the pairs of frequent items cover the frequent 2-itemsets. */
  lemma PairsCover(data: seq<seq<int>>, minSupp: int)
    requires minSupp >= 1
    ensures Covers(data, minSupp, Pairs(Level1(Index(data), minSupp)), 2)
  {
    var first := Level1(Index(data), minSupp);
    Level1Spec(Index(data), minSupp);
    forall c | |c| == 2 && StrictlyAscending(c) && Support(data, c) >= minSupp
      ensures Entry(c, 0) in Pairs(first)
    {
      var x, y := c[0], c[1];
      assert c == [x, y];
      SupportAntitone(data, [x], c);
      SupportAntitone(data, [y], c);
      Level1Finds(data, minSupp, x);
      Level1Finds(data, minSupp, y);
      PairOf(first, x, y, Support(data, [x]), Support(data, [y]));
    }
  }

  /**
   * Completeness of the whole run (threshold at least 1): every non-empty,
   * strictly ascending itemset whose support reaches minSupp is reported
   * with its support, the stopping rule notwithstanding.
   */
  lemma FrequentItemsetsComplete(data: seq<seq<int>>, minSupp: int)
    requires minSupp >= 1
    ensures forall c :: (c != [] && StrictlyAscending(c) && Support(data, c) >= minSupp
                         ==> Entry(c, Support(data, c)) in FrequentItemsets(data, minSupp))
  {
    var first := Level1(Index(data), minSupp);
    PairsCandidates(data, minSupp);
    PairsCover(data, minSupp);
    MineComplete(data, minSupp, Pairs(first), 2);
    assert FrequentItemsets(data, minSupp) == first + Mine(data, minSupp, Pairs(first), 2);
    forall c | c != [] && StrictlyAscending(c) && Support(data, c) >= minSupp
      ensures Entry(c, Support(data, c)) in FrequentItemsets(data, minSupp)
    {
      if |c| == 1 {
        assert c == [c[0]];
        Level1Finds(data, minSupp, c[0]);
      }
    }
  }
}
