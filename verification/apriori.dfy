/**
 * The AprioriAlgorithm object: the posting-list map, the current level's
 * candidates and frequent itemsets, the accumulated results and the done
 * flag, updated in place by readFile, firstStep, findSupport and
 * createItemset, and driven by compute until createItemset sets done.
 * Every method is proved against the specification functions of Itemsets,
 * Levels and Mining; compute returns exactly FrequentItemsets(rows, 2).
 */
module Apriori {
  import opened Itemsets
  import opened Levels
  import opened Mining

  /** The keys of a fresh posting-list map filled from rows are the items of rows. */
  lemma FreshKeys(positions: map<int, seq<int>>, rows: seq<seq<int>>)
    requires forall x :: x in positions <==> RowsWith(rows, x, |rows|) != []
    ensures positions.Keys == Index(rows).Keys
  {
    forall x ensures x in positions <==> x in Index(rows) {
      ItemSetPostings(rows, x);
    }
  }

  /** Two maps with the same keys and the same lookups are equal. */
  lemma LookupExtensional(m: map<int, seq<int>>, n: map<int, seq<int>>)
    requires m.Keys == n.Keys
    requires forall x :: Lookup(m, x) == Lookup(n, x)
    ensures m == n
  {
    forall x | x in m ensures m[x] == n[x] {
      assert Lookup(m, x) == Lookup(n, x);
    }
  }

  /** A fresh posting-list map filled from rows is the map of all posting lists of rows. */
  lemma FreshIndex(positions: map<int, seq<int>>, rows: seq<seq<int>>)
    requires forall x :: Lookup(positions, x) == RowsWith(rows, x, |rows|)
    requires forall x :: x in positions <==> RowsWith(rows, x, |rows|) != []
    ensures positions == Index(rows)
  {
    FreshKeys(positions, rows);
    forall x ensures Lookup(positions, x) == Lookup(Index(rows), x) {
      ItemSetPostings(rows, x);
    }
    LookupExtensional(positions, Index(rows));
  }

  /**
   * One item x across one row of readFile: if x's list was its old list
   * followed by its rows among [0, r), and row r then appends r when it
   * holds x, the list is the old one followed by its rows among [0, r].
   */
  lemma AddRowStep(rows: seq<seq<int>>, x: int, r: nat, l0: seq<int>, l1: seq<int>, l2: seq<int>, k0: bool, k1: bool, k2: bool)
    requires r < |rows|
    requires l1 == l0 + RowsWith(rows, x, r) && (k1 <==> k0 || RowsWith(rows, x, r) != [])
    requires l2 == l1 + (if x in rows[r] then [r] else []) && (k2 <==> k1 || x in rows[r])
    ensures l2 == l0 + RowsWith(rows, x, r + 1) && (k2 <==> k0 || RowsWith(rows, x, r + 1) != [])
  {
    var tail := if x in rows[r] then [r] else [];
    assert RowsWith(rows, x, r + 1) == RowsWith(rows, x, r) + tail;
    AppendAssoc(l0, RowsWith(rows, x, r), tail);
  }

  /** Candidates of a level can be counted: non-empty, strictly ascending, and made of keys of the map. */
  predicate Countable(cands: seq<Entry>, keys: set<int>)
  {
    forall i :: 0 <= i < |cands| ==> cands[i].items != [] && StrictlyAscending(cands[i].items) && Within(cands[i].items, keys)
  }

  /** Candidates over the items of data can be counted against the posting-list map of data. */
  lemma CandidatesCountable(data: seq<seq<int>>, cands: seq<Entry>, k: nat)
    requires Candidates(data, cands, k)
    ensures Countable(cands, Index(data).Keys)
  {
    assert Index(data).Keys == ItemSet(data);
  }

  class AprioriAlgorithm {
    /** The minimum support threshold: an itemset is frequent when its support is at least this. */
    const minSupp: int := 2
    /** Each item to the ascending rows that hold it (std::map<int, vector<int>>). */
    var positions: map<int, seq<int>>
    /** The frequent itemsets of the current level, with their supports. */
    var freqItemset: seq<Entry>
    /** The candidates of the current level, with support 0. */
    var itemset: seq<Entry>
    /** Every frequent itemset found so far, level after level. */
    var results: seq<Entry>
    /** The transactions as read, one sequence of items per row. */
    var originalData: seq<seq<int>>
    /** Set once a level has at most two frequent itemsets. */
    var done: bool

    /** Threshold 2, not done, every container empty. */
    constructor()
      ensures !done && positions == map[] && originalData == []
      ensures freqItemset == [] && itemset == [] && results == []
    {
      done := false;
      positions := map[];
      freqItemset := [];
      itemset := [];
      results := [];
      originalData := [];
    }

    /**
     * The inner loop of readFile: append row index r to the posting list of
     * every item of one transaction, creating the lists that are missing.
     */
    method AddRow(r: int, items: seq<int>)
      requires StrictlyAscending(items)
      modifies this`positions
      ensures forall x :: Lookup(positions, x) == Lookup(old(positions), x) + (if x in items then [r] else [])
      ensures forall x :: x in positions <==> x in old(positions) || x in items
    {
      var t := 0;
      while t < |items|
        invariant 0 <= t <= |items|
        invariant forall x :: Lookup(positions, x) == Lookup(old(positions), x) + (if x in items[..t] then [r] else [])
        invariant forall x :: x in positions <==> x in old(positions) || x in items[..t]
      {
        var item := items[t];
        TakeSnoc(items, t);
        assert item !in items[..t];
        positions := positions[item := Lookup(positions, item) + [r]];
        t := t + 1;
      }
      assert items[..t] == items;
    }

    /**
     * readFile after parsing: returns the rows and appends every row index
     * r to the posting list of every item of row r, creating missing lists.
     */
    method ReadFile(rows: seq<seq<int>>) returns (data: seq<seq<int>>)
      requires WellFormed(rows)
      modifies this`positions
      ensures data == rows
      ensures forall x :: Lookup(positions, x) == Lookup(old(positions), x) + RowsWith(rows, x, |rows|)
      ensures forall x :: x in positions <==> x in old(positions) || RowsWith(rows, x, |rows|) != []
    {
      data := [];
      var row := 0;
      while row < |rows|
        invariant 0 <= row <= |rows| && data == rows[..row]
        invariant forall x :: Lookup(positions, x) == Lookup(old(positions), x) + RowsWith(rows, x, row)
        invariant forall x :: x in positions <==> x in old(positions) || RowsWith(rows, x, row) != []
      {
        ghost var before := positions;
        AddRow(row, rows[row]);
        forall x ensures (Lookup(positions, x) == Lookup(old(positions), x) + RowsWith(rows, x, row + 1)
                          && (x in positions <==> x in old(positions) || RowsWith(rows, x, row + 1) != []))
        {
          AddRowStep(rows, x, row, Lookup(old(positions), x), Lookup(before, x), Lookup(positions, x),
                     x in old(positions), x in before, x in positions);
        }
        data := data + [rows[row]];
        TakeSnoc(rows, row);
        row := row + 1;
      }
      assert rows[..row] == rows;
    }

    /**
     * The pruning loop of firstStep: walk the keys of the map in ascending
     * order and keep {x}, with its posting-list length as support, when that
     * length reaches minSupp.
     */
    method FrequentKeys() returns (frequent: seq<Entry>)
      ensures frequent == Level1(positions, minSupp)
    {
      var keys := Ascending(positions.Keys);
      frequent := [];
      var t := 0;
      while t < |keys|
        invariant 0 <= t <= |keys|
        invariant frequent == FrequentItems(positions, keys[..t], minSupp)
      {
        var x := keys[t];
        FrequentItemsSnoc(positions, keys, t, minSupp);
        if |positions[x]| >= minSupp {
          frequent := frequent + [Entry([x], |positions[x]|)];
        }
        t := t + 1;
      }
      assert keys[..t] == keys;
    }

    /** The pairing loops of firstStep: {f[i][0], f[j][0]} for every i < j, in (i, j) order. */
    static method MakePairs(f: seq<Entry>) returns (pairs: seq<Entry>)
      requires NonEmptyItems(f)
      ensures pairs == Pairs(f)
    {
      pairs := [];
      var i := 0;
      while i < |f|
        invariant 0 <= i <= |f|
        invariant pairs == PairsUpTo(f, i)
      {
        var j := i + 1;
        while j < |f|
          invariant i + 1 <= j <= |f|
          invariant pairs == PairsUpTo(f, i) + PairRow(f, i, j)
        {
          pairs := pairs + [Entry([f[i].items[0], f[j].items[0]], 0)];
          j := j + 1;
        }
        i := i + 1;
      }
    }

    /**
     * firstStep: the frequent items, in ascending order, are appended to the
     * current level and to the results, and every pair of the current level's
     * entries, in order, to the candidates.
     */
    method FirstStep()
      requires NonEmptyItems(freqItemset)
      modifies this`freqItemset, this`results, this`itemset
      ensures freqItemset == old(freqItemset) + Level1(positions, minSupp)
      ensures results == old(results) + freqItemset
      ensures NonEmptyItems(freqItemset) && itemset == old(itemset) + Pairs(freqItemset)
    {
      var frequent := FrequentKeys();
      freqItemset := freqItemset + frequent;
      results := results + freqItemset;
      var pairs := MakePairs(freqItemset);
      itemset := itemset + pairs;
    }

    /** The pivot of findSupport: the first index of c whose item has the shortest posting list. */
    method Pivot(c: seq<int>) returns (m: nat)
      requires c != [] && forall t :: 0 <= t < |c| ==> c[t] in positions
      ensures m < |c|
      ensures forall j :: 0 <= j < |c| ==> |positions[c[m]]| <= |positions[c[j]]|
      ensures forall j :: 0 <= j < m ==> |positions[c[m]]| < |positions[c[j]]|
    {
      m := 0;
      var j := 1;
      while j < |c|
        invariant 1 <= j <= |c| && m < j
        invariant forall t :: 0 <= t < j ==> |positions[c[m]]| <= |positions[c[t]]|
        invariant forall t :: 0 <= t < m ==> |positions[c[m]]| < |positions[c[t]]|
      {
        if |positions[c[m]]| > |positions[c[j]]| {
          m := j;
        }
        j := j + 1;
      }
    }

    /**
     * The count of findSupport: walk the posting list of the pivot x and
     * test each of its rows with the sorted containment test. Any item of c
     * works as pivot; the result is the support of c over all rows.
     */
    method CountFrom(c: seq<int>, x: int) returns (support: int)
      requires WellFormed(originalData) && StrictlyAscending(c) && x in c
      requires x in positions && positions[x] == RowsWith(originalData, x, |originalData|)
      ensures support == Support(originalData, c)
    {
      var rows := positions[x];
      PivotCount(originalData, x, c, |originalData|);
      support := 0;
      var k := 0;
      while k < |rows|
        invariant 0 <= k <= |rows| && RowsIn(originalData, rows[..k])
        invariant support == CountOver(originalData, rows[..k], c)
      {
        var row := originalData[rows[k]];
        TakeSnoc(rows, k);
        CountOverSnoc(originalData, rows[..k], rows[k], c);
        if Includes(row, c) {
          support := support + 1;
        }
        k := k + 1;
      }
      assert rows[..k] == rows;
    }

    /**
     * findSupport: count every candidate from its pivot's posting list,
     * keep those whose support reaches minSupp, with that support, and add
     * them to the results.
     */
    method FindSupport()
      requires WellFormed(originalData) && positions == Index(originalData)
      requires Countable(itemset, positions.Keys)
      modifies this`freqItemset, this`results
      ensures freqItemset == Filter(originalData, itemset, minSupp)
      ensures results == old(results) + freqItemset
    {
      freqItemset := [];
      var i := 0;
      while i < |itemset|
        invariant 0 <= i <= |itemset| && results == old(results)
        invariant freqItemset == Filter(originalData, itemset[..i], minSupp)
      {
        var c := itemset[i].items;
        assert Within(c, positions.Keys);
        forall t | 0 <= t < |c| ensures c[t] in positions {
          assert c[t] in c;
        }
        var m := Pivot(c);
        assert c[m] in ItemSet(originalData);
        var support := CountFrom(c, c[m]);
        FilterSnoc(originalData, itemset, i, minSupp);
        if support >= minSupp {
          freqItemset := freqItemset + [Entry(c, support)];
        }
        i := i + 1;
      }
      assert itemset[..i] == itemset;
      results := results + freqItemset;
    }

    /**
     * compare: whether i and j agree at every index below min(|i|, |j|) - 1,
     * that is, everywhere but the last position.
     */
    static method Compare(i: seq<int>, j: seq<int>) returns (same: bool)
      ensures same <==> AgreeBelowLast(i, j)
    {
      var size := if |i| > |j| then |j| else |i|;
      var k := 0;
      while k < size - 1
        invariant size <= |i| && size <= |j|
        invariant 0 <= k && (k == 0 || k < size)
        invariant forall t :: 0 <= t < k ==> i[t] == j[t]
      {
        if i[k] != j[k] {
          return false;
        }
        k := k + 1;
      }
      return true;
    }

    /**
     * The inner loop of createItemset for one i: join f[i] with f[i+1],
     * f[i+2], ... while compare accepts the pair and j stays inside f.
     */
    static method JoinRun(f: seq<Entry>, i: nat) returns (run: seq<Entry>)
      requires NonEmptyItems(f) && i + 1 < |f|
      ensures run == RunFrom(f, i, i + 1)
    {
      run := [];
      var j := i + 1;
      var more := Compare(f[i].items, f[j].items);
      while more
        invariant i < j <= |f|
        invariant more ==> j < |f| && AgreeBelowLast(f[i].items, f[j].items)
        invariant !more ==> RunFrom(f, i, j) == []
        invariant run + RunFrom(f, i, j) == RunFrom(f, i, i + 1)
        decreases |f| - j
      {
        var e := Entry(f[i].items + [f[j].items[|f[j].items| - 1]], 0);
        assert RunFrom(f, i, j) == [e] + RunFrom(f, i, j + 1);
        AppendAssoc(run, [e], RunFrom(f, i, j + 1));
        run := run + [e];
        j := j + 1;
        more := false;
        if j < |f| {
          more := Compare(f[i].items, f[j].items);
        }
      }
    }

    /** The outer loop of createItemset: the runs of f[0], f[1], ..., f[|f| - 2], in order. */
    static method JoinAll(f: seq<Entry>) returns (joins: seq<Entry>)
      requires NonEmptyItems(f)
      ensures joins == Join(f)
    {
      joins := [];
      var i := 0;
      while i + 1 < |f|
        invariant 0 <= i && (i <= |f| - 1 || i == 0)
        invariant joins + JoinFrom(f, i) == Join(f)
      {
        var run := JoinRun(f, i);
        assert JoinFrom(f, i) == run + JoinFrom(f, i + 1);
        AppendAssoc(joins, run, JoinFrom(f, i + 1));
        joins := joins + run;
        i := i + 1;
      }
      assert JoinFrom(f, i) == [];
      assert joins + [] == joins;
    }

    /**
     * createItemset: with more than two frequent itemsets, join every f[i]
     * with the following f[j] that agree with it below the last item (j
     * kept inside f); otherwise clear the candidates and set done.
     */
    method CreateItemset()
      requires NonEmptyItems(freqItemset)
      modifies this`itemset, this`done
      ensures |freqItemset| > 2 ==> itemset == Join(freqItemset) && done == old(done)
      ensures |freqItemset| <= 2 ==> itemset == [] && done
    {
      if |freqItemset| > 2 {
        itemset := JoinAll(freqItemset);
      } else {
        itemset := [];
        done := true;
      }
    }

    /** The loop state of compute at level k, on this object's fields. */
    ghost predicate Progress(k: nat, goal: seq<Entry>)
      reads this
    {
      Pending(originalData, minSupp, positions, itemset, results, done, k, goal)
    }

    /**
     * One pass of compute's loop body, findSupport then createItemset, on
     * level-k candidates: the frequent ones become freqItemset and are added
     * to the results; with more than two of them the candidates become their
     * join, otherwise the candidates are cleared and done is set. The loop
     * state moves one level up, or to done.
     */
    method Round(ghost k: nat, ghost goal: seq<Entry>)
      requires !done && Progress(k, goal)
      modifies this`freqItemset, this`results, this`itemset, this`done
      ensures freqItemset == Filter(originalData, old(itemset), minSupp) && NonEmptyItems(freqItemset)
      ensures results == old(results) + freqItemset
      ensures |freqItemset| > 2 ==> itemset == Join(freqItemset) && !done
      ensures |freqItemset| <= 2 ==> itemset == [] && done
      ensures done ==> Progress(k, goal)
      ensures !done ==> k <= |ItemSet(originalData)| && Progress(k + 1, goal)
    {
      ghost var before := results;
      ghost var f := Filter(originalData, itemset, minSupp);
      MineUnfold(originalData, minSupp, itemset, k);
      CandidatesCountable(originalData, itemset, k);
      FindSupport();
      CreateItemset();
      if !done {
        AppendAssoc(before, f, Mine(originalData, minSupp, itemset, k + 1));
      }
    }

    /**
     * The while(!done) loop of compute: it runs until done, keeping the loop
     * state, and ends on a level with at most two frequent itemsets and no
     * candidates.
     */
    method Rounds(ghost level: nat, ghost goal: seq<Entry>)
      requires !done && Progress(level, goal)
      modifies this`freqItemset, this`results, this`itemset, this`done
      ensures done && results == goal
      ensures itemset == [] && |freqItemset| <= 2
    {
      ghost var k := level;
      while !done
        invariant Progress(k, goal)
        invariant done ==> itemset == [] && |freqItemset| <= 2
        decreases if done then 0 else 1, |ItemSet(originalData)| + 1 - k
      {
        Round(k, goal);
        if !done {
          k := k + 1;
        }
      }
    }

    /**
     * originalData = readFile(...) on an empty map: the rows are stored and
     * the map becomes the posting-list index of the rows.
     */
    method Load(rows: seq<seq<int>>)
      requires WellFormed(rows) && positions == map[]
      modifies this`positions, this`originalData
      ensures originalData == rows && positions == Index(rows)
    {
      originalData := ReadFile(rows);
      FreshIndex(positions, rows);
    }

    /**
     * The rest of compute once the rows are loaded: firstStep, then the
     * while(!done) loop. The results are the frequent itemsets of the rows.
     */
    method FirstStepAndRounds()
      requires WellFormed(originalData) && positions == Index(originalData)
      requires !done && freqItemset == [] && itemset == [] && results == []
      modifies this`freqItemset, this`results, this`itemset, this`done
      ensures done && results == FrequentItemsets(originalData, minSupp)
      ensures itemset == [] && |freqItemset| <= 2
    {
      FirstStep();
      PendingStart(originalData, minSupp, freqItemset, results, itemset);
      Rounds(2, FrequentItemsets(originalData, minSupp));
    }

    /**
     * compute on a freshly constructed object: read the rows, take the first
     * step, then alternate findSupport and createItemset until done. The
     * results are the frequent itemsets of the rows for threshold 2.
     */
    method Compute(rows: seq<seq<int>>)
      requires WellFormed(rows)
      requires !done && positions == map[] && freqItemset == [] && itemset == [] && results == []
      modifies this
      ensures done && originalData == rows && positions == Index(rows)
      ensures results == FrequentItemsets(rows, minSupp)
      ensures itemset == [] && |freqItemset| <= 2
    {
      Load(rows);
      FirstStepAndRounds();
    }
  }
}
