/**
 * Items, transactions and itemsets of the Apriori miner, the brute-force
 * support every counted support is measured against, the per-item posting
 * lists (row indices of the transactions holding an item) and the sorted
 * containment test the miner uses to count.
 */
module Itemsets {

  /** An itemset paired with a support count: a candidate carries 0, a frequent itemset its support. */
  datatype Entry = Entry(items: seq<int>, support: int)

  /** Items in strictly ascending order: sorted and free of duplicates. */
  predicate StrictlyAscending(s: seq<int>)
  {
    forall i, j :: 0 <= i < j < |s| ==> s[i] < s[j]
  }

  /** Every transaction is stored strictly ascending. */
  predicate WellFormed(data: seq<seq<int>>)
  {
    forall r :: 0 <= r < |data| ==> StrictlyAscending(data[r])
  }

  /** Set containment: every item of c occurs in the transaction. */
  predicate Contains(transaction: seq<int>, c: seq<int>)
  {
    forall x :: x in c ==> x in transaction
  }

  /**
   * The merge-style subset test of std::includes on two sorted ranges:
   * walk the transaction, step over smaller items, consume equal ones.
   */
  function Includes(transaction: seq<int>, c: seq<int>): (r: bool)
    requires StrictlyAscending(transaction) && StrictlyAscending(c)
    ensures r <==> Contains(transaction, c)
    decreases |transaction|
  {
    if c == [] then true
    else if transaction == [] then
      assert c[0] in c;
      false
    else if c[0] < transaction[0] then
      assert c[0] in c && c[0] !in transaction;
      false
    else if transaction[0] < c[0] then
      assert transaction[0] !in c;
      assert forall x :: x in c ==> (x in transaction <==> x in transaction[1..]);
      Includes(transaction[1..], c)
    else
      assert forall x :: x in c[1..] ==> (x in transaction <==> x in transaction[1..]);
      assert forall x :: x in c <==> x == c[0] || x in c[1..];
      Includes(transaction[1..], c[1..])
  }

  /** Concatenation is associative. */
  lemma AppendAssoc<T>(a: seq<T>, b: seq<T>, c: seq<T>)
    ensures a + b + c == a + (b + c)
  {
  }

  /** Taking one more element of a sequence appends that element. */
  lemma TakeSnoc<T>(s: seq<T>, t: nat)
    requires t < |s|
    ensures s[..t + 1] == s[..t] + [s[t]]
  {
  }

  /** Number of the first n transactions that contain every item of c. */
  function Count(data: seq<seq<int>>, c: seq<int>, n: nat): nat
    requires n <= |data|
  {
    if n == 0 then 0
    else Count(data, c, n - 1) + (if Contains(data[n - 1], c) then 1 else 0)
  }

  /** Support of c: how many transactions of the whole data set are supersets of c. */
  function Support(data: seq<seq<int>>, c: seq<int>): nat
  {
    Count(data, c, |data|)
  }

  /** All row indices of a list point into the data set. */
  predicate RowsIn(data: seq<seq<int>>, rows: seq<int>)
  {
    forall k :: 0 <= k < |rows| ==> 0 <= rows[k] < |data|
  }

  /** Number of the listed rows whose transaction contains every item of c. */
  function CountOver(data: seq<seq<int>>, rows: seq<int>, c: seq<int>): nat
    requires RowsIn(data, rows)
  {
    if rows == [] then 0
    else
      var last := rows[|rows| - 1];
      CountOver(data, rows[..|rows| - 1], c) + (if Contains(data[last], c) then 1 else 0)
  }

  /**
   * The posting list of item x over the first n transactions: the row
   * indices holding x, appended in row order.
   */
  function RowsWith(data: seq<seq<int>>, x: int, n: nat): (rows: seq<int>)
    requires n <= |data|
    ensures StrictlyAscending(rows)
    ensures forall k :: 0 <= k < |rows| ==> 0 <= rows[k] < n
  {
    if n == 0 then []
    else
      var prev := RowsWith(data, x, n - 1);
      prev + (if x in data[n - 1] then [n - 1] else [])
  }

  /** Row r is on x's posting list exactly when transaction r holds x. */
  lemma {:induction false} PostingMembers(data: seq<seq<int>>, x: int, n: nat)
    requires n <= |data|
    ensures forall r :: r in RowsWith(data, x, n) <==> 0 <= r < n && x in data[r]
  {
    if n > 0 {
      PostingMembers(data, x, n - 1);
    }
  }

  /** Every item occurring in some transaction. */
  function ItemSet(data: seq<seq<int>>): set<int>
  {
    set r, x | 0 <= r < |data| && x in data[r] :: x
  }

  /** The posting-list map: each occurring item to the ascending rows that hold it. */
  function Index(data: seq<seq<int>>): map<int, seq<int>>
  {
    map x | x in ItemSet(data) :: RowsWith(data, x, |data|)
  }

  /** The posting list of x in a map, or the empty list a fresh std::map entry starts from. */
  function Lookup(positions: map<int, seq<int>>, x: int): seq<int>
  {
    if x in positions then positions[x] else []
  }

  /** An item occurs somewhere exactly when its posting list is not empty. */
  lemma ItemSetPostings(data: seq<seq<int>>, x: int)
    ensures x in ItemSet(data) <==> RowsWith(data, x, |data|) != []
  {
    var rows := RowsWith(data, x, |data|);
    PostingMembers(data, x, |data|);
    if x in ItemSet(data) {
      var r :| 0 <= r < |data| && x in data[r];
      assert r in rows;
    }
    if rows != [] {
      assert rows[0] in rows;
      assert x in data[rows[0]];
    }
  }

  /** The length of a posting list is the support of the one-item set. */
  lemma {:induction false} PostingLength(data: seq<seq<int>>, x: int, n: nat)
    requires n <= |data|
    ensures |RowsWith(data, x, n)| == Count(data, [x], n)
  {
    if n > 0 {
      PostingLength(data, x, n - 1);
      assert Contains(data[n - 1], [x]) <==> x in data[n - 1];
    }
  }

  /** Counting the rows of a list extended by one row adds that row's test. */
  lemma CountOverSnoc(data: seq<seq<int>>, rows: seq<int>, r: int, c: seq<int>)
    requires RowsIn(data, rows) && 0 <= r < |data|
    ensures RowsIn(data, rows + [r])
    ensures CountOver(data, rows + [r], c) == CountOver(data, rows, c) + (if Contains(data[r], c) then 1 else 0)
  {
    assert (rows + [r])[..|rows|] == rows;
  }

  /**
   * Pivot correctness: when x is one of the candidate's items, counting only
   * the rows of x's posting list gives the support over all transactions.
   */
  lemma {:induction false} PivotCount(data: seq<seq<int>>, x: int, c: seq<int>, n: nat)
    requires n <= |data| && x in c
    ensures RowsIn(data, RowsWith(data, x, n))
    ensures CountOver(data, RowsWith(data, x, n), c) == Count(data, c, n)
  {
    if n > 0 {
      PivotCount(data, x, c, n - 1);
      PivotStep(data, x, c, n);
    }
  }

  /** One row of PivotCount's induction: the new row joins the posting list exactly when it holds x. */
  lemma PivotStep(data: seq<seq<int>>, x: int, c: seq<int>, n: nat)
    requires 0 < n <= |data| && x in c
    ensures RowsIn(data, RowsWith(data, x, n - 1)) && RowsIn(data, RowsWith(data, x, n))
    ensures CountOver(data, RowsWith(data, x, n), c)
         == CountOver(data, RowsWith(data, x, n - 1), c) + (if Contains(data[n - 1], c) then 1 else 0)
  {
    var prev := RowsWith(data, x, n - 1);
    if x in data[n - 1] {
      CountOverSnoc(data, prev, n - 1, c);
    } else {
      assert prev + [] == prev;
    }
  }

  /** Support is antitone: a superset of an itemset is contained in no more transactions. */
  lemma {:induction false} CountAntitone(data: seq<seq<int>>, s: seq<int>, t: seq<int>, n: nat)
    requires n <= |data|
    requires forall x :: x in s ==> x in t
    ensures Count(data, t, n) <= Count(data, s, n)
  {
    if n > 0 {
      CountAntitone(data, s, t, n - 1);
    }
  }

  /** support(S ∪ more) <= support(S) over the whole data set. */
  lemma SupportAntitone(data: seq<seq<int>>, s: seq<int>, t: seq<int>)
    requires forall x :: x in s ==> x in t
    ensures Support(data, t) <= Support(data, s)
  {
    CountAntitone(data, s, t, |data|);
  }

  /** A positive count means some transaction contains the itemset. */
  lemma {:induction false} CountWitness(data: seq<seq<int>>, c: seq<int>, n: nat)
    requires n <= |data| && Count(data, c, n) > 0
    ensures exists r :: 0 <= r < n && Contains(data[r], c)
  {
    if !Contains(data[n - 1], c) {
      CountWitness(data, c, n - 1);
    }
  }

  /** A strictly ascending sequence drawn from a set has no more elements than the set. */
  lemma {:induction false} AscendingLengthBound(s: seq<int>, items: set<int>)
    requires StrictlyAscending(s)
    requires forall x :: x in s ==> x in items
    ensures |s| <= |items|
  {
    if s != [] {
      assert forall x :: x in s[1..] ==> x in items - {s[0]};
      AscendingLengthBound(s[1..], items - {s[0]});
    }
  }

  /**
   * Lexicographic order on item sequences: equal up to some position p,
   * smaller at p.
   */
  predicate LexLess(a: seq<int>, b: seq<int>)
  {
    exists p :: 0 <= p < |a| && p < |b| && a[..p] == b[..p] && a[p] < b[p]
  }

  /** Pairwise strictly increasing in lexicographic order (so also duplicate-free). */
  predicate LexSorted(f: seq<Entry>)
  {
    forall i, j :: 0 <= i < j < |f| ==> LexLess(f[i].items, f[j].items)
  }

  /** A lexicographically smaller sequence stays smaller when both are extended. */
  lemma LexLessExtend(a: seq<int>, b: seq<int>, x: seq<int>, y: seq<int>)
    requires LexLess(a, b)
    ensures LexLess(a + x, b + y)
  {
    var p :| 0 <= p < |a| && p < |b| && a[..p] == b[..p] && a[p] < b[p];
    assert (a + x)[..p] == a[..p] && (b + y)[..p] == b[..p];
    assert (a + x)[p] == a[p] && (b + y)[p] == b[p];
  }

  /** Two extensions of one sequence compare as their appended items do. */
  lemma LexLessLast(a: seq<int>, x: int, y: int)
    requires x < y
    ensures LexLess(a + [x], a + [y])
  {
    var p := |a|;
    assert (a + [x])[..p] == a && (a + [y])[..p] == a;
  }

  /** Sequences whose first items differ compare as those items do. */
  lemma LexLessHead(a: seq<int>, b: seq<int>)
    requires |a| > 0 && |b| > 0 && a[0] < b[0]
    ensures LexLess(a, b)
  {
    assert a[..0] == b[..0];
  }

  /**
   * Among sequences ordered a < m < b, when a and b share their first q
   * items, m shares them too.
   */
  lemma LexBetweenSharesPrefix(a: seq<int>, m: seq<int>, b: seq<int>, q: nat)
    requires q <= |a| && q <= |m| && q <= |b|
    requires a[..q] == b[..q]
    requires LexLess(a, m) && LexLess(m, b)
    ensures m[..q] == a[..q]
  {
    var p1 :| 0 <= p1 < |a| && p1 < |m| && a[..p1] == m[..p1] && a[p1] < m[p1];
    var p2 :| 0 <= p2 < |m| && p2 < |b| && m[..p2] == b[..p2] && m[p2] < b[p2];
    if p1 < q {
      assert false;
    }
    assert a[..q] == m[..q] by {
      forall t | 0 <= t < q ensures a[t] == m[t] {
        assert a[..p1][t] == m[..p1][t];
      }
    }
  }

  /** LexLess is irreflexive. */
  lemma LexLessIrreflexive(a: seq<int>)
    ensures !LexLess(a, a)
  {
  }

  /**
   * Two sequences of length k that agree on their first k-1 items and are
   * lexicographically ordered differ at the last item, in the same order.
   */
  lemma LexLessSamePrefix(a: seq<int>, b: seq<int>)
    requires |a| == |b| > 0
    requires a[..|a| - 1] == b[..|b| - 1]
    requires LexLess(a, b)
    ensures a[|a| - 1] < b[|b| - 1]
  {
    var p :| 0 <= p < |a| && p < |b| && a[..p] == b[..p] && a[p] < b[p];
    if p < |a| - 1 {
      assert false;
    }
  }

  /** LexLess is asymmetric. */
  lemma LexLessAsym(a: seq<int>, b: seq<int>)
    requires LexLess(a, b)
    ensures !LexLess(b, a)
  {
    var p :| 0 <= p < |a| && p < |b| && a[..p] == b[..p] && a[p] < b[p];
    forall q | 0 <= q < |b| && q < |a| && b[..q] == a[..q] ensures a[q] <= b[q] {
      if q < p {
        assert a[..p][q] == b[..p][q];
      } else if p < q {
        assert false;
      }
    }
  }

  /** In a lexicographically sorted list, an entry below another comes first. */
  lemma LexSortedIndex(f: seq<Entry>, i: nat, j: nat)
    requires LexSorted(f) && i < |f| && j < |f|
    requires LexLess(f[i].items, f[j].items)
    ensures i < j
  {
    LexLessIrreflexive(f[i].items);
    if j < i {
      LexLessAsym(f[j].items, f[i].items);
      assert false;
    }
  }
}
