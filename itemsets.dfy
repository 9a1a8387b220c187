/** Items, transactions and the two ways project1/new.py counts them.

    A transaction is the list of integers read from one input line, so it may
    repeat an item. Level-1 counting adds up occurrences (a repeated item counts
    once per repetition); counting at later levels asks whether an itemset is a
    subset of the transaction's item set. */
module Itemsets {
  import opened Sets

  type Item = int
  type Itemset = set<Item>
  type Transaction = seq<Item>

  /** `set(transaction)` */
  function ItemsOf(t: Transaction): Itemset
  {
    set x | x in t
  }

  /** Every item occurring in some transaction. */
  function Items(ts: seq<Transaction>): Itemset
  {
    if ts == [] then {} else Items(ts[..|ts| - 1]) + ItemsOf(ts[|ts| - 1])
  }

  /** How often `x` occurs in all transactions, repetitions included. */
  function Occurrences(ts: seq<Transaction>, x: Item): nat
  {
    if ts == [] then 0 else Occurrences(ts[..|ts| - 1], x) + multiset(ts[|ts| - 1])[x]
  }

  /** How many transactions contain every item of `c`. */
  function Cover(ts: seq<Transaction>, c: Itemset): nat
  {
    if ts == [] then 0
    else Cover(ts[..|ts| - 1], c) + (if c <= ItemsOf(ts[|ts| - 1]) then 1 else 0)
  }

  /** `count / len(transactions)`, exactly. */
  function Support(count: nat, n: nat): real
    requires n > 0
  {
    count as real / n as real
  }

  lemma {:induction false} OccursIffItem(ts: seq<Transaction>, x: Item)
    ensures Occurrences(ts, x) > 0 <==> x in Items(ts)
  {
    if ts != [] {
      OccursIffItem(ts[..|ts| - 1], x);
      var t := ts[|ts| - 1];
      assert multiset(t)[x] > 0 <==> x in ItemsOf(t);
    }
  }

  lemma ItemsOfNonEmpty(ts: seq<Transaction>)
    requires Items(ts) != {}
    ensures |ts| > 0
  {
  }

  /** A larger itemset is contained in no more transactions. */
  lemma {:induction false} CoverAntiMonotone(ts: seq<Transaction>, a: Itemset, b: Itemset)
    requires a <= b
    ensures Cover(ts, b) <= Cover(ts, a)
  {
    if ts != [] {
      CoverAntiMonotone(ts[..|ts| - 1], a, b);
    }
  }

  /** A transaction that contains `x` contributes at least one occurrence. */
  lemma {:induction false} CoverAtMostOccurrences(ts: seq<Transaction>, x: Item)
    ensures Cover(ts, {x}) <= Occurrences(ts, x)
  {
    if ts != [] {
      CoverAtMostOccurrences(ts[..|ts| - 1], x);
      var t := ts[|ts| - 1];
      if {x} <= ItemsOf(t) {
        assert x in t;
      }
    }
  }

  lemma {:induction false} CoverAtMostTransactions(ts: seq<Transaction>, c: Itemset)
    ensures Cover(ts, c) <= |ts|
  {
    if ts != [] {
      CoverAtMostTransactions(ts[..|ts| - 1], c);
    }
  }

  lemma SupportMonotone(a: nat, b: nat, n: nat)
    requires n > 0 && a <= b
    ensures Support(a, n) <= Support(b, n)
  {
  }
}
