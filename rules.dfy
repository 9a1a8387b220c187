/** Association rules from a table of frequent itemsets (`generateRules` in
    project1/new.py).

    For every itemset `I` of two or more items and every non-empty proper
    subset `A` of `I` that is itself in the table, the source emits the rule
    `A -> I - A` with support `table[I] * 100` and confidence
    `table[I] / table[A] * 100`. The division fails when `table[A]` is zero,
    which the model reports as an outcome instead of a rule list. Supports
    are exact reals; the source's rounding to two decimals is not modelled. */
module RuleGenerator {
  import opened Sets
  import opened Itemsets
  import opened ItemsetMiner

  datatype Rule = Rule(antecedent: Itemset, consequent: Itemset, support: real, confidence: real)

  /** The rule list, or the first antecedent whose zero support made the
      confidence a division by zero. */
  datatype Outcome =
    | Rules(rules: seq<Rule>)
    | ZeroDivision(itemset: Itemset, antecedent: Itemset)

  /** Non-empty proper subsets of `itemset` that are themselves in the table. */
  function Antecedents(table: map<Itemset, real>, itemset: Itemset): set<Itemset>
  {
    set a | a in table && a != {} && a < itemset
  }

  /** Every antecedent of `itemset` has non-zero support, so every
      confidence of its rules is defined. */
  predicate SafeAntecedents(table: map<Itemset, real>, itemset: Itemset)
  {
    forall a :: a in Antecedents(table, itemset) ==> table[a] != 0.0
  }

  /** Some itemset of the table has an antecedent of support zero. */
  predicate ZeroAntecedent(table: map<Itemset, real>)
  {
    exists i :: i in table && !SafeAntecedents(table, i)
  }

  /** The rule for itemset `i` and antecedent `a`. */
  function RuleFor(table: map<Itemset, real>, i: Itemset, a: Itemset): Rule
    requires i in table && a in table && table[a] != 0.0
  {
    Rule(a, i - a, table[i] * 100.0, table[i] / table[a] * 100.0)
  }

  /** The rules of itemset `i` for the antecedents in `as'`. */
  function RulesAt(table: map<Itemset, real>, i: Itemset, as': set<Itemset>): set<Rule>
    requires i in table
    requires forall a :: a in as' ==> a in table && table[a] != 0.0
  {
    set a | a in as' :: RuleFor(table, i, a)
  }

  /** All rules of the itemsets in `itemsets`. */
  function RulesOf(table: map<Itemset, real>, itemsets: set<Itemset>): set<Rule>
    requires itemsets <= table.Keys
    requires forall i :: i in itemsets ==> SafeAntecedents(table, i)
  {
    set i, a | i in itemsets && a in Antecedents(table, i) :: assert SafeAntecedents(table, i); RuleFor(table, i, a)
  }

  /** The rules `generateRules` emits for a table. */
  function RuleSet(table: map<Itemset, real>): set<Rule>
    requires !ZeroAntecedent(table)
  {
    RulesOf(table, table.Keys)
  }

  /** No rule occurs twice. */
  predicate Distinct(rules: seq<Rule>)
  {
    forall j, k :: 0 <= j < k < |rules| ==> rules[j] != rules[k]
  }

  lemma RulesAtAdd(table: map<Itemset, real>, i: Itemset, as': set<Itemset>, a: Itemset)
    requires i in table && a in table && table[a] != 0.0
    requires forall b :: b in as' ==> b in table && table[b] != 0.0
    ensures RulesAt(table, i, as' + {a}) == RulesAt(table, i, as') + {RuleFor(table, i, a)}
  {
  }

  /** Antecedents of fewer than `n` items. */
  function Below(table: map<Itemset, real>, itemset: Itemset, n: nat): set<Itemset>
  {
    set a | a in Antecedents(table, itemset) && |a| < n
  }

  /** Antecedents of size below `size`, plus those of size `size` not in `pending`. */
  function Visited(table: map<Itemset, real>, itemset: Itemset, size: nat, pending: set<Itemset>): set<Itemset>
  {
    set a | a in Antecedents(table, itemset) && (|a| < size || (|a| == size && a !in pending))
  }

  // ---------------------------------------------------------------------------
  // The generator

  /** The rules of one combination size: every subset of `itemset` with
      `size` items that is in the table extends `rules` by one rule. */
  method CombinationRules(table: map<Itemset, real>, itemset: Itemset, size: nat, rules: seq<Rule>)
    returns (outcome: Outcome)
    requires itemset in table && 1 <= size < |itemset|
    requires forall a :: a in Below(table, itemset, size) ==> table[a] != 0.0
    requires Distinct(rules)
    requires (set r | r in rules) == RulesAt(table, itemset, Below(table, itemset, size))
    requires forall r :: r in rules ==>
               r.antecedent in Below(table, itemset, size) && r.antecedent + r.consequent == itemset
    ensures outcome.ZeroDivision? ==>
              outcome.itemset == itemset && outcome.antecedent in Antecedents(table, itemset) &&
              table[outcome.antecedent] == 0.0
    ensures outcome.Rules? <==> forall a :: a in Below(table, itemset, size + 1) ==> table[a] != 0.0
    ensures outcome.Rules? ==>
              Distinct(outcome.rules) &&
              (set r | r in outcome.rules) == RulesAt(table, itemset, Below(table, itemset, size + 1)) &&
              forall r :: r in outcome.rules ==>
                r.antecedent in Below(table, itemset, size + 1) && r.antecedent + r.consequent == itemset
  {
    var rules := rules;
    var combos := set a | a <= itemset && |a| == size;
    var pending := combos;
    assert Visited(table, itemset, size, pending) == Below(table, itemset, size);
    while pending != {}
      invariant pending <= combos
      invariant forall a :: a in Visited(table, itemset, size, pending) ==> table[a] != 0.0
      invariant Distinct(rules)
      invariant (set r | r in rules) == RulesAt(table, itemset, Visited(table, itemset, size, pending))
      invariant forall r :: r in rules ==>
                  r.antecedent in Visited(table, itemset, size, pending) && r.antecedent + r.consequent == itemset
      decreases pending
    {
      ghost var some := Element(pending);
      var subsetA :| subsetA in pending;
      var subsetB := itemset - subsetA;
      ghost var before := Visited(table, itemset, size, pending);
      pending := pending - {subsetA};
      if subsetA in table {
        assert subsetA <= itemset && |subsetA| == size;
        assert subsetA != {} && subsetA != itemset by {
          assert |subsetA| != 0 && |subsetA| != |itemset|;
        }
        assert subsetA in Antecedents(table, itemset);
        if table[subsetA] == 0.0 {
          return ZeroDivision(itemset, subsetA);
        }
        assert Visited(table, itemset, size, pending) == before + {subsetA};
        var support := table[itemset] * 100.0;
        var confidence := table[itemset] / table[subsetA] * 100.0;
        var rule := Rule(subsetA, subsetB, support, confidence);
        assert rule !in rules;
        RulesAtAdd(table, itemset, before, subsetA);
        assert (set r | r in rules + [rule]) == (set r | r in rules) + {rule};
        rules := rules + [rule];
      } else {
        assert Visited(table, itemset, size, pending) == before;
      }
    }
    assert Visited(table, itemset, size, {}) == Below(table, itemset, size + 1);
    return Rules(rules);
  }

  /** The rules of one itemset of at least two items: for each size from 1 to
      one less than the itemset's, every combination of that size that is in
      the table gives a rule. */
  method ItemsetRules(table: map<Itemset, real>, itemset: Itemset) returns (outcome: Outcome)
    requires itemset in table && |itemset| >= 2
    ensures outcome.ZeroDivision? ==>
              outcome.itemset == itemset && outcome.antecedent in Antecedents(table, itemset) &&
              table[outcome.antecedent] == 0.0
    ensures outcome.Rules? <==> SafeAntecedents(table, itemset)
    ensures outcome.Rules? ==>
              Distinct(outcome.rules) &&
              (set r | r in outcome.rules) == RulesAt(table, itemset, Antecedents(table, itemset)) &&
              forall r :: r in outcome.rules ==> r.antecedent + r.consequent == itemset
  {
    var rules: seq<Rule> := [];
    var i := 1;
    while i < |itemset|
      invariant 1 <= i <= |itemset|
      invariant forall a :: a in Below(table, itemset, i) ==> table[a] != 0.0
      invariant Distinct(rules)
      invariant (set r | r in rules) == RulesAt(table, itemset, Below(table, itemset, i))
      invariant forall r :: r in rules ==>
                  r.antecedent in Below(table, itemset, i) && r.antecedent + r.consequent == itemset
      decreases |itemset| - i
    {
      var found := CombinationRules(table, itemset, i, rules);
      if found.ZeroDivision? {
        return found;
      }
      rules := found.rules;
      i := i + 1;
    }
    forall a | a in Antecedents(table, itemset)
      ensures a in Below(table, itemset, i)
    {
      ProperSubsetSize(a, itemset);
    }
    assert Below(table, itemset, i) == Antecedents(table, itemset);
    return Rules(rules);
  }

  /** A set of fewer than two items has no non-empty proper subset. */
  lemma NoAntecedents(table: map<Itemset, real>, itemset: Itemset)
    requires |itemset| < 2
    ensures Antecedents(table, itemset) == {}
  {
    forall a | a in Antecedents(table, itemset)
      ensures false
    {
      ProperSubsetSize(a, itemset);
    }
  }

  lemma RulesOfAdd(table: map<Itemset, real>, done: set<Itemset>, itemset: Itemset)
    requires done <= table.Keys && itemset in table
    requires forall i :: i in done ==> SafeAntecedents(table, i)
    requires SafeAntecedents(table, itemset)
    ensures RulesOf(table, done + {itemset}) ==
              RulesOf(table, done) + RulesAt(table, itemset, Antecedents(table, itemset))
  {
  }

  lemma DistinctAppend(xs: seq<Rule>, ys: seq<Rule>)
    requires Distinct(xs) && Distinct(ys)
    requires forall r :: r in xs ==> r !in ys
    ensures Distinct(xs + ys)
  {
    forall j, k | 0 <= j < k < |xs + ys|
      ensures (xs + ys)[j] != (xs + ys)[k]
    {
      if j < |xs| && k >= |xs| {
        assert (xs + ys)[j] in xs && (xs + ys)[k] == ys[k - |xs|];
      }
    }
  }

  /** `generateRules`: the rules of every itemset of the table, or the
      division by zero the first zero-support antecedent causes. */
  method GenerateRules(table: map<Itemset, real>) returns (outcome: Outcome)
    ensures outcome.ZeroDivision? ==>
              outcome.itemset in table && outcome.antecedent in Antecedents(table, outcome.itemset) &&
              table[outcome.antecedent] == 0.0
    ensures outcome.Rules? <==> !ZeroAntecedent(table)
    ensures outcome.Rules? ==> Distinct(outcome.rules) && (set r | r in outcome.rules) == RuleSet(table)
  {
    var rules: seq<Rule> := [];
    var rest := table.Keys;
    while rest != {}
      invariant rest <= table.Keys
      invariant forall i :: i in table.Keys - rest ==> SafeAntecedents(table, i)
      invariant Distinct(rules)
      invariant (set r | r in rules) == RulesOf(table, table.Keys - rest)
      invariant forall r :: r in rules ==> r.antecedent + r.consequent in table.Keys - rest
      decreases rest
    {
      ghost var some := Element(rest);
      var itemset :| itemset in rest;
      ghost var done := table.Keys - rest;
      rest := rest - {itemset};
      assert table.Keys - rest == done + {itemset};
      if |itemset| < 2 {
        NoAntecedents(table, itemset);
        RulesOfAdd(table, done, itemset);
        continue;
      }
      var found := ItemsetRules(table, itemset);
      if found.ZeroDivision? {
        return found;
      }
      RulesOfAdd(table, done, itemset);
      DistinctAppend(rules, found.rules);
      assert (set r | r in rules + found.rules) == (set r | r in rules) + (set r | r in found.rules);
      rules := rules + found.rules;
    }
    assert table.Keys - rest == table.Keys;
    return Rules(rules);
  }

  // ---------------------------------------------------------------------------
  // What the rules promise

  /** Every rule splits an itemset of the table of at least two items into a
      non-empty antecedent that is itself in the table and the non-empty rest,
      and carries that itemset's support and its support relative to the
      antecedent's, both as percentages. */
  lemma RuleShape(table: map<Itemset, real>, r: Rule)
    requires !ZeroAntecedent(table) && r in RuleSet(table)
    ensures var i := r.antecedent + r.consequent;
            i in table && |i| >= 2 && r.antecedent in table && table[r.antecedent] != 0.0 &&
            r.antecedent != {} && r.consequent != {} && r.antecedent !! r.consequent &&
            r.support == table[i] * 100.0 &&
            r.confidence == table[i] / table[r.antecedent] * 100.0
  {
    var i, a :| i in table && a in Antecedents(table, i) && r == RuleFor(table, i, a);
    assert a + (i - a) == i;
    assert i - a != {} by {
      var x := Element(i - a);
    }
    ProperSubsetSize(a, i);
    ProperSubsetSize({}, a);
  }

  /** There is a rule `a -> b` exactly when `a` and `b` are disjoint and
      non-empty, `a` is in the table, and so is their union. */
  lemma RuleSetHas(table: map<Itemset, real>, a: Itemset, b: Itemset)
    requires !ZeroAntecedent(table)
    ensures (exists r :: r in RuleSet(table) && r.antecedent == a && r.consequent == b) <==>
              a + b in table && a in table && a != {} && b != {} && a !! b
  {
    if exists r :: r in RuleSet(table) && r.antecedent == a && r.consequent == b {
      var r :| r in RuleSet(table) && r.antecedent == a && r.consequent == b;
      RuleShape(table, r);
    }
    if a + b in table && a in table && a != {} && b != {} && a !! b {
      var i := a + b;
      assert a < i by {
        var y := Element(b);
        assert y in i && y !in a;
      }
      assert a in Antecedents(table, i);
      assert i - a == b;
      assert RuleFor(table, i, a) in RuleSet(table);
    }
  }

  /** On a table computed by `apriori` with a positive threshold, every
      support is at least the threshold, so no confidence divides by zero. */
  lemma AprioriRulesDefined(ts: seq<Transaction>, minSupport: real)
    requires minSupport > 0.0
    ensures !ZeroAntecedent(AprioriTable(ts, minSupport))
  {
    AprioriSound(ts, minSupport);
  }

  /** An exact support never exceeds 1 when the count is at most the
      number of transactions. */
  lemma SupportAtMostOne(count: nat, n: nat)
    requires 0 < n && count <= n
    ensures Support(count, n) <= 1.0
  {
    SupportMonotone(count, n, n);
  }

  /** In a `Recorded` table an itemset of two or more items has support at
      most 1 and at most the support of any non-empty subset of it. */
  lemma RecordedAntecedent(ts: seq<Transaction>, minSupport: real, table: map<Itemset, real>,
                           a: Itemset, i: Itemset)
    requires Recorded(ts, minSupport, table)
    requires a in table && i in table && a != {} && a <= i && |i| >= 2
    ensures table[i] <= table[a] && table[i] <= 1.0
  {
    CoverAtMostTransactions(ts, i);
    SupportAtMostOne(Cover(ts, i), |ts|);
    if |a| == 1 {
      SingleAntecedent(ts, minSupport, table, a, i);
    } else {
      SetAntecedent(ts, minSupport, table, a, i);
    }
  }

  lemma SingleAntecedent(ts: seq<Transaction>, minSupport: real, table: map<Itemset, real>,
                         a: Itemset, i: Itemset)
    requires Recorded(ts, minSupport, table)
    requires a in table && i in table && |a| == 1 && a <= i && |i| >= 2
    ensures table[i] <= table[a]
  {
    var x := Singleton(a);
    CoverAntiMonotone(ts, a, i);
    CoverAtMostOccurrences(ts, x);
    SupportMonotone(Cover(ts, i), Occurrences(ts, x), |ts|);
  }

  lemma SetAntecedent(ts: seq<Transaction>, minSupport: real, table: map<Itemset, real>,
                      a: Itemset, i: Itemset)
    requires Recorded(ts, minSupport, table)
    requires a in table && i in table && |a| >= 2 && a <= i && |i| >= 2
    ensures table[i] <= table[a]
  {
    CoverAntiMonotone(ts, a, i);
    SupportMonotone(Cover(ts, i), Cover(ts, a), |ts|);
  }

  /** A positive ratio of a number to one at least as large is at most 1. */
  lemma RatioAtMostOne(x: real, y: real)
    requires 0.0 < x <= y
    ensures 0.0 < x / y <= 1.0
  {
    var q := x / y;
    assert q * y == x;
    assert (q - 1.0) * y == x - y;
  }

  /** The supports and confidences of the rules of a `Recorded` table with a
      positive threshold lie in (0, 100]. */
  lemma RecordedRuleBounds(ts: seq<Transaction>, minSupport: real, table: map<Itemset, real>, r: Rule)
    requires minSupport > 0.0 && Recorded(ts, minSupport, table)
    requires !ZeroAntecedent(table) && r in RuleSet(table)
    ensures 0.0 < r.support <= 100.0
    ensures 0.0 < r.confidence <= 100.0
  {
    RuleShape(table, r);
    var a, i := r.antecedent, r.antecedent + r.consequent;
    RecordedAntecedent(ts, minSupport, table, a, i);
    RatioAtMostOne(table[i], table[a]);
  }

  /** On a table computed by `apriori` with a positive threshold, every
      rule's support and confidence lie in (0, 100]: an itemset of two or
      more items is in at most every transaction, and in no more
      transactions than its antecedent is counted for. */
  lemma AprioriRuleBounds(ts: seq<Transaction>, minSupport: real, r: Rule)
    requires minSupport > 0.0
    requires !ZeroAntecedent(AprioriTable(ts, minSupport))
    requires r in RuleSet(AprioriTable(ts, minSupport))
    ensures 0.0 < r.support <= 100.0
    ensures 0.0 < r.confidence <= 100.0
  {
    AprioriSound(ts, minSupport);
    RecordedRuleBounds(ts, minSupport, AprioriTable(ts, minSupport), r);
  }
}
