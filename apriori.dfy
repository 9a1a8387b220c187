/** The level-wise frequent-itemset search of `apriori` (project1/new.py).

    The first half states, as functions, what each phase of the search
    computes: the level-1 split of single items into frequent ones and pruned
    ones, the self-join of a frequent level into candidates, the split of
    counted candidates, and the iteration of these phases until no candidate or
    no frequent candidate is left (`AprioriTable`). The second half is the
    search itself: the counting, joining and splitting loops of the source as
    methods, each proved to compute its phase, and `Apriori`, the main loop,
    where the merges of each level into the result are map unions. The last
    part proves what the resulting table promises. */
module ItemsetMiner {
  import opened Sets
  import opened Itemsets

  // ---------------------------------------------------------------------------
  // Specification of the phases

  /** Frequent single items among `among`, keyed by their singleton set, with
      their occurrence-based support. */
  function FrequentItems(ts: seq<Transaction>, minSupport: real, among: set<Item>): map<Itemset, real>
    requires among <= Items(ts)
  {
    map x | x in among && Support(Occurrences(ts, x), |ts|) >= minSupport
          :: {x} := Support(Occurrences(ts, x), |ts|)
  }

  /** Single items among `among` whose support is below the threshold. */
  function InfrequentItems(ts: seq<Transaction>, minSupport: real, among: set<Item>): set<Itemset>
    requires among <= Items(ts)
  {
    set x | x in among && Support(Occurrences(ts, x), |ts|) < minSupport :: {x}
  }

  /** Deciding one more item extends exactly one of the two level-1 results. */
  lemma DecideItem(ts: seq<Transaction>, minSupport: real, among: set<Item>, x: Item)
    requires among <= Items(ts) && x in Items(ts) && x !in among
    ensures |ts| > 0
    ensures Support(Occurrences(ts, x), |ts|) >= minSupport ==>
              FrequentItems(ts, minSupport, among + {x}) ==
                FrequentItems(ts, minSupport, among)[{x} := Support(Occurrences(ts, x), |ts|)] &&
              InfrequentItems(ts, minSupport, among + {x}) == InfrequentItems(ts, minSupport, among)
    ensures Support(Occurrences(ts, x), |ts|) < minSupport ==>
              FrequentItems(ts, minSupport, among + {x}) == FrequentItems(ts, minSupport, among) &&
              InfrequentItems(ts, minSupport, among + {x}) == InfrequentItems(ts, minSupport, among) + {{x}}
  {
    ItemsOfNonEmpty(ts);
  }

  /** Some itemset of `pruned` is contained in `c`. */
  predicate Prunes(pruned: set<Itemset>, c: Itemset)
  {
    exists p :: p in pruned && p <= c
  }

  /** The self-join condition of the source: distinct itemsets whose union is
      one larger than the first, and no pruned itemset inside the union. */
  predicate Joinable(a: Itemset, b: Itemset, pruned: set<Itemset>)
  {
    a != b && |a + b| == |a| + 1 && !Prunes(pruned, a + b)
  }

  /** Unions of joinable pairs with the first itemset from `as'` and the second from `bs`. */
  function Joined(as': set<Itemset>, bs: set<Itemset>, pruned: set<Itemset>): set<Itemset>
  {
    set a, b | a in as' && b in bs && Joinable(a, b, pruned) :: a + b
  }

  /** The candidates of the next level. */
  function Candidates(level: set<Itemset>, pruned: set<Itemset>): (cands: set<Itemset>)
    ensures forall c :: c in cands ==> !Prunes(pruned, c)
  {
    Joined(level, level, pruned)
  }

  /** Candidates meeting the threshold, with their subset-based support. */
  function FrequentOf(ts: seq<Transaction>, minSupport: real, cands: set<Itemset>): (level: map<Itemset, real>)
    requires |ts| > 0 || cands == {}
    ensures level.Keys <= cands
    ensures forall c :: c in level ==> level[c] >= minSupport
  {
    map c | c in cands && Support(Cover(ts, c), |ts|) >= minSupport :: Support(Cover(ts, c), |ts|)
  }

  /** Candidates below the threshold: the next pruned set. */
  function PrunedOf(ts: seq<Transaction>, minSupport: real, cands: set<Itemset>): (pruned: set<Itemset>)
    requires |ts| > 0 || cands == {}
    ensures pruned <= cands
    ensures forall c :: c in cands ==> (c in pruned <==> c !in FrequentOf(ts, minSupport, cands))
  {
    set c | c in cands && Support(Cover(ts, c), |ts|) < minSupport
  }

  /** Every itemset of a level has `k` items, all of which occur somewhere. */
  predicate LevelShape(ts: seq<Transaction>, level: set<Itemset>, k: nat)
  {
    forall s :: s in level ==> |s| == k && s <= Items(ts)
  }

  /** Candidates built from a level of `k`-itemsets have `k + 1` items drawn
      from the level's itemsets and contain no pruned itemset. */
  lemma CandidatesShape(ts: seq<Transaction>, level: set<Itemset>, pruned: set<Itemset>, k: nat)
    requires LevelShape(ts, level, k)
    ensures LevelShape(ts, Candidates(level, pruned), k + 1)
    ensures forall c :: c in Candidates(level, pruned) ==>
              !Prunes(pruned, c) && exists a, b :: a in level && b in level && a != b && c == a + b
  {
  }

  /** A non-empty candidate level can exist only while `k` is below the
      number of distinct items. */
  lemma LevelBound(ts: seq<Transaction>, cands: set<Itemset>, k: nat)
    requires LevelShape(ts, cands, k + 1) && cands != {}
    ensures k + 1 <= |Items(ts)|
  {
    var c :| c in cands;
    SubsetSize(c, Items(ts));
  }

  /** The rest of the search from a frequent level of `k`-itemsets, the
      pruned set of that level, and the table accumulated so far. */
  function MineFrom(ts: seq<Transaction>, minSupport: real, level: map<Itemset, real>,
                    pruned: set<Itemset>, acc: map<Itemset, real>, k: nat): (table: map<Itemset, real>)
    requires LevelShape(ts, level.Keys, k)
    requires |ts| > 0 || level == map[]
    ensures acc.Keys <= table.Keys
    ensures forall s :: s in table && s !in acc ==> |s| > k
    decreases |Items(ts)| - k
  {
    var cands := Candidates(level.Keys, pruned);
    if cands == {} then acc
    else
      CandidatesShape(ts, level.Keys, pruned, k);
      var next := FrequentOf(ts, minSupport, cands);
      if next == map[] then acc
      else
        LevelBound(ts, cands, k);
        MineFrom(ts, minSupport, next, PrunedOf(ts, minSupport, cands), acc + next, k + 1)
  }

  /** The table `apriori` returns. */
  function AprioriTable(ts: seq<Transaction>, minSupport: real): map<Itemset, real>
  {
    var level := FrequentItems(ts, minSupport, Items(ts));
    MineFrom(ts, minSupport, level, InfrequentItems(ts, minSupport, Items(ts)), level, 1)
  }

  // ---------------------------------------------------------------------------
  // The search

  /** Level-1 counting: one counter per item, incremented once per occurrence. */
  method CountItems(ts: seq<Transaction>) returns (c1: map<Item, nat>)
    ensures c1.Keys == Items(ts)
    ensures forall x :: x in c1 ==> c1[x] == Occurrences(ts, x)
  {
    c1 := map[];
    var i := 0;
    while i < |ts|
      invariant 0 <= i <= |ts|
      invariant c1.Keys == Items(ts[..i])
      invariant forall x :: x in c1 ==> c1[x] == Occurrences(ts[..i], x)
    {
      var t := ts[i];
      var j := 0;
      while j < |t|
        invariant 0 <= j <= |t|
        invariant c1.Keys == Items(ts[..i]) + ItemsOf(t[..j])
        invariant forall x :: x in c1 ==> c1[x] == Occurrences(ts[..i], x) + multiset(t[..j])[x]
      {
        var item := t[j];
        assert t[..j + 1] == t[..j] + [item];
        if item !in c1 {
          OccursIffItem(ts[..i], item);
          c1 := c1[item := 0];
        }
        c1 := c1[item := c1[item] + 1];
        j := j + 1;
      }
      assert t[..j] == t;
      assert ts[..i + 1][..i] == ts[..i];
      i := i + 1;
    }
    assert ts[..i] == ts;
  }

  /** Level-1 filtering: frequent items become singleton itemsets of the
      first level, the others form the first pruned set. */
  method SplitItems(ts: seq<Transaction>, minSupport: real, c1: map<Item, nat>)
    returns (level: map<Itemset, real>, pruned: set<Itemset>)
    requires c1.Keys == Items(ts)
    requires forall x :: x in c1 ==> c1[x] == Occurrences(ts, x)
    ensures level == FrequentItems(ts, minSupport, Items(ts))
    ensures pruned == InfrequentItems(ts, minSupport, Items(ts))
  {
    level, pruned := map[], {};
    var rest := c1.Keys;
    while rest != {}
      invariant rest <= c1.Keys
      invariant level == FrequentItems(ts, minSupport, c1.Keys - rest)
      invariant pruned == InfrequentItems(ts, minSupport, c1.Keys - rest)
      decreases rest
    {
      ghost var some := Element(rest);
      var item :| item in rest;
      DecideItem(ts, minSupport, c1.Keys - rest, item);
      assert c1.Keys - (rest - {item}) == (c1.Keys - rest) + {item};
      var count := c1[item];
      if count as real / |ts| as real >= minSupport {
        level := level[{item} := count as real / |ts| as real];
      } else {
        pruned := pruned + {{item}};
      }
      rest := rest - {item};
    }
  }

  lemma JoinedAddFirst(as': set<Itemset>, a: Itemset, bs: set<Itemset>, pruned: set<Itemset>)
    ensures Joined(as' + {a}, bs, pruned) == Joined(as', bs, pruned) + Joined({a}, bs, pruned)
  {
  }

  lemma JoinedAddSecond(a: Itemset, bs: set<Itemset>, b: Itemset, pruned: set<Itemset>)
    ensures Joined({a}, bs + {b}, pruned) ==
              Joined({a}, bs, pruned) + (if Joinable(a, b, pruned) then {a + b} else {})
  {
  }

  /** One row of the self-join: `item1` joined with every itemset of the
      level adds its candidates, each with a zero counter. */
  method JoinWith(item1: Itemset, keys: set<Itemset>, pruned: set<Itemset>, ck: map<Itemset, nat>)
    returns (joined: map<Itemset, nat>)
    requires forall c :: c in ck ==> ck[c] == 0
    ensures joined.Keys == ck.Keys + Joined({item1}, keys, pruned)
    ensures forall c :: c in joined ==> joined[c] == 0
  {
    joined := ck;
    var inner := keys;
    while inner != {}
      invariant inner <= keys
      invariant joined.Keys == ck.Keys + Joined({item1}, keys - inner, pruned)
      invariant forall c :: c in joined ==> joined[c] == 0
      decreases inner
    {
      ghost var other := Element(inner);
      var item2 :| item2 in inner;
      JoinedAddSecond(item1, keys - inner, item2, pruned);
      assert keys - (inner - {item2}) == (keys - inner) + {item2};
      inner := inner - {item2};
      if item1 == item2 {
        continue;
      }
      var candidate := item1 + item2;
      var shouldPrune := exists p :: p in pruned && p <= candidate;
      if |candidate| == |item1| + 1 && !shouldPrune {
        joined := joined[candidate := 0];
      }
    }
  }

  /** The self-join of a level: every ordered pair of distinct itemsets whose
      union is one item larger and contains no pruned itemset gives a
      candidate with a zero counter. */
  method SelfJoin(level: map<Itemset, real>, pruned: set<Itemset>) returns (ck: map<Itemset, nat>)
    ensures ck.Keys == Candidates(level.Keys, pruned)
    ensures forall c :: c in ck ==> ck[c] == 0
  {
    ck := map[];
    var outer := level.Keys;
    while outer != {}
      invariant outer <= level.Keys
      invariant ck.Keys == Joined(level.Keys - outer, level.Keys, pruned)
      invariant forall c :: c in ck ==> ck[c] == 0
      decreases outer
    {
      ghost var some := Element(outer);
      var item1 :| item1 in outer;
      ck := JoinWith(item1, level.Keys, pruned, ck);
      JoinedAddFirst(level.Keys - outer, item1, level.Keys, pruned);
      assert level.Keys - (outer - {item1}) == (level.Keys - outer) + {item1};
      outer := outer - {item1};
    }
  }

  /** Support counting: every candidate contained in a transaction's item set
      gets its counter incremented once for that transaction. */
  method CountSupport(ts: seq<Transaction>, ck: map<Itemset, nat>) returns (counted: map<Itemset, nat>)
    ensures counted.Keys == ck.Keys
    ensures forall c :: c in counted ==> counted[c] == ck[c] + Cover(ts, c)
  {
    counted := ck;
    var i := 0;
    while i < |ts|
      invariant 0 <= i <= |ts|
      invariant counted.Keys == ck.Keys
      invariant forall c :: c in counted ==> counted[c] == ck[c] + Cover(ts[..i], c)
    {
      var tSet := set x | x in ts[i];
      assert ts[..i + 1][..i] == ts[..i] && ts[..i + 1][i] == ts[i];
      var rest := counted.Keys;
      while rest != {}
        invariant rest <= counted.Keys == ck.Keys
        invariant forall c :: c in counted ==>
                    counted[c] == ck[c] + Cover(ts[..i], c) + (if c !in rest && c <= tSet then 1 else 0)
        decreases rest
      {
        ghost var some := Element(rest);
        var candidate :| candidate in rest;
        if candidate <= tSet {
          counted := counted[candidate := counted[candidate] + 1];
        }
        rest := rest - {candidate};
      }
      i := i + 1;
    }
    assert ts[..i] == ts;
  }

  /** Splitting counted candidates: those meeting the threshold form the new
      level, the others the new pruned set. */
  method SplitLevel(ts: seq<Transaction>, minSupport: real, ck: map<Itemset, nat>)
    returns (level: map<Itemset, real>, newPruned: set<Itemset>)
    requires |ts| > 0 || ck == map[]
    requires forall c :: c in ck ==> ck[c] == Cover(ts, c)
    ensures level == FrequentOf(ts, minSupport, ck.Keys)
    ensures newPruned == PrunedOf(ts, minSupport, ck.Keys)
  {
    level, newPruned := map[], {};
    var rest := ck.Keys;
    while rest != {}
      invariant rest <= ck.Keys
      invariant level == FrequentOf(ts, minSupport, ck.Keys - rest)
      invariant newPruned == PrunedOf(ts, minSupport, ck.Keys - rest)
      decreases rest
    {
      ghost var some := Element(rest);
      var candidate :| candidate in rest;
      var count := ck[candidate];
      assert ck.Keys - (rest - {candidate}) == (ck.Keys - rest) + {candidate};
      if count as real / |ts| as real >= minSupport {
        level := level[candidate := count as real / |ts| as real];
      } else {
        newPruned := newPruned + {candidate};
      }
      rest := rest - {candidate};
    }
  }

  /** The first level consists of singletons of occurring items. */
  lemma FirstLevelShape(ts: seq<Transaction>, minSupport: real)
    ensures LevelShape(ts, FrequentItems(ts, minSupport, Items(ts)).Keys, 1)
    ensures |ts| > 0 || FrequentItems(ts, minSupport, Items(ts)) == map[]
  {
    if |ts| == 0 {
      assert Items(ts) == {};
    }
  }

  /** One more round of the search, whose candidates leave `next` frequent. */
  lemma MineFromStep(ts: seq<Transaction>, minSupport: real, level: map<Itemset, real>,
                     pruned: set<Itemset>, acc: map<Itemset, real>, k: nat,
                     next: map<Itemset, real>, nextPruned: set<Itemset>)
    requires LevelShape(ts, level.Keys, k)
    requires |ts| > 0 || level == map[]
    requires Candidates(level.Keys, pruned) != {} && |ts| > 0
    requires next == FrequentOf(ts, minSupport, Candidates(level.Keys, pruned))
    requires nextPruned == PrunedOf(ts, minSupport, Candidates(level.Keys, pruned))
    ensures next == map[] ==> MineFrom(ts, minSupport, level, pruned, acc, k) == acc
    ensures next != map[] ==>
              LevelShape(ts, next.Keys, k + 1) && k + 1 <= |Items(ts)| &&
              MineFrom(ts, minSupport, level, pruned, acc, k) ==
                MineFrom(ts, minSupport, next, nextPruned, acc + next, k + 1)
  {
    CandidatesShape(ts, level.Keys, pruned, k);
    if next != map[] {
      LevelBound(ts, Candidates(level.Keys, pruned), k);
    }
  }

  /** The search stops when the level has no candidate. */
  lemma MineFromDone(ts: seq<Transaction>, minSupport: real, level: map<Itemset, real>,
                     pruned: set<Itemset>, acc: map<Itemset, real>, k: nat)
    requires LevelShape(ts, level.Keys, k)
    requires |ts| > 0 || level == map[]
    requires Candidates(level.Keys, pruned) == {}
    ensures MineFrom(ts, minSupport, level, pruned, acc, k) == acc
  {
  }

  /** Candidates exist only for a non-empty level. */
  lemma JoinedNeedsLevel(level: set<Itemset>, pruned: set<Itemset>)
    requires Candidates(level, pruned) != {}
    ensures level != {}
  {
    var c :| c in Candidates(level, pruned);
  }

  /** One round of the search: the self-join of the current level (the round
      stops when it yields no candidate), then support counting and the
      split of the counted candidates. */
  method NextLevel(ts: seq<Transaction>, minSupport: real, level: map<Itemset, real>,
                   prunedSet: set<Itemset>, ghost k: nat)
    returns (joined: bool, newLevel: map<Itemset, real>, newPruned: set<Itemset>)
    requires LevelShape(ts, level.Keys, k)
    requires |ts| > 0 || level == map[]
    ensures joined <==> Candidates(level.Keys, prunedSet) != {}
    ensures joined ==> |ts| > 0
    ensures joined ==> newLevel == FrequentOf(ts, minSupport, Candidates(level.Keys, prunedSet))
    ensures joined ==> newPruned == PrunedOf(ts, minSupport, Candidates(level.Keys, prunedSet))
  {
    var ck := SelfJoin(level, prunedSet);
    if |ck| == 0 {
      assert ck.Keys == {};
      return false, map[], {};
    }
    JoinedNeedsLevel(level.Keys, prunedSet);
    ck := CountSupport(ts, ck);
    joined := true;
    newLevel, newPruned := SplitLevel(ts, minSupport, ck);
  }

  /** Level 1 of the search: counting, then filtering. */
  method FirstLevel(ts: seq<Transaction>, minSupport: real)
    returns (level: map<Itemset, real>, pruned: set<Itemset>)
    ensures level == FrequentItems(ts, minSupport, Items(ts))
    ensures pruned == InfrequentItems(ts, minSupport, Items(ts))
    ensures LevelShape(ts, level.Keys, 1)
    ensures |ts| > 0 || level == map[]
  {
    var c1 := CountItems(ts);
    level, pruned := SplitItems(ts, minSupport, c1);
    FirstLevelShape(ts, minSupport);
  }

  /** `apriori`: level 1, then self-join, count and split until a level has
      no candidate or no frequent candidate; every frequent level is merged
      into the result table. */
  method Apriori(ts: seq<Transaction>, minSupport: real) returns (frequentItemsets: map<Itemset, real>)
    ensures frequentItemsets == AprioriTable(ts, minSupport)
  {
    var level, prunedSet := FirstLevel(ts, minSupport);
    frequentItemsets := map[];
    frequentItemsets := frequentItemsets + level;
    assert frequentItemsets == level;
    ghost var k := 1;
    while true
      invariant LevelShape(ts, level.Keys, k)
      invariant |ts| > 0 || level == map[]
      invariant MineFrom(ts, minSupport, level, prunedSet, frequentItemsets, k) == AprioriTable(ts, minSupport)
      decreases |Items(ts)| - k
    {
      var joined, newLevel, newPruned := NextLevel(ts, minSupport, level, prunedSet, k);
      if !joined {
        MineFromDone(ts, minSupport, level, prunedSet, frequentItemsets, k);
        break;
      }
      MineFromStep(ts, minSupport, level, prunedSet, frequentItemsets, k, newLevel, newPruned);
      if |newLevel| == 0 {
        assert newLevel == map[];
        break;
      }
      assert newLevel != map[];
      frequentItemsets := frequentItemsets + newLevel;
      level, prunedSet, k := newLevel, newPruned, k + 1;
    }
  }

  // ---------------------------------------------------------------------------
  // What the table promises

  /** What every accumulated table satisfies: each entry meets the threshold,
      is a non-empty set of occurring items, and records the support that its
      level counts. */
  ghost predicate Recorded(ts: seq<Transaction>, minSupport: real, table: map<Itemset, real>)
  {
    (table != map[] ==> |ts| > 0) &&
    (forall s :: s in table ==> table[s] >= minSupport && s != {} && s <= Items(ts)) &&
    (forall x :: {x} in table ==> table[{x}] == Support(Occurrences(ts, x), |ts|)) &&
    (forall s :: s in table && |s| >= 2 ==> table[s] == Support(Cover(ts, s), |ts|))
  }

  /** Every itemset of two or more items in the table is the union of two
      distinct itemsets of the table that are one item smaller. */
  ghost predicate BuiltByJoins(table: set<Itemset>)
  {
    forall s {:trigger JoinOf(table, s)} :: s in table && |s| >= 2 ==> JoinOf(table, s)
  }

  /** `s` is the union of two distinct itemsets of `table` one item smaller. */
  ghost predicate JoinOf(table: set<Itemset>, s: Itemset)
  {
    exists a, b :: a in table && b in table && a != b && |a| + 1 == |s| && |b| + 1 == |s| && s == a + b
  }

  /** Every entry of the accumulated table has at most `k` items. */
  ghost predicate SizesUpTo(table: set<Itemset>, k: nat)
  {
    forall s :: s in table ==> |s| <= k
  }

  lemma FirstLevelRecorded(ts: seq<Transaction>, minSupport: real)
    ensures Recorded(ts, minSupport, FrequentItems(ts, minSupport, Items(ts)))
    ensures BuiltByJoins(FrequentItems(ts, minSupport, Items(ts)).Keys)
    ensures SizesUpTo(FrequentItems(ts, minSupport, Items(ts)).Keys, 1)
  {
    var level := FrequentItems(ts, minSupport, Items(ts));
    FirstLevelShape(ts, minSupport);
    forall s | s in level
      ensures |s| == 1 && s != {}
    {
    }
    forall x | {x} in level
      ensures level[{x}] == Support(Occurrences(ts, x), |ts|)
    {
      var y :| y in Items(ts) && Support(Occurrences(ts, y), |ts|) >= minSupport && {x} == {y};
      assert x in {y};
    }
  }

  /** One round keeps the accumulated table `Recorded` and changes no
      existing entry. */
  lemma RoundRecorded(ts: seq<Transaction>, minSupport: real, level: map<Itemset, real>,
                      pruned: set<Itemset>, acc: map<Itemset, real>, k: nat)
    requires LevelShape(ts, level.Keys, k) && k >= 1
    requires Candidates(level.Keys, pruned) != {} && |ts| > 0
    requires Recorded(ts, minSupport, acc) && SizesUpTo(acc.Keys, k)
    ensures var next := FrequentOf(ts, minSupport, Candidates(level.Keys, pruned));
            Recorded(ts, minSupport, acc + next) &&
            (forall s :: s in acc ==> (acc + next)[s] == acc[s]) &&
            (forall s :: s in next ==> |s| == k + 1)
  {
    var next := FrequentOf(ts, minSupport, Candidates(level.Keys, pruned));
    var acc' := acc + next;
    CandidatesShape(ts, level.Keys, pruned, k);
    forall s | s in acc
      ensures s !in next && acc'[s] == acc[s]
    {
    }
    forall x | {x} in acc'
      ensures acc'[{x}] == Support(Occurrences(ts, x), |ts|)
    {
      assert |{x}| == 1;
    }
  }

  /** One round keeps the accumulated table `BuiltByJoins`. */
  lemma RoundJoins(level: set<Itemset>, pruned: set<Itemset>, acc: set<Itemset>, next: set<Itemset>, k: nat)
    requires forall s :: s in level ==> |s| == k
    requires next <= Candidates(level, pruned)
    requires level <= acc && BuiltByJoins(acc)
    ensures BuiltByJoins(acc + next)
  {
    forall s | s in acc + next && |s| >= 2
      ensures JoinOf(acc + next, s)
    {
      if s in next {
        var a, b :| a in level && b in level && Joinable(a, b, pruned) && s == a + b;
        assert a in acc + next && b in acc + next;
      } else {
        assert JoinOf(acc, s);
        var a, b :| a in acc && b in acc && a != b && |a| + 1 == |s| && |b| + 1 == |s| && s == a + b;
        assert a in acc + next && b in acc + next;
      }
    }
  }

  /** The rest of the search keeps the table `Recorded`, never removes or
      changes an entry, and adds only itemsets larger than the current level. */
  lemma {:induction false} MineFromRecorded(ts: seq<Transaction>, minSupport: real, level: map<Itemset, real>,
                                            pruned: set<Itemset>, acc: map<Itemset, real>, k: nat)
    requires LevelShape(ts, level.Keys, k) && k >= 1
    requires |ts| > 0 || level == map[]
    requires Recorded(ts, minSupport, acc) && SizesUpTo(acc.Keys, k)
    ensures var result := MineFrom(ts, minSupport, level, pruned, acc, k);
            Recorded(ts, minSupport, result) &&
            (forall s :: s in acc ==> s in result && result[s] == acc[s]) &&
            (forall s :: s in result && s !in acc ==> |s| > k)
    decreases |Items(ts)| - k
  {
    var cands := Candidates(level.Keys, pruned);
    if cands != {} {
      JoinedNeedsLevel(level.Keys, pruned);
      var next := FrequentOf(ts, minSupport, cands);
      MineFromStep(ts, minSupport, level, pruned, acc, k, next, PrunedOf(ts, minSupport, cands));
      if next != map[] {
        RoundRecorded(ts, minSupport, level, pruned, acc, k);
        MineFromRecorded(ts, minSupport, next, PrunedOf(ts, minSupport, cands), acc + next, k + 1);
      }
    }
  }

  /** The rest of the search keeps the table `BuiltByJoins`. */
  lemma {:induction false} MineFromJoins(ts: seq<Transaction>, minSupport: real, level: map<Itemset, real>,
                                         pruned: set<Itemset>, acc: map<Itemset, real>, k: nat)
    requires LevelShape(ts, level.Keys, k)
    requires |ts| > 0 || level == map[]
    requires level.Keys <= acc.Keys && BuiltByJoins(acc.Keys)
    ensures BuiltByJoins(MineFrom(ts, minSupport, level, pruned, acc, k).Keys)
    decreases |Items(ts)| - k
  {
    var cands := Candidates(level.Keys, pruned);
    if cands != {} {
      JoinedNeedsLevel(level.Keys, pruned);
      var next := FrequentOf(ts, minSupport, cands);
      MineFromStep(ts, minSupport, level, pruned, acc, k, next, PrunedOf(ts, minSupport, cands));
      if next != map[] {
        RoundJoins(level.Keys, pruned, acc.Keys, next.Keys, k);
        assert (acc + next).Keys == acc.Keys + next.Keys;
        MineFromJoins(ts, minSupport, next, PrunedOf(ts, minSupport, cands), acc + next, k + 1);
      }
    }
  }

  /** Soundness of the returned table: every entry meets the threshold and
      records the support its level counts — occurrences for single items,
      containing transactions for larger itemsets — and every larger itemset
      is the union of two distinct smaller entries. */
  lemma AprioriSound(ts: seq<Transaction>, minSupport: real)
    ensures Recorded(ts, minSupport, AprioriTable(ts, minSupport))
    ensures BuiltByJoins(AprioriTable(ts, minSupport).Keys)
  {
    FirstLevelRecorded(ts, minSupport);
    FirstLevelShape(ts, minSupport);
    var level := FrequentItems(ts, minSupport, Items(ts));
    var pruned := InfrequentItems(ts, minSupport, Items(ts));
    MineFromRecorded(ts, minSupport, level, pruned, level, 1);
    MineFromJoins(ts, minSupport, level, pruned, level, 1);
  }

  /** Which singletons the level-1 split keeps. */
  lemma FrequentItemsHas(ts: seq<Transaction>, minSupport: real, among: set<Item>, x: Item)
    requires among <= Items(ts)
    ensures {x} in FrequentItems(ts, minSupport, among) <==>
              x in among && |ts| > 0 && Support(Occurrences(ts, x), |ts|) >= minSupport
  {
    if x in among {
      ItemsOfNonEmpty(ts);
    }
    if {x} in FrequentItems(ts, minSupport, among) {
      var y :| y in among && Support(Occurrences(ts, y), |ts|) >= minSupport && {x} == {y};
      assert x in {y};
    }
  }

  /** The single items of the table are exactly the occurring items whose
      occurrence-based support meets the threshold. */
  lemma AprioriSingletons(ts: seq<Transaction>, minSupport: real, x: Item)
    ensures {x} in AprioriTable(ts, minSupport) <==>
              x in Items(ts) && Support(Occurrences(ts, x), |ts|) >= minSupport
  {
    FirstLevelRecorded(ts, minSupport);
    FirstLevelShape(ts, minSupport);
    var level := FrequentItems(ts, minSupport, Items(ts));
    MineFromRecorded(ts, minSupport, level, InfrequentItems(ts, minSupport, Items(ts)), level, 1);
    FrequentItemsHas(ts, minSupport, Items(ts), x);
    assert |{x}| == 1;
    if x in Items(ts) {
      ItemsOfNonEmpty(ts);
    }
  }

  /** A level is complete when it holds every occurring `k`-itemset contained
      in enough transactions, and every itemset of its pruned set has `k`
      items and is contained in too few. */
  ghost predicate LevelComplete(ts: seq<Transaction>, minSupport: real, level: set<Itemset>,
                                pruned: set<Itemset>, k: nat)
    requires |ts| > 0
  {
    (forall s :: s <= Items(ts) && |s| == k && Support(Cover(ts, s), |ts|) >= minSupport ==> s in level) &&
    (forall p :: p in pruned ==> |p| == k && Support(Cover(ts, p), |ts|) < minSupport)
  }

  /** The first level is complete: an item whose containing transactions meet
      the threshold has at least as many occurrences, and a pruned item has
      fewer containing transactions than occurrences below the threshold. */
  lemma FirstLevelComplete(ts: seq<Transaction>, minSupport: real)
    requires |ts| > 0
    ensures LevelComplete(ts, minSupport, FrequentItems(ts, minSupport, Items(ts)).Keys,
                          InfrequentItems(ts, minSupport, Items(ts)), 1)
  {
    forall s | s <= Items(ts) && |s| == 1 && Support(Cover(ts, s), |ts|) >= minSupport
      ensures s in FrequentItems(ts, minSupport, Items(ts))
    {
      var x := Singleton(s);
      CoverAtMostOccurrences(ts, x);
      SupportMonotone(Cover(ts, s), Occurrences(ts, x), |ts|);
      FrequentItemsHas(ts, minSupport, Items(ts), x);
    }
    forall p | p in InfrequentItems(ts, minSupport, Items(ts))
      ensures |p| == 1 && Support(Cover(ts, p), |ts|) < minSupport
    {
      var x :| x in Items(ts) && Support(Occurrences(ts, x), |ts|) < minSupport && p == {x};
      CoverAtMostOccurrences(ts, x);
      SupportMonotone(Cover(ts, p), Occurrences(ts, x), |ts|);
    }
  }

  /** From a complete level every frequent itemset one item larger is a
      candidate: dropping either of two of its items gives two distinct
      frequent `k`-subsets in the level, and a pruned itemset inside it would
      be a frequent `k`-subset as well. */
  lemma CandidateComplete(ts: seq<Transaction>, minSupport: real, level: set<Itemset>,
                          pruned: set<Itemset>, k: nat, s: Itemset)
    requires |ts| > 0 && k >= 1
    requires LevelComplete(ts, minSupport, level, pruned, k)
    requires s <= Items(ts) && |s| == k + 1 && Support(Cover(ts, s), |ts|) >= minSupport
    ensures s in Candidates(level, pruned)
  {
    var x := Element(s);
    RemoveOne(s, x);
    var y := Element(s - {x});
    RemoveOne(s, y);
    var a, b := s - {x}, s - {y};
    CoverAntiMonotone(ts, a, s);
    SupportMonotone(Cover(ts, s), Cover(ts, a), |ts|);
    CoverAntiMonotone(ts, b, s);
    SupportMonotone(Cover(ts, s), Cover(ts, b), |ts|);
    assert a in level && b in level;
    assert x in b && x !in a;
    forall p | p in pruned
      ensures !(p <= s)
    {
      if p <= s {
        CoverAntiMonotone(ts, p, s);
        SupportMonotone(Cover(ts, s), Cover(ts, p), |ts|);
      }
    }
    assert a + b == s;
    assert Joinable(a, b, pruned);
  }

  /** One round keeps the level complete. */
  lemma RoundComplete(ts: seq<Transaction>, minSupport: real, level: set<Itemset>,
                      pruned: set<Itemset>, k: nat)
    requires |ts| > 0 && k >= 1
    requires LevelShape(ts, level, k)
    requires LevelComplete(ts, minSupport, level, pruned, k)
    ensures LevelComplete(ts, minSupport, FrequentOf(ts, minSupport, Candidates(level, pruned)).Keys,
                          PrunedOf(ts, minSupport, Candidates(level, pruned)), k + 1)
  {
    var cands := Candidates(level, pruned);
    CandidatesShape(ts, level, pruned, k);
    forall s | s <= Items(ts) && |s| == k + 1 && Support(Cover(ts, s), |ts|) >= minSupport
      ensures s in FrequentOf(ts, minSupport, cands)
    {
      CandidateComplete(ts, minSupport, level, pruned, k, s);
    }
  }

  /** A complete level under a frequent itemset of more than `k` items has a
      frequent candidate, so the search goes on. */
  lemma NextNonEmpty(ts: seq<Transaction>, minSupport: real, level: set<Itemset>,
                     pruned: set<Itemset>, k: nat, s: Itemset)
    requires |ts| > 0 && k >= 1
    requires LevelComplete(ts, minSupport, level, pruned, k)
    requires s <= Items(ts) && |s| > k && Support(Cover(ts, s), |ts|) >= minSupport
    ensures Candidates(level, pruned) != {}
    ensures FrequentOf(ts, minSupport, Candidates(level, pruned)) != map[]
  {
    var u := SubsetOfSize(s, k + 1);
    CoverAntiMonotone(ts, u, s);
    SupportMonotone(Cover(ts, s), Cover(ts, u), |ts|);
    CandidateComplete(ts, minSupport, level, pruned, k, u);
    assert u in FrequentOf(ts, minSupport, Candidates(level, pruned));
  }

  /** From a complete level of `k`-itemsets the rest of the search reaches
      every frequent itemset of more than `k` items. */
  lemma {:induction false} MineFromComplete(ts: seq<Transaction>, minSupport: real, level: map<Itemset, real>,
                                            pruned: set<Itemset>, acc: map<Itemset, real>, k: nat, s: Itemset)
    requires |ts| > 0 && k >= 1
    requires LevelShape(ts, level.Keys, k)
    requires LevelComplete(ts, minSupport, level.Keys, pruned, k)
    requires s <= Items(ts) && |s| > k && Support(Cover(ts, s), |ts|) >= minSupport
    ensures s in MineFrom(ts, minSupport, level, pruned, acc, k)
    decreases |Items(ts)| - k
  {
    var cands := Candidates(level.Keys, pruned);
    NextNonEmpty(ts, minSupport, level.Keys, pruned, k, s);
    var next := FrequentOf(ts, minSupport, cands);
    var nextPruned := PrunedOf(ts, minSupport, cands);
    MineFromStep(ts, minSupport, level, pruned, acc, k, next, nextPruned);
    if |s| == k + 1 {
      CandidateComplete(ts, minSupport, level.Keys, pruned, k, s);
      assert s in acc + next;
    } else {
      RoundComplete(ts, minSupport, level.Keys, pruned, k);
      MineFromComplete(ts, minSupport, next, nextPruned, acc + next, k + 1, s);
    }
  }

  /** An itemset of two or more items is in the table exactly when its items
      occur and the transactions containing it meet the threshold. */
  lemma AprioriComplete(ts: seq<Transaction>, minSupport: real, s: Itemset)
    requires |ts| > 0 && |s| >= 2
    ensures s in AprioriTable(ts, minSupport) <==>
              s <= Items(ts) && Support(Cover(ts, s), |ts|) >= minSupport
  {
    AprioriSound(ts, minSupport);
    if s <= Items(ts) && Support(Cover(ts, s), |ts|) >= minSupport {
      FirstLevelShape(ts, minSupport);
      FirstLevelComplete(ts, minSupport);
      var level := FrequentItems(ts, minSupport, Items(ts));
      MineFromComplete(ts, minSupport, level, InfrequentItems(ts, minSupport, Items(ts)), level, 1, s);
    }
  }

  /** No transactions, no table: the level-1 counter is empty, so no
      support is ever divided by zero. */
  lemma AprioriEmpty(minSupport: real)
    ensures AprioriTable([], minSupport) == map[]
  {
    assert Items([]) == {};
    assert FrequentItems([], minSupport, {}) == map[];
  }

  /** Repeated items within one transaction count once per repetition at
      level 1: with transactions `[1, 1]` and `[2]` and threshold 1.0, item 1
      is kept with support 1.0 although only one of the two transactions
      contains it. */
  lemma RepeatedItemMeetsFullThreshold(ts: seq<Transaction>)
    requires ts == [[1, 1], [2]]
    ensures {1} in AprioriTable(ts, 1.0) && AprioriTable(ts, 1.0)[{1}] == 1.0
    ensures Cover(ts, {1}) < |ts|
  {
    assert ts[..1] == [[1, 1]] && [[1, 1]][..0] == [];
    assert multiset([1, 1])[1] == 2 && multiset([2])[1] == 0;
    assert Occurrences(ts, 1) == 2;
    assert 1 in Items(ts);
    AprioriSingletons(ts, 1.0, 1);
    AprioriSound(ts, 1.0);
    assert !({1} <= ItemsOf([2])) by { assert 1 !in ItemsOf([2]); }
  }

  /** For the same reason a single-item support can exceed 1: an item
      repeated in the only transaction gets support 2.0. */
  lemma RepeatedItemSupportAboveOne(ts: seq<Transaction>)
    requires ts == [[1, 1]]
    ensures {1} in AprioriTable(ts, 0.5) && AprioriTable(ts, 0.5)[{1}] == 2.0
  {
    assert ts[..0] == [];
    assert multiset([1, 1])[1] == 2;
    assert Occurrences(ts, 1) == 2;
    assert 1 in Items(ts);
    AprioriSingletons(ts, 0.5, 1);
    AprioriSound(ts, 0.5);
  }
}
