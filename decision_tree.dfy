/** Decision-tree learner and classifier (project2/new.py).

    A tree is either a leaf carrying a class label or a split on one attribute
    index whose branches are kept, like the source's dictionary, as an
    insertion-ordered list of (attribute value, subtree) pairs with distinct keys.
    The gain-ratio heuristic is a parameter: the model treats it as an arbitrary
    real-valued function of (records, labels, attribute index). */
module DecisionTree {
  import opened Sets

  type Value = string
  type Label = string
  type Record = seq<Value>

  /** The split heuristic (`gainRatio` in the source), left uninterpreted. */
  type Gain = (seq<Record>, seq<Label>, nat) -> real

  datatype Node =
    | Leaf(leafLabel: Label)
    | Split(attribute: nat, branches: seq<(Value, Node)>)

  // ---------------------------------------------------------------------------
  // Aggregates over trees

  /** Multiset union of a sequence of multisets. */
  function Union(ms: seq<multiset<Label>>): multiset<Label>
  {
    if ms == [] then multiset{} else Union(ms[..|ms| - 1]) + ms[|ms| - 1]
  }

  /** Sum of a sequence of naturals. */
  function Total(xs: seq<nat>): nat
  {
    if xs == [] then 0 else Total(xs[..|xs| - 1]) + xs[|xs| - 1]
  }

  /** Largest element of a sequence of naturals (0 for the empty sequence). */
  function Highest(xs: seq<nat>): nat
  {
    if xs == [] then 0
    else
      var h := Highest(xs[..|xs| - 1]);
      if xs[|xs| - 1] > h then xs[|xs| - 1] else h
  }

  /** The labels of all leaves of a tree, with multiplicity. */
  function LeafLabels(n: Node): multiset<Label>
  {
    match n
    case Leaf(l) => multiset{l}
    case Split(_, bs) => Union(seq(|bs|, i requires 0 <= i < |bs| => LeafLabels(bs[i].1)))
  }

  /** Number of nodes of a tree. */
  function Size(n: Node): nat
  {
    match n
    case Leaf(_) => 1
    case Split(_, bs) => 1 + Total(seq(|bs|, i requires 0 <= i < |bs| => Size(bs[i].1)))
  }

  /** Number of split nodes on the longest root-to-leaf path. */
  function Height(n: Node): nat
  {
    match n
    case Leaf(_) => 0
    case Split(_, bs) => 1 + Highest(seq(|bs|, i requires 0 <= i < |bs| => Height(bs[i].1)))
  }

  /** The keys of a branch list are pairwise distinct, as dictionary keys are. */
  predicate DistinctKeys(bs: seq<(Value, Node)>)
  {
    forall i, j :: 0 <= i < j < |bs| ==> bs[i].0 != bs[j].0
  }

  /** Every split has at least one branch and distinct branch keys. */
  predicate WellFormed(n: Node)
  {
    match n
    case Leaf(_) => true
    case Split(_, bs) =>
      |bs| > 0 && DistinctKeys(bs) && forall i :: 0 <= i < |bs| ==> WellFormed(bs[i].1)
  }

  /** The attributes tested by split nodes anywhere in the tree. */
  function SplitAttributes(n: Node): set<nat>
  {
    match n
    case Leaf(_) => {}
    case Split(a, bs) =>
      {a} + (set i, x | 0 <= i < |bs| && x in SplitAttributes(bs[i].1) :: x)
  }

  /** `top` occurs in `ms` at least as often as any other label. */
  predicate IsMajority(ms: multiset<Label>, top: Label)
  {
    top in ms && forall l :: l in ms ==> ms[l] <= ms[top]
  }

  // ---------------------------------------------------------------------------
  // Helpers of buildTree

  /** The most common label, ties going to the label that occurs first
      (`Counter(labels).most_common(1)[0][0]`). Scans positions from `i` on,
      keeping `best` unless a label with a strictly larger count appears. */
  function MajorityFrom(labels: seq<Label>, i: nat, best: Label): (m: Label)
    requires i <= |labels| && best in labels
    requires forall j :: 0 <= j < i ==> multiset(labels)[labels[j]] <= multiset(labels)[best]
    ensures m in labels
    ensures forall j :: 0 <= j < |labels| ==> multiset(labels)[labels[j]] <= multiset(labels)[m]
    decreases |labels| - i
  {
    if i == |labels| then best
    else if multiset(labels)[labels[i]] > multiset(labels)[best] then MajorityFrom(labels, i + 1, labels[i])
    else MajorityFrom(labels, i + 1, best)
  }

  function Majority(labels: seq<Label>): (m: Label)
    requires |labels| > 0
    ensures IsMajority(multiset(labels), m)
  {
    var m := MajorityFrom(labels, 1, labels[0]);
    assert forall l :: l in labels ==> multiset(labels)[l] <= multiset(labels)[m] by {
      forall l | l in labels ensures multiset(labels)[l] <= multiset(labels)[m] {
        var j :| 0 <= j < |labels| && labels[j] == l;
      }
    }
    m
  }

  /** Index of the first maximal element, as Python's `max` with a key returns
      the first of several equal maxima. */
  function FirstMaxIndex(gs: seq<real>): (k: nat)
    requires |gs| > 0
    ensures k < |gs|
    ensures forall j :: 0 <= j < |gs| ==> gs[j] <= gs[k]
    ensures forall j :: 0 <= j < k ==> gs[j] < gs[k]
  {
    if |gs| == 1 then 0
    else
      var k := FirstMaxIndex(gs[..|gs| - 1]);
      if gs[|gs| - 1] > gs[k] then |gs| - 1 else k
  }

  /** The attribute list with every occurrence of `a` removed. */
  function Without(attrs: seq<nat>, a: nat): (r: seq<nat>)
    ensures forall x :: x in r <==> x in attrs && x != a
    ensures a in attrs ==> |r| < |attrs|
    ensures |r| <= |attrs|
  {
    if attrs == [] then []
    else if attrs[0] == a then Without(attrs[1..], a)
    else [attrs[0]] + Without(attrs[1..], a)
  }

  /** Removing an attribute distributes over concatenation, so the remaining
      attributes keep their order. */
  lemma {:induction false} WithoutConcat(xs: seq<nat>, ys: seq<nat>, a: nat)
    ensures Without(xs + ys, a) == Without(xs, a) + Without(ys, a)
  {
    if xs == [] {
      assert xs + ys == ys;
    } else {
      assert (xs + ys)[1..] == xs[1..] + ys;
      WithoutConcat(xs[1..], ys, a);
    }
  }

  /** Every record is long enough to be indexed by attribute `a`. */
  predicate Indexable(data: seq<Record>, a: nat)
  {
    forall r :: r in data ==> a < |r|
  }

  /** The distinct values of attribute `a` among the records, in order of first
      appearance (the key order of the source's `defaultdict`). */
  function Values(data: seq<Record>, a: nat): (vs: seq<Value>)
    requires Indexable(data, a)
    ensures forall v :: v in vs <==> exists r :: r in data && r[a] == v
    ensures forall i, j :: 0 <= i < j < |vs| ==> vs[i] != vs[j]
  {
    if data == [] then []
    else
      var pre := Values(data[..|data| - 1], a);
      var v := data[|data| - 1][a];
      assert forall r :: r in data <==> r in data[..|data| - 1] || r == data[|data| - 1] by {
        assert data == data[..|data| - 1] + [data[|data| - 1]];
      }
      if v in pre then pre else pre + [v]
  }

  /** The values come in order of first appearance: every record before the
      first one carrying the `i`-th value carries one of the earlier values. */
  lemma {:induction false} ValuesInOrder(data: seq<Record>, a: nat, i: nat)
    requires Indexable(data, a) && i < |Values(data, a)|
    ensures exists p :: 0 <= p < |data| && data[p][a] == Values(data, a)[i] &&
                        forall q :: 0 <= q < p ==> data[q][a] in Values(data, a)[..i]
  {
    var n := |data|;
    var init := data[..n - 1];
    assert Indexable(init, a) by {
      assert forall r :: r in init ==> r in data;
    }
    var pre := Values(init, a);
    var vs := Values(data, a);
    if i < |pre| {
      assert vs[i] == pre[i] && vs[..i] == pre[..i];
      ValuesInOrder(init, a, i);
      var p :| 0 <= p < |init| && init[p][a] == pre[i] &&
               forall q :: 0 <= q < p ==> init[q][a] in pre[..i];
      assert data[p][a] == vs[i];
      assert forall q :: 0 <= q < p ==> data[q] == init[q];
    } else {
      assert vs == pre + [data[n - 1][a]] && vs[..i] == pre;
      forall q | 0 <= q < n - 1
        ensures data[q][a] in vs[..i]
      {
        assert init[q] in init;
      }
    }
  }

  /** Records paired with their labels (`zip(data, labels)`). */
  function Zip(data: seq<Record>, labels: seq<Label>): (z: seq<(Record, Label)>)
    requires |data| == |labels|
    ensures |z| == |data|
    ensures forall p :: p in z ==> p.0 in data && p.1 in labels
  {
    if data == [] then [] else [(data[0], labels[0])] + Zip(data[1..], labels[1..])
  }

  /** The records whose attribute `a` equals `v`, with their labels, in order. */
  function Select(data: seq<Record>, labels: seq<Label>, a: nat, v: Value): (g: (seq<Record>, seq<Label>))
    requires |data| == |labels|
    requires Indexable(data, a)
    ensures |g.0| == |g.1| <= |data|
    ensures forall r :: r in g.0 ==> r in data && r[a] == v
    ensures forall l :: l in g.1 ==> l in labels
    ensures (exists r :: r in data && r[a] == v) ==> |g.0| > 0
  {
    if data == [] then ([], [])
    else
      var rest := Select(data[1..], labels[1..], a, v);
      assert forall r :: r in data ==> r == data[0] || r in data[1..];
      if data[0][a] == v then ([data[0]] + rest.0, [labels[0]] + rest.1) else rest
  }

  /** A group holds exactly the (record, label) pairs of the input whose
      attribute `a` is `v`, each as often as in the input. */
  lemma {:induction false} SelectExact(data: seq<Record>, labels: seq<Label>, a: nat, v: Value)
    requires |data| == |labels|
    requires Indexable(data, a)
    ensures var g := Select(data, labels, a, v);
            forall p :: p in Zip(g.0, g.1) ==> p.0[a] == v
    ensures var g := Select(data, labels, a, v);
            forall p :: multiset(Zip(g.0, g.1))[p] ==
                        if a < |p.0| && p.0[a] == v then multiset(Zip(data, labels))[p] else 0
  {
    var g := Select(data, labels, a, v);
    if data != [] {
      SelectExact(data[1..], labels[1..], a, v);
      var rest := Select(data[1..], labels[1..], a, v);
      assert Zip(data, labels) == [(data[0], labels[0])] + Zip(data[1..], labels[1..]);
      if data[0][a] == v {
        assert Zip(g.0, g.1) == [(data[0], labels[0])] + Zip(rest.0, rest.1);
      }
    }
  }

  /** The gain of each candidate attribute, in list order. */
  function Gains(data: seq<Record>, labels: seq<Label>, attrs: seq<nat>, gain: Gain): (gs: seq<real>)
    ensures |gs| == |attrs|
    ensures forall i :: 0 <= i < |attrs| ==> gs[i] == gain(data, labels, attrs[i])
  {
    seq(|attrs|, i requires 0 <= i < |attrs| => gain(data, labels, attrs[i]))
  }

  /** What `buildTree` demands: aligned, non-empty records and labels, and every
      attribute index valid for every record. */
  predicate TrainingInput(data: seq<Record>, labels: seq<Label>, attrs: seq<nat>)
  {
    |data| == |labels| > 0 && forall a :: a in attrs ==> Indexable(data, a)
  }

  // ---------------------------------------------------------------------------
  // buildTree

  function BuildTree(data: seq<Record>, labels: seq<Label>, attrs: seq<nat>, gain: Gain): Node
    requires TrainingInput(data, labels, attrs)
    decreases |attrs|, 1
  {
    if |set l | l in labels| == 1 then Leaf(labels[0])
    else if attrs == [] then Leaf(Majority(labels))
    else
      var gs := Gains(data, labels, attrs, gain);
      var b := FirstMaxIndex(gs);
      if gs[b] == 0.0 then Leaf(Majority(labels))
      else
        var best := attrs[b];
        var vals := Values(data, best);
        Split(best, seq(|vals|, i requires 0 <= i < |vals| =>
          (vals[i], assert vals[i] in vals; Child(data, labels, attrs, best, vals[i], gain))))
  }

  /** The subtree built for the records whose attribute `best` equals `v`,
      with `best` removed from the attribute list. */
  function Child(data: seq<Record>, labels: seq<Label>, attrs: seq<nat>, best: nat, v: Value, gain: Gain): Node
    requires TrainingInput(data, labels, attrs)
    requires best in attrs
    requires exists r :: r in data && r[best] == v
    decreases |attrs|, 0
  {
    var g := Select(data, labels, best, v);
    BuildTree(g.0, g.1, Without(attrs, best), gain)
  }

  /** Labels that are all equal give a leaf carrying that label. */
  lemma BuildTreeUniform(data: seq<Record>, labels: seq<Label>, attrs: seq<nat>, gain: Gain)
    requires TrainingInput(data, labels, attrs)
    requires forall i :: 0 <= i < |labels| ==> labels[i] == labels[0]
    ensures BuildTree(data, labels, attrs, gain) == Leaf(labels[0])
  {
    assert (set l | l in labels) == {labels[0]};
  }

  /** Mixed labels with no attribute left, or whose best gain is zero, give a
      single leaf carrying a label of maximal count. */
  lemma BuildTreeMajority(data: seq<Record>, labels: seq<Label>, attrs: seq<nat>, gain: Gain)
    requires TrainingInput(data, labels, attrs)
    requires exists i :: 0 <= i < |labels| && labels[i] != labels[0]
    requires attrs == [] ||
             ((forall a :: a in attrs ==> gain(data, labels, a) <= 0.0) &&
              (exists a :: a in attrs && gain(data, labels, a) == 0.0))
    ensures var t := BuildTree(data, labels, attrs, gain);
            t.Leaf? && IsMajority(multiset(labels), t.leafLabel)
  {
    var i :| 0 <= i < |labels| && labels[i] != labels[0];
    assert {labels[0], labels[i]} <= (set l | l in labels);
    assert |{labels[0], labels[i]}| == 2;
    SubsetSize({labels[0], labels[i]}, set l | l in labels);
    if attrs != [] {
      var gs := Gains(data, labels, attrs, gain);
      var b := FirstMaxIndex(gs);
      assert attrs[b] in attrs;
    }
  }


  /** Mixed labels, an attribute left, and a best gain ratio that is not zero
      give a split. */
  lemma BuildTreeSplits(data: seq<Record>, labels: seq<Label>, attrs: seq<nat>, gain: Gain)
    requires TrainingInput(data, labels, attrs)
    requires exists i :: 0 <= i < |labels| && labels[i] != labels[0]
    requires attrs != []
    requires exists a :: a in attrs && gain(data, labels, a) != 0.0 &&
                         forall b :: b in attrs ==> gain(data, labels, b) <= gain(data, labels, a)
    ensures BuildTree(data, labels, attrs, gain).Split?
  {
    var i :| 0 <= i < |labels| && labels[i] != labels[0];
    assert {labels[0], labels[i]} <= (set l | l in labels);
    assert |{labels[0], labels[i]}| == 2;
    SubsetSize({labels[0], labels[i]}, set l | l in labels);
    var a :| a in attrs && gain(data, labels, a) != 0.0 &&
             forall b :: b in attrs ==> gain(data, labels, b) <= gain(data, labels, a);
    var j :| 0 <= j < |attrs| && attrs[j] == a;
    var gs := Gains(data, labels, attrs, gain);
    var b := FirstMaxIndex(gs);
    assert attrs[b] in attrs;
    assert gs[j] <= gs[b];
  }

  /** Otherwise the tree splits on the first attribute of maximal gain; its
      branches are keyed by the distinct values of that attribute, in order of
      first appearance, and each child is built from the non-empty group of
      records carrying that value, with the attribute removed. */
  lemma BuildTreeSplit(data: seq<Record>, labels: seq<Label>, attrs: seq<nat>, gain: Gain)
    requires TrainingInput(data, labels, attrs)
    requires BuildTree(data, labels, attrs, gain).Split?
    ensures var t := BuildTree(data, labels, attrs, gain);
            && t.attribute in attrs
            && (exists b :: 0 <= b < |attrs| && attrs[b] == t.attribute &&
                  (forall j :: 0 <= j < |attrs| ==> gain(data, labels, attrs[j]) <= gain(data, labels, attrs[b])) &&
                  (forall j :: 0 <= j < b ==> gain(data, labels, attrs[j]) < gain(data, labels, attrs[b])))
            && gain(data, labels, t.attribute) != 0.0
            && Indexable(data, t.attribute)
            && |t.branches| == |Values(data, t.attribute)|
            && (forall i :: 0 <= i < |t.branches| ==>
                  && t.branches[i].0 == Values(data, t.attribute)[i]
                  && (exists r :: r in data && r[t.attribute] == t.branches[i].0)
                  && t.branches[i].1 == Child(data, labels, attrs, t.attribute, t.branches[i].0, gain))
  {
    var gs := Gains(data, labels, attrs, gain);
    var b := FirstMaxIndex(gs);
    var vals := Values(data, attrs[b]);
    assert forall i :: 0 <= i < |vals| ==> vals[i] in vals;
  }

  lemma {:induction false} UnionContains(ms: seq<multiset<Label>>, i: nat)
    requires i < |ms|
    ensures ms[i] <= Union(ms)
  {
    if i < |ms| - 1 {
      UnionContains(ms[..|ms| - 1], i);
    }
  }

  lemma {:induction false} UnionWithin(ms: seq<multiset<Label>>, labels: seq<Label>)
    requires forall i :: 0 <= i < |ms| ==> forall l :: l in ms[i] ==> l in labels
    ensures forall l :: l in Union(ms) ==> l in labels
  {
    if ms != [] {
      UnionWithin(ms[..|ms| - 1], labels);
    }
  }

  lemma {:induction false} HighestBound(xs: seq<nat>, b: nat)
    requires forall i :: 0 <= i < |xs| ==> xs[i] <= b
    ensures Highest(xs) <= b
  {
    if xs != [] {
      HighestBound(xs[..|xs| - 1], b);
    }
  }

  /** Every leaf of the built tree carries one of the training labels. */
  lemma {:induction false} BuildTreeLeavesFromLabels(data: seq<Record>, labels: seq<Label>, attrs: seq<nat>, gain: Gain)
    requires TrainingInput(data, labels, attrs)
    ensures forall l :: l in LeafLabels(BuildTree(data, labels, attrs, gain)) ==> l in labels
    decreases |attrs|
  {
    var t := BuildTree(data, labels, attrs, gain);
    if t.Leaf? {
      if |set l | l in labels| != 1 {
        assert IsMajority(multiset(labels), Majority(labels));
      }
    } else {
      BuildTreeSplit(data, labels, attrs, gain);
      var bs := t.branches;
      var ms := seq(|bs|, i requires 0 <= i < |bs| => LeafLabels(bs[i].1));
      forall i | 0 <= i < |bs| ensures forall l :: l in ms[i] ==> l in labels {
        var g := Select(data, labels, t.attribute, bs[i].0);
        BuildTreeLeavesFromLabels(g.0, g.1, Without(attrs, t.attribute), gain);
      }
      UnionWithin(ms, labels);
    }
  }

  /** The built tree has no empty split and no repeated branch key. */
  lemma {:induction false} BuildTreeWellFormed(data: seq<Record>, labels: seq<Label>, attrs: seq<nat>, gain: Gain)
    requires TrainingInput(data, labels, attrs)
    ensures WellFormed(BuildTree(data, labels, attrs, gain))
    decreases |attrs|
  {
    var t := BuildTree(data, labels, attrs, gain);
    if t.Split? {
      BuildTreeSplit(data, labels, attrs, gain);
      var vals := Values(data, t.attribute);
      assert data[0] in data;
      assert data[0][t.attribute] in vals;
      forall i | 0 <= i < |t.branches| ensures WellFormed(t.branches[i].1) {
        var g := Select(data, labels, t.attribute, t.branches[i].0);
        BuildTreeWellFormed(g.0, g.1, Without(attrs, t.attribute), gain);
      }
    }
  }

  /** Each split consumes one attribute, so the tree is no deeper than the
      number of attributes. */
  lemma {:induction false} BuildTreeHeight(data: seq<Record>, labels: seq<Label>, attrs: seq<nat>, gain: Gain)
    requires TrainingInput(data, labels, attrs)
    ensures Height(BuildTree(data, labels, attrs, gain)) <= |attrs|
    decreases |attrs|
  {
    var t := BuildTree(data, labels, attrs, gain);
    if t.Split? {
      BuildTreeSplit(data, labels, attrs, gain);
      var bs := t.branches;
      var hs := seq(|bs|, i requires 0 <= i < |bs| => Height(bs[i].1));
      forall i | 0 <= i < |bs| ensures hs[i] <= |attrs| - 1 {
        var g := Select(data, labels, t.attribute, bs[i].0);
        BuildTreeHeight(g.0, g.1, Without(attrs, t.attribute), gain);
      }
      HighestBound(hs, |attrs| - 1);
    }
  }

  /** Every split tests an attribute of the list, and no attribute is tested
      again below the split that uses it. */
  lemma {:induction false} BuildTreeAttributes(data: seq<Record>, labels: seq<Label>, attrs: seq<nat>, gain: Gain)
    requires TrainingInput(data, labels, attrs)
    ensures forall a :: a in SplitAttributes(BuildTree(data, labels, attrs, gain)) ==> a in attrs
    ensures var t := BuildTree(data, labels, attrs, gain);
            t.Split? ==> forall i :: 0 <= i < |t.branches| ==> t.attribute !in SplitAttributes(t.branches[i].1)
    decreases |attrs|
  {
    var t := BuildTree(data, labels, attrs, gain);
    if t.Split? {
      BuildTreeSplit(data, labels, attrs, gain);
      forall i | 0 <= i < |t.branches|
        ensures forall a :: a in SplitAttributes(t.branches[i].1) ==> a in attrs && a != t.attribute
      {
        var g := Select(data, labels, t.attribute, t.branches[i].0);
        BuildTreeAttributes(g.0, g.1, Without(attrs, t.attribute), gain);
      }
    }
  }

  // ---------------------------------------------------------------------------
  // classify

  /** Position of the branch whose key is `v`, or `|bs|` when there is none
      (`v in node.branches`). */
  function BranchIndex(bs: seq<(Value, Node)>, v: Value): (k: nat)
    ensures k <= |bs|
    ensures k < |bs| ==> bs[k].0 == v
    ensures forall j :: 0 <= j < k ==> bs[j].0 != v
  {
    if bs == [] then 0
    else if bs[0].0 == v then 0
    else 1 + BranchIndex(bs[1..], v)
  }

  /** Every split met on the descent of `record` indexes a field it has. */
  predicate Readable(n: Node, record: Record)
  {
    match n
    case Leaf(_) => true
    case Split(a, bs) =>
      a < |record| &&
      var k := BranchIndex(bs, record[a]);
      k < |bs| ==> Readable(bs[k].1, record)
  }

  /** What `classify` may answer: the leaf's label; the answer of the branch
      matching the record's value; or, when no branch matches, a label of
      maximal count among the leaves below the current node. */
  predicate Classified(n: Node, record: Record, answer: Label)
    requires Readable(n, record)
  {
    match n
    case Leaf(l) => answer == l
    case Split(a, bs) =>
      var k := BranchIndex(bs, record[a]);
      if k < |bs| then Classified(bs[k].1, record, answer)
      else IsMajority(LeafLabels(n), answer)
  }

  /** The leaf labels of each tree of a sequence, in order. */
  function LeavesOf(s: seq<Node>): (ms: seq<multiset<Label>>)
    ensures |ms| == |s|
  {
    seq(|s|, i requires 0 <= i < |s| => LeafLabels(s[i]))
  }

  /** The node count of each tree of a sequence, in order. */
  function SizesOf(s: seq<Node>): (zs: seq<nat>)
    ensures |zs| == |s|
  {
    seq(|s|, i requires 0 <= i < |s| => Size(s[i]))
  }

  /** Leaf labels of a stack of subtrees. */
  function Forest(s: seq<Node>): multiset<Label>
  {
    Union(LeavesOf(s))
  }

  /** Number of nodes in a stack of subtrees. */
  function ForestSize(s: seq<Node>): nat
  {
    Total(SizesOf(s))
  }

  /** The subtrees of a split's branches, in branch order. */
  function Subtrees(bs: seq<(Value, Node)>): (ns: seq<Node>)
    ensures |ns| == |bs|
  {
    seq(|bs|, j requires 0 <= j < |bs| => bs[j].1)
  }

  lemma {:induction false} UnionConcat(xs: seq<multiset<Label>>, ys: seq<multiset<Label>>)
    ensures Union(xs + ys) == Union(xs) + Union(ys)
  {
    if ys == [] {
      assert xs + ys == xs;
    } else {
      UnionConcat(xs, ys[..|ys| - 1]);
      assert (xs + ys)[..|xs + ys| - 1] == xs + ys[..|ys| - 1];
    }
  }

  lemma {:induction false} TotalConcat(xs: seq<nat>, ys: seq<nat>)
    ensures Total(xs + ys) == Total(xs) + Total(ys)
  {
    if ys == [] {
      assert xs + ys == xs;
    } else {
      TotalConcat(xs, ys[..|ys| - 1]);
      assert (xs + ys)[..|xs + ys| - 1] == xs + ys[..|ys| - 1];
    }
  }

  /** The leaves and node count of two stacks on top of each other. */
  lemma ForestConcat(a: seq<Node>, b: seq<Node>)
    ensures Forest(a + b) == Forest(a) + Forest(b)
    ensures ForestSize(a + b) == ForestSize(a) + ForestSize(b)
  {
    assert LeavesOf(a + b) == LeavesOf(a) + LeavesOf(b);
    assert SizesOf(a + b) == SizesOf(a) + SizesOf(b);
    UnionConcat(LeavesOf(a), LeavesOf(b));
    TotalConcat(SizesOf(a), SizesOf(b));
  }

  /** A stack of one tree holds that tree's leaves and nodes. */
  lemma ForestSingle(x: Node)
    ensures Forest([x]) == LeafLabels(x)
    ensures ForestSize([x]) == Size(x)
  {
    var ms := LeavesOf([x]);
    assert ms[..0] == [] && ms[0] == LeafLabels(x);
    assert Union(ms) == Union(ms[..0]) + ms[0];
    var zs := SizesOf([x]);
    assert zs[..0] == [] && zs[0] == Size(x);
    assert Total(zs) == Total(zs[..0]) + zs[0];
  }

  /** Popping the top of a stack separates that subtree from the rest. */
  lemma ForestPop(stack: seq<Node>)
    requires stack != []
    ensures Forest(stack) == Forest(stack[..|stack| - 1]) + LeafLabels(stack[|stack| - 1])
    ensures ForestSize(stack) == ForestSize(stack[..|stack| - 1]) + Size(stack[|stack| - 1])
  {
    var top := stack[|stack| - 1];
    assert stack == stack[..|stack| - 1] + [top];
    ForestConcat(stack[..|stack| - 1], [top]);
    ForestSingle(top);
  }

  /** Replacing a popped split by its subtrees keeps the leaves and removes
      one node. */
  lemma SplitPushed(base: seq<Node>, cur: Node)
    requires cur.Split?
    ensures Forest(base + Subtrees(cur.branches)) == Forest(base) + LeafLabels(cur)
    ensures ForestSize(base + Subtrees(cur.branches)) + 1 == ForestSize(base) + Size(cur)
  {
    var bs := cur.branches;
    ForestConcat(base, Subtrees(bs));
    assert LeavesOf(Subtrees(bs)) == seq(|bs|, i requires 0 <= i < |bs| => LeafLabels(bs[i].1));
    assert SizesOf(Subtrees(bs)) == seq(|bs|, i requires 0 <= i < |bs| => Size(bs[i].1));
  }

  /** `for child in cur.branches.values(): stack.append(child)` */
  method PushBranches(stack: seq<Node>, bs: seq<(Value, Node)>) returns (pushed: seq<Node>)
    ensures pushed == stack + Subtrees(bs)
  {
    pushed := stack;
    var i := 0;
    while i < |bs|
      invariant 0 <= i <= |bs|
      invariant pushed == stack + Subtrees(bs)[..i]
    {
      assert Subtrees(bs)[..i + 1] == Subtrees(bs)[..i] + [bs[i].1];
      pushed := pushed + [bs[i].1];
      i := i + 1;
    }
    assert Subtrees(bs)[..i] == Subtrees(bs);
  }

  /** The fallback of `classify`: walks the subtree with an explicit stack,
      collects the label of every leaf, and returns a most common one. */
  method MajorityLeafLabel(node: Node) returns (top: Label)
    requires |LeafLabels(node)| > 0
    ensures IsMajority(LeafLabels(node), top)
  {
    var stack := [node];
    var labels: seq<Label> := [];
    ForestSingle(node);
    while stack != []
      invariant multiset(labels) + Forest(stack) == LeafLabels(node)
      decreases ForestSize(stack)
    {
      ForestPop(stack);
      var cur := stack[|stack| - 1];
      stack := stack[..|stack| - 1];
      if cur.Leaf? {
        labels := labels + [cur.leafLabel];
      } else {
        SplitPushed(stack, cur);
        stack := PushBranches(stack, cur.branches);
      }
    }
    top := Majority(labels);
  }

  lemma {:induction false} LeavesNonEmpty(n: Node)
    requires WellFormed(n)
    ensures |LeafLabels(n)| > 0
  {
    match n
    case Leaf(_) =>
    case Split(_, bs) =>
      LeavesNonEmpty(bs[0].1);
      UnionContains(seq(|bs|, i requires 0 <= i < |bs| => LeafLabels(bs[i].1)), 0);
  }

  /** Where the descent of `record` finds no matching branch, the current
      subtree has at least one leaf (otherwise the source's
      `most_common(1)[0]` fails on an empty counter). */
  predicate FallbackDefined(n: Node, record: Record)
    requires Readable(n, record)
  {
    match n
    case Leaf(_) => true
    case Split(a, bs) =>
      var k := BranchIndex(bs, record[a]);
      if k < |bs| then FallbackDefined(bs[k].1, record) else |LeafLabels(n)| > 0
  }

  /** In a well-formed tree every fallback has a leaf to vote. */
  lemma {:induction false} WellFormedFallback(n: Node, record: Record)
    requires WellFormed(n) && Readable(n, record)
    ensures FallbackDefined(n, record)
  {
    match n
    case Leaf(_) =>
    case Split(a, bs) =>
      var k := BranchIndex(bs, record[a]);
      if k < |bs| {
        WellFormedFallback(bs[k].1, record);
      } else {
        LeavesNonEmpty(n);
      }
  }

  method Classify(node: Node, record: Record) returns (answer: Label)
    requires Readable(node, record) && FallbackDefined(node, record)
    ensures Classified(node, record, answer)
    decreases node
  {
    match node
    case Leaf(l) =>
      answer := l;
    case Split(a, bs) =>
      var val := record[a];
      var k := BranchIndex(bs, val);
      if k < |bs| {
        answer := Classify(bs[k].1, record);
      } else {
        answer := MajorityLeafLabel(node);
      }
  }

  /** Whatever `classify` answers is the label of some leaf of the tree. */
  lemma {:induction false} ClassifiedIsLeafLabel(n: Node, record: Record, answer: Label)
    requires Readable(n, record) && Classified(n, record, answer)
    ensures answer in LeafLabels(n)
  {
    match n
    case Leaf(_) =>
    case Split(a, bs) =>
      var k := BranchIndex(bs, record[a]);
      if k < |bs| {
        ClassifiedIsLeafLabel(bs[k].1, record, answer);
        UnionContains(seq(|bs|, i requires 0 <= i < |bs| => LeafLabels(bs[i].1)), k);
      }
  }

  /** A tree built from training labels only ever predicts one of them. */
  lemma PredictionIsTrainingLabel(data: seq<Record>, labels: seq<Label>, attrs: seq<nat>, gain: Gain,
                                  record: Record, answer: Label)
    requires TrainingInput(data, labels, attrs)
    requires Readable(BuildTree(data, labels, attrs, gain), record)
    requires Classified(BuildTree(data, labels, attrs, gain), record, answer)
    ensures answer in labels
  {
    ClassifiedIsLeafLabel(BuildTree(data, labels, attrs, gain), record, answer);
    BuildTreeLeavesFromLabels(data, labels, attrs, gain);
  }
}
