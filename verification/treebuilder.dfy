/** Greedy construction of the Huffman tree (`FromFrequencyTable`, first half).

    Each round the library sorts the node list by descending frequency and
    merges the last two entries, so the Right child is a node of least
    frequency and the Left child a node of least frequency among the others.
    The sort is unstable, so among equal frequencies the choice is not fixed:
    the model takes it as a parameter `pick`. Whenever `pick` names a node of
    least frequency that node is used; otherwise the last node of least
    frequency is used, which is the one a sort that keeps equal frequencies
    in place would leave at the end. */
module TreeBuilder {
  import opened Wrappers
  import opened Bits
  import opened Nodes
  import opened FrequencyTables

  /** The tie-break among nodes of equal, least frequency. */
  type Pick = seq<Tree> -> nat

  /** `nodes[i]` has the least frequency in `nodes`. */
  predicate IsMinAt(nodes: seq<Tree>, i: nat)
  {
    i < |nodes| && forall j :: 0 <= j < |nodes| ==> nodes[i].freq <= nodes[j].freq
  }

  /** The last node of least frequency. */
  function LastMin(nodes: seq<Tree>): (i: nat)
    requires |nodes| > 0
    ensures IsMinAt(nodes, i)
    ensures forall j :: i < j < |nodes| ==> nodes[i].freq < nodes[j].freq
    decreases |nodes|
  {
    if |nodes| == 1 then 0
    else
      var k := LastMin(nodes[..|nodes| - 1]);
      if nodes[|nodes| - 1].freq <= nodes[k].freq then |nodes| - 1 else k
  }

  /** The node the sort leaves last: `pick`'s choice when it is a least-frequency node. */
  function Choose(nodes: seq<Tree>, pick: Pick): (i: nat)
    requires |nodes| > 0
    ensures IsMinAt(nodes, i)
    ensures IsMinAt(nodes, pick(nodes)) ==> i == pick(nodes)
  {
    var k := pick(nodes);
    if k < |nodes| && forall j :: 0 <= j < |nodes| ==> nodes[k].freq <= nodes[j].freq then k
    else LastMin(nodes)
  }

  function RemoveAt(s: seq<Tree>, i: nat): (r: seq<Tree>)
    requires i < |s|
    ensures |r| == |s| - 1
  {
    s[..i] + s[i + 1..]
  }

  /** The total frequency of a node list. */
  function SumFreq(nodes: seq<Tree>): int
  {
    if |nodes| == 0 then 0 else SumFreq(nodes[..|nodes| - 1]) + nodes[|nodes| - 1].freq
  }

  /** The leaf chars of a node list, with multiplicity. */
  function CharsOf(nodes: seq<Tree>): multiset<char>
  {
    if |nodes| == 0 then multiset{} else CharsOf(nodes[..|nodes| - 1]) + LeafChars(nodes[|nodes| - 1])
  }

  lemma {:induction false} ConcatSums(a: seq<Tree>, b: seq<Tree>)
    ensures SumFreq(a + b) == SumFreq(a) + SumFreq(b)
    ensures CharsOf(a + b) == CharsOf(a) + CharsOf(b)
    decreases |b|
  {
    if |b| == 0 {
      assert a + b == a;
    } else {
      assert (a + b)[..|a + b| - 1] == a + b[..|b| - 1];
      ConcatSums(a, b[..|b| - 1]);
    }
  }

  lemma SingletonSums(t: Tree)
    ensures SumFreq([t]) == t.freq && CharsOf([t]) == LeafChars(t)
  {
    assert [t][..0] == [];
  }

  /** Removing a node takes exactly that node out of the list. */
  lemma {:induction false} RemoveAtBag(s: seq<Tree>, i: nat)
    requires i < |s|
    ensures multiset(RemoveAt(s, i)) + multiset{s[i]} == multiset(s)
  {
    assert s == s[..i] + ([s[i]] + s[i + 1..]);
  }

  /** Removing a node takes its frequency and its chars out of the totals. */
  lemma {:induction false} RemoveAtSums(s: seq<Tree>, i: nat)
    requires i < |s|
    ensures SumFreq(RemoveAt(s, i)) + s[i].freq == SumFreq(s)
    ensures CharsOf(RemoveAt(s, i)) + LeafChars(s[i]) == CharsOf(s)
  {
    var a, b, t := s[..i], s[i + 1..], s[i];
    RemoveAtSplit(s, i, a, t, b);
    SplitSums(a, t, b);
  }

  lemma {:induction false} RemoveAtSplit(s: seq<Tree>, i: nat, a: seq<Tree>, t: Tree, b: seq<Tree>)
    requires i < |s| && a == s[..i] && t == s[i] && b == s[i + 1..]
    ensures s == a + [t] + b && RemoveAt(s, i) == a + b
  {
    assert s == a + [t] + b;
  }

  lemma {:induction false} SplitSums(a: seq<Tree>, t: Tree, b: seq<Tree>)
    ensures SumFreq(a + [t] + b) == SumFreq(a + b) + t.freq
    ensures CharsOf(a + [t] + b) == CharsOf(a + b) + LeafChars(t)
  {
    assert a + [t] + b == a + ([t] + b);
    ConcatSums(a, [t] + b);
    ConcatSums([t], b);
    ConcatSums(a, b);
    SingletonSums(t);
  }

  /** A least-frequency node is no more frequent than any member of the list. */
  lemma {:induction false} MinBelowAll(s: seq<Tree>, j: nat)
    requires IsMinAt(s, j)
    ensures forall t | t in s :: s[j].freq <= t.freq
  {
  }

  lemma {:induction false} RemoveAtSubset(s: seq<Tree>, i: nat)
    requires i < |s|
    ensures forall t | t in RemoveAt(s, i) :: t in s
  {
  }

  /** One round of the loop: remove a least-frequency node (Right) and a
      least-frequency node of the rest (Left), and append their parent whose
      frequency is their sum. */
  function Merge(nodes: seq<Tree>, pick: Pick): (r: seq<Tree>)
    requires |nodes| >= 2
    ensures |r| == |nodes| - 1
    ensures var m := r[|r| - 1];
      && m.Node?
      && m.freq == m.left.freq + m.right.freq
      && m.right.freq <= m.left.freq
      && (forall t | t in r[..|r| - 1] :: m.left.freq <= t.freq)
      && multiset(r[..|r| - 1]) + multiset{m.left, m.right} == multiset(nodes)
    ensures SumFreq(r) == SumFreq(nodes)
    ensures CharsOf(r) == CharsOf(nodes)
  {
    var i := Choose(nodes, pick);
    var rest := RemoveAt(nodes, i);
    var j := Choose(rest, pick);
    var parent := Node(nodes[i].freq + rest[j].freq, rest[j], nodes[i]);
    MergeBag(nodes, i, j);
    MergeTotals(nodes, i, j);
    MergeOrder(nodes, i, j);
    RemoveAt(rest, j) + [parent]
  }

  lemma {:induction false} MergeBag(nodes: seq<Tree>, i: nat, j: nat)
    requires i < |nodes| && j < |nodes| - 1
    ensures var rest := RemoveAt(nodes, i); var kept := RemoveAt(rest, j);
      multiset(kept) + multiset{rest[j], nodes[i]} == multiset(nodes)
  {
    var rest := RemoveAt(nodes, i);
    RemoveAtBag(nodes, i);
    RemoveAtBag(rest, j);
  }

  lemma {:induction false} MergeTotals(nodes: seq<Tree>, i: nat, j: nat)
    requires i < |nodes| && j < |nodes| - 1
    ensures var rest := RemoveAt(nodes, i); var kept := RemoveAt(rest, j);
      var parent := Node(nodes[i].freq + rest[j].freq, rest[j], nodes[i]);
      && SumFreq(kept + [parent]) == SumFreq(nodes)
      && CharsOf(kept + [parent]) == CharsOf(nodes)
  {
    var rest := RemoveAt(nodes, i);
    var kept := RemoveAt(rest, j);
    var parent := Node(nodes[i].freq + rest[j].freq, rest[j], nodes[i]);
    RemoveAtSums(nodes, i);
    RemoveAtSums(rest, j);
    ConcatSums(kept, [parent]);
    SingletonSums(parent);
    SumsRegroup(SumFreq(kept), rest[j].freq, nodes[i].freq, SumFreq(rest), SumFreq(nodes));
    BagsRegroup(CharsOf(kept), LeafChars(rest[j]), LeafChars(nodes[i]), CharsOf(rest), CharsOf(nodes));
  }

  lemma SumsRegroup(a: int, b: int, c: int, ab: int, abc: int)
    requires a + b == ab && ab + c == abc
    ensures a + (b + c) == abc
  {
  }

  lemma BagsRegroup(a: multiset<char>, b: multiset<char>, c: multiset<char>, ab: multiset<char>, abc: multiset<char>)
    requires a + b == ab && ab + c == abc
    ensures a + (b + c) == abc
  {
  }

  lemma {:induction false} MergeOrder(nodes: seq<Tree>, i: nat, j: nat)
    requires IsMinAt(nodes, i) && IsMinAt(RemoveAt(nodes, i), j)
    ensures var rest := RemoveAt(nodes, i); var kept := RemoveAt(rest, j);
      && nodes[i].freq <= rest[j].freq
      && forall t | t in kept :: rest[j].freq <= t.freq
  {
    var rest := RemoveAt(nodes, i);
    MinBelowAll(nodes, i);
    MinBelowAll(rest, j);
    RemoveAtSubset(nodes, i);
    RemoveAtSubset(rest, j);
  }

  /** Every node after a merge round is an untouched node of the list or the
      new parent, whose children come from the list. */
  lemma {:induction false} MergeParts(nodes: seq<Tree>, pick: Pick)
    requires |nodes| >= 2
    ensures var r := Merge(nodes, pick); var m := r[|r| - 1];
      && m.Node? && m.left in nodes && m.right in nodes
      && forall t | t in r :: t == m || t in nodes
  {
    var r := Merge(nodes, pick);
    var kept, m := r[..|r| - 1], r[|r| - 1];
    assert r == kept + [m];
    forall t | t in r ensures t == m || t in nodes {
      if t != m {
        assert t in kept;
        assert t in multiset(kept);
      }
    }
    assert m.left in multiset(nodes) && m.right in multiset(nodes);
  }

  /** A merge round keeps positivity, the weight invariant and the Left >= Right
      order of every node in the list. */
  lemma {:induction false} MergeKeeps(nodes: seq<Tree>, pick: Pick)
    requires |nodes| >= 2
    ensures (forall n | n in nodes :: PositiveFrequencies(n)) ==>
      forall n | n in Merge(nodes, pick) :: PositiveFrequencies(n)
    ensures (forall n | n in nodes :: Weighted(n)) ==>
      forall n | n in Merge(nodes, pick) :: Weighted(n)
    ensures (forall n | n in nodes :: Ordered(n)) ==>
      forall n | n in Merge(nodes, pick) :: Ordered(n)
  {
    MergeParts(nodes, pick);
  }

  /** The merge loop, run until one node remains. Frequency is conserved (the
      root carries the total of the list), no leaf is lost or duplicated, and
      positivity, the weight invariant and the Left >= Right order all
      carry over from the initial nodes to the root. */
  function BuildTree(nodes: seq<Tree>, pick: Pick): (t: Tree)
    requires |nodes| >= 1
    ensures t.freq == SumFreq(nodes)
    ensures LeafChars(t) == CharsOf(nodes)
    ensures |nodes| == 1 ==> t == nodes[0]
    ensures |nodes| >= 2 ==> t.Node?
    ensures (forall n | n in nodes :: PositiveFrequencies(n)) ==> PositiveFrequencies(t)
    ensures (forall n | n in nodes :: Weighted(n)) ==> Weighted(t)
    ensures (forall n | n in nodes :: Ordered(n)) ==> Ordered(t)
    decreases |nodes|
  {
    if |nodes| == 1 then
      assert nodes == [] + [nodes[0]];
      assert CharsOf(nodes) == LeafChars(nodes[0]) by { assert nodes[..0] == []; }
      nodes[0]
    else
      MergeKeeps(nodes, pick);
      BuildTree(Merge(nodes, pick), pick)
  }

  /** Every node of the list has a positive frequency that is an `int`. */
  predicate FitsInt(nodes: seq<Tree>)
  {
    forall t | t in nodes :: 1 <= t.freq <= IntMax
  }

  /** One round as the library runs it: the parent's frequency is the
      unchecked `int` sum `right.Frequency + left.Frequency`, and the node
      constructor rejects a sum that has wrapped to a value that is not
      positive. On `int` frequencies this is the exact round `Merge`
      whenever the sum fits, and an `InvalidFrequency` failure otherwise. */
  function MergeChecked(nodes: seq<Tree>, pick: Pick): (r: Result<seq<Tree>>)
    requires |nodes| >= 2
    ensures r.Success? ==> |r.value| == |nodes| - 1
    ensures r.Failure? ==> r.error == InvalidFrequency
    ensures FitsInt(nodes) ==> (r.Success? <==> Merge(nodes, pick)[|nodes| - 2].freq <= IntMax)
    ensures FitsInt(nodes) && r.Success? ==> r.value == Merge(nodes, pick) && FitsInt(r.value)
  {
    var i := Choose(nodes, pick);
    var rest := RemoveAt(nodes, i);
    var j := Choose(rest, pick);
    MergeCheckedSum(nodes, pick);
    match NewNode(Int32(nodes[i].freq + rest[j].freq), rest[j], nodes[i])
    case Failure(e) => Failure(e)
    case Success(parent) => Success(RemoveAt(rest, j) + [parent])
  }

  /** The two nodes a round joins are members of the list, and on `int`
      frequencies their wrapped sum is positive exactly when it fits. */
  lemma {:induction false} MergeCheckedSum(nodes: seq<Tree>, pick: Pick)
    requires |nodes| >= 2
    ensures var i := Choose(nodes, pick); var rest := RemoveAt(nodes, i); var j := Choose(rest, pick);
      var m := Merge(nodes, pick);
      && m[|m| - 1] == Node(nodes[i].freq + rest[j].freq, rest[j], nodes[i])
      && m == RemoveAt(rest, j) + [m[|m| - 1]]
      && (FitsInt(nodes) ==>
            && (Int32(nodes[i].freq + rest[j].freq) > 0 <==> nodes[i].freq + rest[j].freq <= IntMax)
            && (nodes[i].freq + rest[j].freq <= IntMax ==> Int32(nodes[i].freq + rest[j].freq) == nodes[i].freq + rest[j].freq)
            && (nodes[i].freq + rest[j].freq <= IntMax ==> FitsInt(m)))
  {
    var i := Choose(nodes, pick);
    var rest := RemoveAt(nodes, i);
    var j := Choose(rest, pick);
    var m := Merge(nodes, pick);
    if FitsInt(nodes) {
      RemoveAtSubset(nodes, i);
      assert rest[j] in rest;
      Int32PositiveSum(nodes[i].freq, rest[j].freq);
      MergeParts(nodes, pick);
    }
  }

  /** The merge loop as the library runs it, every round through `MergeChecked`. */
  function BuildChecked(nodes: seq<Tree>, pick: Pick): (r: Result<Tree>)
    requires |nodes| >= 1
    ensures r.Failure? ==> r.error == InvalidFrequency
    ensures |nodes| == 1 ==> r == Success(nodes[0])
    decreases |nodes|
  {
    if |nodes| == 1 then Success(nodes[0])
    else
      match MergeChecked(nodes, pick)
      case Failure(e) => Failure(e)
      case Success(next) => BuildChecked(next, pick)
  }

  /** On `int` frequencies the library's loop fails exactly when the list's
      total does not fit in an `int`: every parent's frequency is at most the
      total, and the last parent's is the total itself. Otherwise it builds
      the tree of the exact loop `BuildTree`. */
  lemma {:induction false} BuildCheckedTree(nodes: seq<Tree>, pick: Pick)
    requires |nodes| >= 1 && FitsInt(nodes)
    ensures BuildChecked(nodes, pick).Success? <==> SumFreq(nodes) <= IntMax
    ensures BuildChecked(nodes, pick).Success? ==> BuildChecked(nodes, pick).value == BuildTree(nodes, pick)
    decreases |nodes|
  {
    if |nodes| == 1 {
      SingletonSums(nodes[0]);
      assert nodes == [nodes[0]];
      assert nodes[0] in nodes;
    } else {
      var m := Merge(nodes, pick);
      var top := m[|m| - 1];
      MergeCheckedSum(nodes, pick);
      MergeParts(nodes, pick);
      SumFreqAtLeastLast(m);
      if top.freq <= IntMax {
        BuildCheckedTree(m, pick);
      }
    }
  }

  /** A list of positive nodes weighs at least as much as its last node. */
  lemma {:induction false} SumFreqAtLeastLast(s: seq<Tree>)
    requires |s| >= 1 && forall t | t in s :: t.freq >= 1
    ensures SumFreq(s) >= s[|s| - 1].freq
  {
    SumFreqNonnegative(s[..|s| - 1]);
  }

  lemma {:induction false} SumFreqNonnegative(s: seq<Tree>)
    requires forall t | t in s :: t.freq >= 1
    ensures SumFreq(s) >= 0
    decreases |s|
  {
    if |s| > 0 {
      assert s[|s| - 1] in s;
      SumFreqNonnegative(s[..|s| - 1]);
    }
  }

  /** The leaf list built from the table in enumeration order; fails on the
      first entry whose frequency is not positive. */
  function LeavesOf(table: Table): (r: Result<seq<Tree>>)
    ensures r.Success? <==> forall i :: 0 <= i < |table| ==> table[i].1 > 0
    ensures r.Failure? ==> r.error == InvalidFrequency
    ensures r.Success? ==> |r.value| == |table|
    ensures r.Success? ==> forall i :: 0 <= i < |table| ==> r.value[i] == Leaf(table[i].0, table[i].1)
    decreases |table|
  {
    if |table| == 0 then Success([])
    else
      match NewLeaf(table[0].0, table[0].1)
      case Failure(e) => Failure(e)
      case Success(leaf) =>
        match LeavesOf(table[1..])
        case Failure(e) => Failure(e)
        case Success(rest) => Success([leaf] + rest)
  }

  /** The initial leaves carry the table's total frequency and its chars. */
  lemma {:induction false} LeavesTotals(table: Table, leaves: seq<Tree>)
    requires |leaves| == |table|
    requires forall i :: 0 <= i < |table| ==> leaves[i] == Leaf(table[i].0, table[i].1)
    ensures SumFreq(leaves) == Total(table)
    ensures CharsOf(leaves) == multiset(Keys(table))
  {
    LeavesSum(table, leaves);
    LeavesChars(table, leaves);
  }

  lemma {:induction false} LeavesSum(table: Table, leaves: seq<Tree>)
    requires |leaves| == |table|
    requires forall i :: 0 <= i < |table| ==> leaves[i] == Leaf(table[i].0, table[i].1)
    ensures SumFreq(leaves) == Total(table)
    decreases |table|
  {
    if |table| > 0 {
      LeavesSum(table[..|table| - 1], leaves[..|leaves| - 1]);
    }
  }

  lemma {:induction false} LeavesChars(table: Table, leaves: seq<Tree>)
    requires |leaves| == |table|
    requires forall i :: 0 <= i < |table| ==> leaves[i] == Leaf(table[i].0, table[i].1)
    ensures CharsOf(leaves) == multiset(Keys(table))
    decreases |table|
  {
    if |table| > 0 {
      var n := |table| - 1;
      LeavesChars(table[..n], leaves[..n]);
      LeavesCharsStep(table, leaves);
    }
  }

  /** The last leaf carries the last key. */
  lemma {:induction false} LeavesCharsStep(table: Table, leaves: seq<Tree>)
    requires |leaves| == |table| > 0
    requires leaves[|leaves| - 1] == Leaf(table[|table| - 1].0, table[|table| - 1].1)
    requires CharsOf(leaves[..|leaves| - 1]) == multiset(Keys(table[..|table| - 1]))
    ensures CharsOf(leaves) == multiset(Keys(table))
  {
    var n := |table| - 1;
    var c := table[n].0;
    KeysSnoc(table);
    var front := Keys(table[..n]);
    assert Keys(table) == front + [c];
    assert multiset(Keys(table)) == multiset(front) + multiset{c};
    assert LeafChars(leaves[n]) == multiset{c};
  }

  /** Every leaf of `t` is an entry of the table. */
  predicate LeavesIn(t: Tree, table: Table)
  {
    match t
    case Leaf(c, f) => (c, f) in table
    case Node(_, l, r) => LeavesIn(l, table) && LeavesIn(r, table)
  }

  /** A leaf reached along any path is one of the table's entries. */
  lemma {:induction false} FollowLeavesIn(t: Tree, table: Table, p: seq<bool>)
    requires LeavesIn(t, table) && Follow(t, p).Some? && Follow(t, p).value.Leaf?
    ensures (Follow(t, p).value.ch, Follow(t, p).value.freq) in table
    decreases |p|
  {
    if |p| > 0 {
      FollowLeavesIn(if p[0] then t.right else t.left, table, p[1..]);
    }
  }

  lemma {:induction false} MergeKeepsLeavesIn(nodes: seq<Tree>, pick: Pick, table: Table)
    requires |nodes| >= 2
    requires forall n | n in nodes :: LeavesIn(n, table)
    ensures forall n | n in Merge(nodes, pick) :: LeavesIn(n, table)
  {
    MergeParts(nodes, pick);
  }

  /** The merge loop only ever rearranges the initial leaves. */
  lemma {:induction false} BuildTreeLeavesIn(nodes: seq<Tree>, pick: Pick, table: Table)
    requires |nodes| >= 1
    requires forall n | n in nodes :: LeavesIn(n, table)
    ensures LeavesIn(BuildTree(nodes, pick), table)
    decreases |nodes|
  {
    if |nodes| >= 2 {
      MergeKeepsLeavesIn(nodes, pick, table);
      BuildTreeLeavesIn(Merge(nodes, pick), pick, table);
    }
  }

  /** The root the code table is built from: a lone leaf is wrapped in a node
      whose Right child is a placeholder `'\0'` leaf of frequency 1, so that
      the real symbol still gets a one-bit code. The wrapper keeps the lone
      leaf's frequency. */
  function WrapRoot(t: Tree): (root: Tree)
    ensures root.Node?
    ensures root.freq == t.freq
    ensures t.Node? ==> root == t
    ensures t.Leaf? ==> root.left == t && root.right == Leaf('\0', 1)
    ensures LeafChars(root) == LeafChars(t) + (if t.Leaf? then multiset{'\0'} else multiset{})
    ensures PositiveFrequencies(t) ==> PositiveFrequencies(root)
    ensures PositiveFrequencies(t) && Ordered(t) ==> Ordered(root)
  {
    if t.Leaf? then Node(t.freq, t, Leaf('\0', 1)) else t
  }

  /** The wrapper breaks the documented meaning of a node's frequency: its
      children add up to one more than the wrapper itself. */
  lemma WrapperIsNotWeighted(c: char, n: int)
    ensures !Weighted(WrapRoot(Leaf(c, n)))
    ensures WrapRoot(Leaf(c, n)).left.freq + WrapRoot(Leaf(c, n)).right.freq == WrapRoot(Leaf(c, n)).freq + 1
  {
  }
}
