/** The dictionary tree. A node is either an internal `Node` with a Left and a
    Right child or a `Leaf` holding one char; both carry a frequency. The
    library's records are immutable (get-only and init-only properties), which
    a datatype value is by construction. */
module Nodes {
  import opened Wrappers

  datatype Tree =
    | Node(freq: int, left: Tree, right: Tree)
    | Leaf(ch: char, freq: int)

  /** The `Node` constructor: rejects a frequency that is not positive. */
  function NewNode(freq: int, left: Tree, right: Tree): (r: Result<Tree>)
    ensures r.Failure? <==> freq <= 0
    ensures r.Failure? ==> r.error == InvalidFrequency
    ensures r.Success? ==> r.value.Node? && r.value.freq == freq
                           && r.value.left == left && r.value.right == right
  {
    if freq <= 0 then Failure(InvalidFrequency) else Success(Node(freq, left, right))
  }

  /** The `Leaf` constructor: rejects a frequency that is not positive. */
  function NewLeaf(c: char, freq: int): (r: Result<Tree>)
    ensures r.Failure? <==> freq <= 0
    ensures r.Failure? ==> r.error == InvalidFrequency
    ensures r.Success? ==> r.value.Leaf? && r.value.ch == c && r.value.freq == freq
  {
    if freq <= 0 then Failure(InvalidFrequency) else Success(Leaf(c, freq))
  }

  /** Every node of the tree has a frequency of at least 1. */
  predicate PositiveFrequencies(t: Tree)
  {
    t.freq >= 1 && (t.Node? ==> PositiveFrequencies(t.left) && PositiveFrequencies(t.right))
  }

  /** Every internal node's frequency is the sum of its children's: the documented
      meaning of a node's frequency as the total of the symbols beneath it. */
  predicate Weighted(t: Tree)
  {
    t.Node? ==> t.freq == t.left.freq + t.right.freq && Weighted(t.left) && Weighted(t.right)
  }

  /** Every internal node's Left child is at least as frequent as its Right child. */
  predicate Ordered(t: Tree)
  {
    t.Node? ==> t.left.freq >= t.right.freq && Ordered(t.left) && Ordered(t.right)
  }

  /** The chars at the leaves, with multiplicity. */
  function LeafChars(t: Tree): multiset<char>
  {
    match t
    case Leaf(c, _) => multiset{c}
    case Node(_, l, r) => LeafChars(l) + LeafChars(r)
  }

  /** The total frequency of the leaves. */
  function LeafWeight(t: Tree): int
  {
    match t
    case Leaf(_, f) => f
    case Node(_, l, r) => LeafWeight(l) + LeafWeight(r)
  }

  /** In a weighted tree a node's frequency is the total of the leaves beneath it. */
  lemma {:induction false} WeightedFrequency(t: Tree)
    requires Weighted(t)
    ensures t.freq == LeafWeight(t)
  {
    if t.Node? {
      WeightedFrequency(t.left);
      WeightedFrequency(t.right);
    }
  }

  /** Walks down from `t` along `path` (false = Left, true = Right); None once
      the path runs past a leaf. */
  function Follow(t: Tree, path: seq<bool>): Option<Tree>
    decreases |path|
  {
    if |path| == 0 then Some(t)
    else if t.Leaf? then None
    else Follow(if path[0] then t.right else t.left, path[1..])
  }

  /** Following `p + q` is following `p`, then `q` from where `p` ends. */
  lemma {:induction false} FollowAppend(t: Tree, p: seq<bool>, q: seq<bool>)
    ensures Follow(t, p + q) == (if Follow(t, p).Some? then Follow(Follow(t, p).value, q) else None)
    decreases |p|
  {
    if |p| == 0 {
      assert p + q == q;
    } else if t.Node? {
      assert (p + q)[1..] == p[1..] + q;
      FollowAppend(if p[0] then t.right else t.left, p[1..], q);
    } else if |q| == 0 {
      assert p + q == p;
    }
  }

  /** A leaf's path: its depth is the path length, and no other path runs through it. */
  lemma LeafPathIsMaximal(t: Tree, p: seq<bool>, q: seq<bool>)
    requires Follow(t, p).Some? && Follow(t, p).value.Leaf?
    requires |q| > 0
    ensures Follow(t, p + q).None?
  {
    FollowAppend(t, p, q);
  }
}
