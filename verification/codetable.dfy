/** The code table (`FromFrequencyTable`, second half): a walk over the tree
    that records each leaf's code and the total encoded length.

    The library walks with an explicit stack: popping a node pushes its Left
    child with `(bits << 1) | 0` and then its Right child with `(bits << 1) | 1`,
    so the Right subtree is finished before the Left one is popped. The walk
    below lists the leaves in that same order. */
module CodeTable {
  import opened Wrappers
  import opened Bits
  import opened Nodes
  import opened CharInfos

  type Entry = (char, CharInfo)

  /** The stack walk from a node reached along the code `bits` of length `bitCount`:
      one entry per leaf. `bits * 2` and `bits * 2 + 1` are the library's
      `(bits << 1) | 0` and `| 1`. */
  function CodeWalk(t: Tree, bits: nat, bitCount: nat): (r: seq<Entry>)
    ensures |r| == |LeafChars(t)|
  {
    match t
    case Leaf(c, f) => [(c, CharInfo(bits, bitCount, f))]
    case Node(_, l, r) => CodeWalk(r, bits * 2 + 1, bitCount + 1) + CodeWalk(l, bits * 2, bitCount + 1)
  }

  /** The entry records a code that starts with the `n` bits of `v` and whose
      remaining bits lead from `t` to a leaf holding the entry's char and frequency. */
  predicate EntryFits(t: Tree, v: nat, n: nat, e: Entry)
  {
    var info := e.1;
    && info.bitCount >= n
    && 0 <= info.bits < Pow2(info.bitCount)
    && ToBits(info.bits, info.bitCount)[..n] == ToBits(v, n)
    && Follow(t, ToBits(info.bits, info.bitCount)[n..]) == Some(Leaf(e.0, info.frequency))
  }

  /** Shift-and-or appends the branch bit at the low end of the code. */
  lemma ShiftOr(v: nat, n: nat, b: bool)
    requires v < Pow2(n)
    ensures ToBits(v * 2 + (if b then 1 else 0), n + 1) == ToBits(v, n) + [b]
    ensures v * 2 + (if b then 1 else 0) < Pow2(n + 1)
  {
    var w := v * 2 + (if b then 1 else 0);
    DivModUnique(w, 2, v, if b then 1 else 0);
  }

  lemma ChildEntryFits(t: Tree, v: nat, n: nat, b: bool, e: Entry)
    requires t.Node? && v < Pow2(n)
    requires EntryFits(if b then t.right else t.left, v * 2 + (if b then 1 else 0), n + 1, e)
    ensures EntryFits(t, v, n, e)
  {
    ShiftOr(v, n, b);
    var code := ToBits(e.1.bits, e.1.bitCount);
    assert code[..n + 1] == ToBits(v, n) + [b];
    assert code[..n] == code[..n + 1][..n];
    assert code[n..][1..] == code[n + 1..];
  }

  /** A leaf reached along `v` records `v` itself as its code. */
  lemma LeafEntryFits(c: char, f: int, v: nat, n: nat)
    requires v < Pow2(n)
    ensures EntryFits(Leaf(c, f), v, n, (c, CharInfo(v, n, f)))
  {
    ToBitsValue(v, n);
    ValueToBits(ToBits(v, n));
    assert ToBits(v, n)[n..] == [];
  }

  /** Every entry of the walk is a code of a leaf of `t`. */
  lemma {:induction false} CodeWalkSound(t: Tree, v: nat, n: nat)
    requires v < Pow2(n)
    ensures forall k | 0 <= k < |CodeWalk(t, v, n)| :: EntryFits(t, v, n, CodeWalk(t, v, n)[k])
  {
    match t
    case Leaf(c, f) =>
      LeafEntryFits(c, f, v, n);
    case Node(_, l, r) =>
      CodeWalkSound(r, v * 2 + 1, n + 1);
      CodeWalkSound(l, v * 2, n + 1);
      NodeEntriesFit(t, v, n, CodeWalk(r, v * 2 + 1, n + 1), CodeWalk(l, v * 2, n + 1));
  }

  /** The Right subtree's entries, then the Left one's, are codes of the node. */
  lemma NodeEntriesFit(t: Tree, v: nat, n: nat, a: seq<Entry>, b: seq<Entry>)
    requires t.Node? && v < Pow2(n)
    requires forall k | 0 <= k < |a| :: EntryFits(t.right, v * 2 + 1, n + 1, a[k])
    requires forall k | 0 <= k < |b| :: EntryFits(t.left, v * 2, n + 1, b[k])
    ensures forall k | 0 <= k < |a + b| :: EntryFits(t, v, n, (a + b)[k])
  {
    ShiftOr(v, n, true);
    ShiftOr(v, n, false);
    forall k | 0 <= k < |a + b| ensures EntryFits(t, v, n, (a + b)[k]) {
      if k < |a| {
        ChildEntryFits(t, v, n, true, a[k]);
      } else {
        ChildEntryFits(t, v, n, false, b[k - |a|]);
      }
    }
  }

  /** The chars of a list of entries, with multiplicity. */
  function EntryChars(es: seq<Entry>): multiset<char>
  {
    if |es| == 0 then multiset{} else multiset{es[0].0} + EntryChars(es[1..])
  }

  lemma {:induction false} EntryCharsConcat(a: seq<Entry>, b: seq<Entry>)
    ensures EntryChars(a + b) == EntryChars(a) + EntryChars(b)
    decreases |a|
  {
    if |a| == 0 {
      assert a + b == b;
    } else {
      assert (a + b)[1..] == a[1..] + b;
      EntryCharsConcat(a[1..], b);
    }
  }

  /** The walk visits every leaf exactly once. */
  lemma {:induction false} CodeWalkChars(t: Tree, v: nat, n: nat)
    ensures EntryChars(CodeWalk(t, v, n)) == LeafChars(t)
    decreases t
  {
    match t
    case Leaf(c, f) =>
      LeafEntryChars(c, CharInfo(v, n, f));
    case Node(_, l, r) =>
      var right, left := CodeWalk(r, v * 2 + 1, n + 1), CodeWalk(l, v * 2, n + 1);
      CodeWalkChars(r, v * 2 + 1, n + 1);
      CodeWalkChars(l, v * 2, n + 1);
      assert CodeWalk(t, v, n) == right + left;
      EntryCharsConcat(right, left);
      NodeChars(EntryChars(CodeWalk(t, v, n)), EntryChars(right), EntryChars(left), LeafChars(r), LeafChars(l));
  }

  lemma LeafEntryChars(c: char, info: CharInfo)
    ensures EntryChars([(c, info)]) == multiset{c}
  {
    assert [(c, info)][1..] == [];
  }

  lemma NodeChars<T>(whole: multiset<T>, right: multiset<T>, left: multiset<T>, rc: multiset<T>, lc: multiset<T>)
    requires whole == right + left && right == rc && left == lc
    ensures whole == lc + rc
  {
  }

  /** `entries[k].0` occurs in the multiset exactly when some entry holds it. */
  lemma {:induction false} EntryCharsMembers(es: seq<Entry>)
    ensures forall c :: c in EntryChars(es) <==> exists k :: 0 <= k < |es| && es[k].0 == c
    decreases |es|
  {
    if |es| > 0 {
      EntryCharsMembers(es[1..]);
      forall c ensures c in EntryChars(es) <==> exists k :: 0 <= k < |es| && es[k].0 == c {
        if c in EntryChars(es[1..]) {
          var k :| 0 <= k < |es[1..]| && es[1..][k].0 == c;
          assert es[k + 1].0 == c;
        }
        if exists k :: 0 <= k < |es| && es[k].0 == c {
          var k :| 0 <= k < |es| && es[k].0 == c;
          if k > 0 { assert es[1..][k - 1].0 == c; }
        }
      }
    }
  }

  /** No char occurs in two entries. */
  predicate DistinctChars(es: seq<Entry>)
  {
    forall i, j :: 0 <= i < j < |es| ==> es[i].0 != es[j].0
  }

  /** Distinct chars are exactly a multiset in which no char occurs twice. */
  lemma {:induction false} DistinctCharsIffSingles(es: seq<Entry>)
    ensures DistinctChars(es) <==> forall c :: EntryChars(es)[c] <= 1
    decreases |es|
  {
    if |es| > 0 {
      var rest := es[1..];
      DistinctCharsIffSingles(rest);
      EntryCharsMembers(rest);
      if DistinctChars(es) {
        assert DistinctChars(rest) by {
          forall i, j | 0 <= i < j < |rest| ensures rest[i].0 != rest[j].0 {
            assert rest[i] == es[i + 1] && rest[j] == es[j + 1];
          }
        }
        assert es[0].0 !in EntryChars(rest) by {
          forall k | 0 <= k < |rest| ensures rest[k].0 != es[0].0 {
            assert rest[k] == es[k + 1];
          }
        }
      } else {
        var i, j :| 0 <= i < j < |es| && es[i].0 == es[j].0;
        var c := es[i].0;
        if i == 0 {
          assert rest[j - 1].0 == c;
          assert c in EntryChars(rest);
          assert EntryChars(es)[c] >= 2;
        } else {
          assert rest[i - 1] == es[i] && rest[j - 1] == es[j];
          assert !DistinctChars(rest);
          var d :| EntryChars(rest)[d] > 1;
          assert EntryChars(es)[d] > 1;
        }
      }
    }
  }

  /** The total encoded length of the source message in bits: each symbol's
      code length times its frequency, summed over the table. */
  function TotalBits(es: seq<Entry>): int
  {
    if |es| == 0 then 0 else es[0].1.bitCount * es[0].1.frequency + TotalBits(es[1..])
  }

  /** `charInfos.Add` for each entry in walk order; adding a char twice throws. */
  function CollectCodes(es: seq<Entry>): (r: Result<map<char, CharInfo>>)
    ensures r.Success? <==> DistinctChars(es)
    ensures r.Failure? ==> r.error == DuplicateKey
    ensures r.Success? ==> r.value.Keys == set k | 0 <= k < |es| :: es[k].0
    ensures r.Success? ==> forall k | 0 <= k < |es| :: r.value[es[k].0] == es[k].1
    decreases |es|
  {
    if |es| == 0 then Success(map[])
    else
      var init := es[..|es| - 1];
      var e := es[|es| - 1];
      DistinctSnoc(es);
      match CollectCodes(init)
      case Failure(err) => Failure(err)
      case Success(m) =>
        if e.0 in m then Failure(DuplicateKey)
        else
          CharSetSnoc(es);
          assert forall k | 0 <= k < |init| :: init[k] == es[k];
          Success(m[e.0 := e.1])
  }

  /** Appending an entry keeps the chars distinct exactly when its char is new. */
  lemma {:induction false} DistinctSnoc(es: seq<Entry>)
    requires |es| > 0
    ensures var init := es[..|es| - 1];
      DistinctChars(es) <==> DistinctChars(init) && es[|es| - 1].0 !in (set k | 0 <= k < |init| :: init[k].0)
  {
    var init := es[..|es| - 1];
    assert forall k | 0 <= k < |init| :: init[k] == es[k];
    if !DistinctChars(init) {
      var i, j :| 0 <= i < j < |init| && init[i].0 == init[j].0;
      assert es[i].0 == es[j].0;
    }
  }

  lemma {:induction false} CharSetSnoc(es: seq<Entry>)
    requires |es| > 0
    ensures var init := es[..|es| - 1];
      (set k | 0 <= k < |es| :: es[k].0) == (set k | 0 <= k < |init| :: init[k].0) + {es[|es| - 1].0}
  {
    var init := es[..|es| - 1];
    var before, after := (set k | 0 <= k < |init| :: init[k].0), (set k | 0 <= k < |es| :: es[k].0);
    forall x | x in before ensures x in after {
      var k :| 0 <= k < |init| && init[k].0 == x;
      assert es[k].0 == x;
    }
  }

  /** The code table matches the tree: each entry is well formed and its code
      leads from the root to the leaf holding its char and frequency. */
  predicate CodesMatchTree(codes: map<char, CharInfo>, root: Tree)
  {
    forall c | c in codes ::
      && WellFormed(codes[c])
      && Follow(root, Code(codes[c])) == Some(Leaf(c, codes[c].frequency))
  }

  /** The leaf chars as a set. */
  function LeafCharSet(t: Tree): set<char>
  {
    set c | c in LeafChars(t)
  }

  /** The walk from the root of a tree with positive frequencies yields, when
      no char repeats, a code table that matches the tree and has an entry for
      every leaf. */
  lemma CodesFromWalk(root: Tree)
    requires root.Node? && PositiveFrequencies(root)
    requires CollectCodes(CodeWalk(root, 0, 0)).Success?
    ensures CodesMatchTree(CollectCodes(CodeWalk(root, 0, 0)).value, root)
    ensures CollectCodes(CodeWalk(root, 0, 0)).value.Keys == LeafCharSet(root)
  {
    WalkCodesMatch(root);
    WalkCodesKeys(root);
  }

  lemma WalkCodesKeys(root: Tree)
    requires CollectCodes(CodeWalk(root, 0, 0)).Success?
    ensures CollectCodes(CodeWalk(root, 0, 0)).value.Keys == LeafCharSet(root)
  {
    CodeWalkChars(root, 0, 0);
    EntryCharsMembers(CodeWalk(root, 0, 0));
  }

  lemma WalkCodesMatch(root: Tree)
    requires root.Node? && PositiveFrequencies(root)
    requires CollectCodes(CodeWalk(root, 0, 0)).Success?
    ensures CodesMatchTree(CollectCodes(CodeWalk(root, 0, 0)).value, root)
  {
    var es := CodeWalk(root, 0, 0);
    var codes := CollectCodes(es).value;
    CodeWalkSound(root, 0, 0);
    forall c | c in codes
      ensures WellFormed(codes[c]) && Follow(root, Code(codes[c])) == Some(Leaf(c, codes[c].frequency))
    {
      var k :| 0 <= k < |es| && es[k].0 == c;
      assert codes[c] == es[k].1;
      EntryCode(root, es[k]);
    }
  }

  /** An entry of the walk from the root is a well-formed code leading to its leaf. */
  lemma EntryCode(root: Tree, e: Entry)
    requires root.Node? && PositiveFrequencies(root) && EntryFits(root, 0, 0, e)
    ensures WellFormed(e.1) && Follow(root, Code(e.1)) == Some(Leaf(e.0, e.1.frequency))
  {
    var info := e.1;
    var code := ToBits(info.bits, info.bitCount);
    assert code[0..] == code;
    LeafOfPositiveTree(root, code);
  }

  /** Every node reached in a tree with positive frequencies has a positive frequency. */
  lemma {:induction false} LeafOfPositiveTree(t: Tree, p: seq<bool>)
    requires PositiveFrequencies(t) && Follow(t, p).Some?
    ensures Follow(t, p).value.freq >= 1
    decreases |p|
  {
    if |p| > 0 {
      LeafOfPositiveTree(if p[0] then t.right else t.left, p[1..]);
    }
  }

  /** A leaf's path is not a proper prefix of any other path that reaches a node. */
  lemma LeafPathsPrefixFree(root: Tree, p1: seq<bool>, p2: seq<bool>, l1: Tree, l2: Tree)
    requires Follow(root, p1) == Some(l1) && l1.Leaf?
    requires Follow(root, p2) == Some(l2)
    requires p1 <= p2
    ensures p1 == p2 && l1 == l2
  {
    var q := p2[|p1|..];
    assert p2 == p1 + q;
    FollowAppend(root, p1, q);
  }

  /** No code is a prefix of another char's code (equal codes included). */
  lemma PrefixFree(codes: map<char, CharInfo>, root: Tree, c1: char, c2: char)
    requires CodesMatchTree(codes, root)
    requires c1 in codes && c2 in codes && c1 != c2
    ensures !(Code(codes[c1]) <= Code(codes[c2]))
  {
    var p1, p2 := Code(codes[c1]), Code(codes[c2]);
    if p1 <= p2 {
      LeafPathsPrefixFree(root, p1, p2, Leaf(c1, codes[c1].frequency), Leaf(c2, codes[c2].frequency));
    }
  }
}
