/** The frequency table: each distinct char with its occurrence count. It is
    a sequence of pairs in the dictionary's enumeration order, because the
    order in which the tree builder first sees the leaves is part of its input. */
module FrequencyTables {

  type Table = seq<(char, int)>

  /** No char appears twice, as in any dictionary. */
  predicate DistinctKeys(t: Table)
  {
    forall i, j :: 0 <= i < j < |t| ==> t[i].0 != t[j].0
  }

  function KeySet(t: Table): set<char>
  {
    set i | 0 <= i < |t| :: t[i].0
  }

  /** The sum of all frequencies in the table. */
  function Total(t: Table): int
  {
    if |t| == 0 then 0 else Total(t[..|t| - 1]) + t[|t| - 1].1
  }

  /** The position of `c` in the table, or `|t|` when it is absent. */
  function IndexOf(t: Table, c: char): (i: nat)
    ensures i <= |t|
    ensures i < |t| ==> t[i].0 == c
    ensures i == |t| <==> c !in KeySet(t)
  {
    if |t| == 0 then 0
    else if t[0].0 == c then 0
    else
      var k := IndexOf(t[1..], c);
      assert KeySet(t) == {t[0].0} + KeySet(t[1..]) by {
        forall x | x in KeySet(t) ensures x in {t[0].0} + KeySet(t[1..]) {
          var i :| 0 <= i < |t| && t[i].0 == x;
          if i > 0 { assert t[1..][i - 1].0 == x; }
        }
      }
      1 + k
  }

  lemma {:induction false} TotalUpdate(t: Table, i: nat, v: int)
    requires i < |t|
    ensures Total(t[i := (t[i].0, v)]) == Total(t) - t[i].1 + v
    decreases |t|
  {
    var t' := t[i := (t[i].0, v)];
    if i < |t| - 1 {
      assert t'[..|t'| - 1] == t[..|t| - 1][i := (t[i].0, v)];
      TotalUpdate(t[..|t| - 1], i, v);
    } else {
      assert t'[..|t'| - 1] == t[..|t| - 1];
    }
  }

  /** One step of the counting loop: add one occurrence of `c`. */
  function Increment(t: Table, c: char): (r: Table)
    requires DistinctKeys(t)
    ensures DistinctKeys(r)
    ensures |t| <= |r| <= |t| + 1
    ensures KeySet(r) == KeySet(t) + {c}
    ensures Total(r) == Total(t) + 1
    ensures forall i :: 0 <= i < |r| ==> r[i].1 == (if i < |t| then t[i].1 else 0) + (if r[i].0 == c then 1 else 0)
    ensures forall i :: 0 <= i < |t| ==> r[i].0 == t[i].0
  {
    var i := IndexOf(t, c);
    if i < |t| then
      TotalUpdate(t, i, t[i].1 + 1);
      var r := t[i := (c, t[i].1 + 1)];
      assert KeySet(r) == KeySet(t) by {
        forall x | x in KeySet(t) ensures x in KeySet(r) {
          var j :| 0 <= j < |t| && t[j].0 == x;
          assert r[j].0 == x;
        }
      }
      r
    else
      assert KeySet(t + [(c, 1)]) == KeySet(t) + {c} by {
        assert (t + [(c, 1)])[|t|].0 == c;
        forall x | x in KeySet(t) ensures x in KeySet(t + [(c, 1)]) {
          var j :| 0 <= j < |t| && t[j].0 == x;
          assert (t + [(c, 1)])[j].0 == x;
        }
      }
      assert (t + [(c, 1)])[..|t|] == t;
      t + [(c, 1)]
  }

  /** The frequency table of a message: `FromMessage`'s counting loop. Every
      char of the message appears exactly once, with its number of occurrences,
      and the counts add up to the message length. */
  function Frequencies(message: seq<char>): (t: Table)
    ensures DistinctKeys(t)
    ensures forall c :: c in KeySet(t) <==> c in message
    ensures forall i :: 0 <= i < |t| ==> t[i].1 == multiset(message)[t[i].0]
    ensures Total(t) == |message|
    decreases |message|
  {
    if |message| == 0 then []
    else
      var init := message[..|message| - 1];
      var c := message[|message| - 1];
      assert message == init + [c];
      Increment(Frequencies(init), c)
  }

  /** The chars of the table in enumeration order. */
  function Keys(t: Table): (cs: seq<char>)
    ensures |cs| == |t| && forall i :: 0 <= i < |t| ==> cs[i] == t[i].0
  {
    seq(|t|, i requires 0 <= i < |t| => t[i].0)
  }

  lemma {:induction false} KeysSnoc(t: Table)
    requires |t| > 0
    ensures Keys(t) == Keys(t[..|t| - 1]) + [t[|t| - 1].0]
  {
  }

  /** In a table with distinct keys every char occurs at most once. */
  lemma {:induction false} DistinctKeysBag(t: Table)
    requires DistinctKeys(t)
    ensures forall c :: multiset(Keys(t))[c] <= 1
    ensures forall c :: c in multiset(Keys(t)) <==> c in KeySet(t)
  {
    var ks := Keys(t);
    assert forall i, j :: 0 <= i < j < |ks| ==> ks[i] != ks[j];
    DistinctBag(ks);
  }

  lemma {:induction false} DistinctBag(cs: seq<char>)
    requires forall i, j :: 0 <= i < j < |cs| ==> cs[i] != cs[j]
    ensures forall c :: multiset(cs)[c] <= 1
    decreases |cs|
  {
    if |cs| > 0 {
      DistinctBag(cs[1..]);
      assert cs == [cs[0]] + cs[1..];
      assert cs[0] !in cs[1..] by {
        forall k | 0 <= k < |cs| - 1 ensures cs[1..][k] != cs[0] {
          assert cs[1..][k] == cs[k + 1];
        }
      }
    }
  }

  /** The sum of `w` over a sequence of chars. */
  function SumBy(cs: seq<char>, w: char -> int): int
  {
    if |cs| == 0 then 0 else w(cs[0]) + SumBy(cs[1..], w)
  }

  lemma {:induction false} SumByConcat(a: seq<char>, b: seq<char>, w: char -> int)
    ensures SumBy(a + b, w) == SumBy(a, w) + SumBy(b, w)
    decreases |a|
  {
    if |a| == 0 {
      assert a + b == b;
    } else {
      assert (a + b)[1..] == a[1..] + b;
      SumByConcat(a[1..], b, w);
    }
  }

  /** A sum does not depend on the order of its terms. */
  lemma {:induction false} SumByPermutation(a: seq<char>, b: seq<char>, w: char -> int)
    requires multiset(a) == multiset(b)
    ensures SumBy(a, w) == SumBy(b, w)
    decreases |a|
  {
    if |a| == 0 {
      assert |multiset(b)| == 0;
    } else {
      var x := a[0];
      assert x in multiset(b);
      var i :| 0 <= i < |b| && b[i] == x;
      var b' := b[..i] + b[i + 1..];
      BagWithout(a, b, i);
      SumByPermutation(a[1..], b', w);
      SumByWithout(b, i, w);
    }
  }

  /** Taking the first element of `a` out of `b`, where it sits at `i`,
      leaves two permutations of each other. */
  lemma BagWithout(a: seq<char>, b: seq<char>, i: nat)
    requires |a| > 0 && i < |b| && b[i] == a[0] && multiset(a) == multiset(b)
    ensures multiset(a[1..]) == multiset(b[..i] + b[i + 1..])
  {
    var x, left, right := a[0], b[..i], b[i + 1..];
    assert b == left + ([x] + right);
    assert a == [x] + a[1..];
    assert multiset(b) == multiset(left) + multiset{x} + multiset(right);
    assert multiset(left + right) == multiset(left) + multiset(right);
    assert multiset(a) == multiset{x} + multiset(a[1..]);
    assert multiset(a[1..]) == multiset(a) - multiset{x};
    assert multiset(left + right) == multiset(b) - multiset{x};
  }

  /** The sum over `b` is the term at `i` plus the sum over the rest. */
  lemma SumByWithout(b: seq<char>, i: nat, w: char -> int)
    requires i < |b|
    ensures SumBy(b, w) == w(b[i]) + SumBy(b[..i] + b[i + 1..], w)
  {
    var x, left, right := b[i], b[..i], b[i + 1..];
    var mid := [x] + right;
    assert b == left + mid;
    SumByConcat(left, mid, w);
    assert mid[0] == x && mid[1..] == right;
    assert SumBy(mid, w) == w(x) + SumBy(right, w);
    SumByConcat(left, right, w);
  }

  /** The sum of `w(c) * count` over the table's entries. */
  function WeightedTotal(t: Table, w: char -> int): int
  {
    if |t| == 0 then 0 else w(t[0].0) * t[0].1 + WeightedTotal(t[1..], w)
  }

  lemma {:induction false} WeightedTotalSnoc(t: Table, e: (char, int), w: char -> int)
    ensures WeightedTotal(t + [e], w) == WeightedTotal(t, w) + w(e.0) * e.1
    decreases |t|
  {
    if |t| == 0 {
      assert (t + [e])[1..] == [];
    } else {
      assert (t + [e])[1..] == t[1..] + [e];
      WeightedTotalSnoc(t[1..], e, w);
    }
  }

  lemma {:induction false} WeightedTotalUpdate(t: Table, i: nat, v: int, w: char -> int)
    requires i < |t|
    ensures WeightedTotal(t[i := (t[i].0, v)], w) == WeightedTotal(t, w) + w(t[i].0) * (v - t[i].1)
    decreases i
  {
    if i > 0 {
      assert t[i := (t[i].0, v)][1..] == t[1..][i - 1 := (t[i].0, v)];
      WeightedTotalUpdate(t[1..], i - 1, v, w);
    }
  }

  lemma {:induction false} IncrementWeighted(t: Table, c: char, w: char -> int)
    requires DistinctKeys(t)
    ensures WeightedTotal(Increment(t, c), w) == WeightedTotal(t, w) + w(c)
  {
    var i := IndexOf(t, c);
    if i < |t| {
      WeightedTotalUpdate(t, i, t[i].1 + 1, w);
      assert Increment(t, c) == t[i := (t[i].0, t[i].1 + 1)];
    } else {
      WeightedTotalSnoc(t, (c, 1), w);
    }
  }

  /** Weighting each table entry by its count is summing the weight over the
      message, one term per occurrence. */
  lemma {:induction false} FrequenciesWeighted(message: seq<char>, w: char -> int)
    ensures WeightedTotal(Frequencies(message), w) == SumBy(message, w)
    decreases |message|
  {
    if |message| > 0 {
      var init := message[..|message| - 1];
      FrequenciesWeightedStep(message, w);
      FrequenciesWeighted(init, w);
    }
  }

  /** The last char adds its weight to both sides. */
  lemma FrequenciesWeightedStep(message: seq<char>, w: char -> int)
    requires |message| > 0
    ensures var init, c := message[..|message| - 1], message[|message| - 1];
      && WeightedTotal(Frequencies(message), w) == WeightedTotal(Frequencies(init), w) + w(c)
      && SumBy(message, w) == SumBy(init, w) + w(c)
  {
    LastIncrement(message);
    var init, c := message[..|message| - 1], message[|message| - 1];
    IncrementWeighted(Frequencies(init), c, w);
    SumByLast(message, w);
  }

  lemma LastIncrement(message: seq<char>)
    requires |message| > 0
    ensures Frequencies(message) == Increment(Frequencies(message[..|message| - 1]), message[|message| - 1])
  {
  }

  lemma SumByLast(message: seq<char>, w: char -> int)
    requires |message| > 0
    ensures SumBy(message, w) == SumBy(message[..|message| - 1], w) + w(message[|message| - 1])
  {
    var init, c := message[..|message| - 1], message[|message| - 1];
    assert message == init + [c];
    SumBySnoc(init, c, w);
  }

  lemma SumBySnoc(cs: seq<char>, c: char, w: char -> int)
    ensures SumBy(cs + [c], w) == SumBy(cs, w) + w(c)
  {
    SumByConcat(cs, [c], w);
    assert [c][1..] == [];
  }
}
