/** A worked example: the message "aaabbc",
    whose table is a:3, b:2, c:1. With a sort that keeps equal frequencies
    in place the tree is `(a, (b, c))`, so a = 0, b = 10 and c = 11; the
    message encodes to the nine bits 000101011, i.e. the bytes 0x15 0x80;
    and decoding those two bytes without a length yields "aaabbc" followed by
    seven more 'a's, one for each zero bit of padding. */
module Scenario {
  import opened Wrappers
  import opened Bits
  import opened Nodes
  import opened CharInfos
  import opened CodeTable
  import opened FrequencyTables
  import opened TreeBuilder
  import opened Dictionaries
  import opened Encoder
  import opened Decoder
  import RoundTrip

  /** The tie-break of a sort that keeps equal frequencies in place: it never
      names a node, so every round takes the last node of least frequency. */
  function KeepOrder(nodes: seq<Tree>): nat
  {
    |nodes|
  }

  const Table3: Table := [('a', 3), ('b', 2), ('c', 1)]
  const Root3: Tree := Node(6, Leaf('a', 3), Node(3, Leaf('b', 2), Leaf('c', 1)))
  const Codes3: map<char, CharInfo> := map['a' := CharInfo(0, 1, 3), 'b' := CharInfo(2, 2, 2), 'c' := CharInfo(3, 2, 1)]

  /** The merge loop: c and b merge first, then that node, the last of
      least frequency, becomes the Right child next to a. */
  lemma ExampleTree()
    ensures BuildTree([Leaf('a', 3), Leaf('b', 2), Leaf('c', 1)], KeepOrder) == Root3
  {
    var leaves := [Leaf('a', 3), Leaf('b', 2), Leaf('c', 1)];
    var once := [Leaf('a', 3), Node(3, Leaf('b', 2), Leaf('c', 1))];
    FirstMerge();
    SecondMerge();
    assert BuildTree(leaves, KeepOrder) == BuildTree(once, KeepOrder);
    assert BuildTree(once, KeepOrder) == BuildTree([Root3], KeepOrder);
  }

  /** c (1) is taken first and b (2) second; their parent goes to the end. */
  lemma FirstMerge()
    ensures Merge([Leaf('a', 3), Leaf('b', 2), Leaf('c', 1)], KeepOrder) == [Leaf('a', 3), Node(3, Leaf('b', 2), Leaf('c', 1))]
  {
    var leaves := [Leaf('a', 3), Leaf('b', 2), Leaf('c', 1)];
    var rest := [Leaf('a', 3), Leaf('b', 2)];
    assert LastMin(leaves) == 2;
    KeepOrderChoose(leaves, 2);
    assert RemoveAt(leaves, 2) == rest;
    assert LastMin(rest) == 1;
    KeepOrderChoose(rest, 1);
    assert RemoveAt(rest, 1) == [Leaf('a', 3)];
  }

  /** Keeping equal frequencies in place takes the last node of least frequency. */
  lemma {:induction false} KeepOrderChoose(nodes: seq<Tree>, i: nat)
    requires |nodes| > 0 && LastMin(nodes) == i
    ensures Choose(nodes, KeepOrder) == i
  {
    assert KeepOrder(nodes) == |nodes|;
  }

  /** The parent (3) is the last of least frequency, so it becomes the Right child. */
  lemma SecondMerge()
    ensures Merge([Leaf('a', 3), Node(3, Leaf('b', 2), Leaf('c', 1))], KeepOrder) == [Root3]
  {
    var once := [Leaf('a', 3), Node(3, Leaf('b', 2), Leaf('c', 1))];
    assert LastMin(once) == 1;
    KeepOrderChoose(once, 1);
    assert RemoveAt(once, 1) == [Leaf('a', 3)];
    assert LastMin([Leaf('a', 3)]) == 0;
    KeepOrderChoose([Leaf('a', 3)], 0);
    assert RemoveAt([Leaf('a', 3)], 0) == [];
  }

  /** The dictionary of the example: codes a = 0, b = 10, c = 11, and two bytes. */
  lemma ExampleDictionary()
    ensures FromFrequencyTable(Table3, KeepOrder) == Success(Dictionary(Codes3, Root3, 2))
  {
    ExampleLeaves();
    assert Total(Table3) == 6 by {
      var t: Table := [('a', 3), ('b', 2), ('c', 1)];
      assert t[..2] == [('a', 3), ('b', 2)];
      assert t[..2][..1] == [('a', 3)];
      assert t[..2][..1][..0] == [];
      assert Total(t[..2][..1]) == 3;
      assert Total(t[..2]) == 5;
    }
    assert Buildable(Table3);
    BuiltFrom(Table3, KeepOrder);
    ExampleBuild();
  }

  lemma ExampleBuild()
    ensures forall n | n in [Leaf('a', 3), Leaf('b', 2), Leaf('c', 1)] :: n.Leaf? && PositiveFrequencies(n) && Ordered(n)
    ensures Build([Leaf('a', 3), Leaf('b', 2), Leaf('c', 1)], KeepOrder) == Success(Dictionary(Codes3, Root3, 2))
  {
    var leaves := [Leaf('a', 3), Leaf('b', 2), Leaf('c', 1)];
    ExampleLeaves();
    ExampleTree();
    ExampleWalk();
    ExampleCollect();
    var root := RootOf(leaves, KeepOrder);
    assert root == Root3;
    assert CeilDiv8(TotalBits(CodeWalk(root, 0, 0))) == 2;
  }

  lemma ExampleLeaves()
    ensures DistinctKeys(Table3)
    ensures LeavesOf(Table3) == Success([Leaf('a', 3), Leaf('b', 2), Leaf('c', 1)])
    ensures forall n | n in [Leaf('a', 3), Leaf('b', 2), Leaf('c', 1)] :: n.Leaf? && PositiveFrequencies(n) && Ordered(n)
  {
    var r := LeavesOf(Table3);
    assert Table3[0].1 > 0 && Table3[1].1 > 0 && Table3[2].1 > 0;
    assert r.Success?;
    assert |r.value| == 3;
    assert r.value[0] == Leaf('a', 3) && r.value[1] == Leaf('b', 2) && r.value[2] == Leaf('c', 1);
    assert r.value == [Leaf('a', 3), Leaf('b', 2), Leaf('c', 1)];
  }

  /** The stack walk lists c, b, a: the Right subtree first. */
  lemma ExampleWalk()
    ensures CodeWalk(Root3, 0, 0) == [('c', CharInfo(3, 2, 1)), ('b', CharInfo(2, 2, 2)), ('a', CharInfo(0, 1, 3))]
    ensures TotalBits(CodeWalk(Root3, 0, 0)) == 9
  {
    var es := [('c', CharInfo(3, 2, 1)), ('b', CharInfo(2, 2, 2)), ('a', CharInfo(0, 1, 3))];
    assert CodeWalk(Node(3, Leaf('b', 2), Leaf('c', 1)), 1, 1) == es[..2];
    assert es[1..][1..][1..] == [];
  }

  lemma ExampleCollect()
    ensures CollectCodes([('c', CharInfo(3, 2, 1)), ('b', CharInfo(2, 2, 2)), ('a', CharInfo(0, 1, 3))]) == Success(Codes3)
  {
    var es := [('c', CharInfo(3, 2, 1)), ('b', CharInfo(2, 2, 2)), ('a', CharInfo(0, 1, 3))];
    ExampleCollectKeys(es);
    var r := CollectCodes(es).value;
    assert r['c'] == es[0].1 && r['b'] == es[1].1 && r['a'] == es[2].1;
    SameMap(r, Codes3);
  }

  lemma {:induction false} ExampleCollectKeys(es: seq<Entry>)
    requires es == [('c', CharInfo(3, 2, 1)), ('b', CharInfo(2, 2, 2)), ('a', CharInfo(0, 1, 3))]
    ensures CollectCodes(es).Success? && CollectCodes(es).value.Keys == {'a', 'b', 'c'}
  {
    assert DistinctChars(es);
    var r := CollectCodes(es).value;
    assert es[0].0 == 'c' && es[1].0 == 'b' && es[2].0 == 'a';
    assert 'c' in r.Keys && 'b' in r.Keys && 'a' in r.Keys;
    forall x | x in r.Keys ensures x in {'a', 'b', 'c'} {
      var k :| 0 <= k < |es| && es[k].0 == x;
    }
  }

  /** Two maps over a, b and c that agree on each of them are equal. */
  lemma SameMap(r: map<char, CharInfo>, s: map<char, CharInfo>)
    requires r.Keys == {'a', 'b', 'c'} && s.Keys == {'a', 'b', 'c'}
    requires r['a'] == s['a'] && r['b'] == s['b'] && r['c'] == s['c']
    ensures r == s
  {
    forall k | k in r ensures r[k] == s[k] {
      assert k == 'a' || k == 'b' || k == 'c';
    }
  }

  /** One more char: its code is appended to the stream. */
  lemma CodeBitsStep(codes: map<char, CharInfo>, s: seq<char>, c: char, t: seq<char>, bits: seq<bool>, code: seq<bool>, next: seq<bool>)
    requires CodesWellFormed(codes) && Known(codes, s) && c in codes && t == s + [c]
    requires CodeBits(codes, s) == bits && Code(codes[c]) == code && next == bits + code
    ensures Known(codes, t)
    ensures CodeBits(codes, t) == next
  {
    assert t[..|s|] == s;
  }

  lemma ExampleCodes()
    ensures CodesWellFormed(Codes3)
    ensures Code(Codes3['a']) == [false]
    ensures Code(Codes3['b']) == [true, false]
    ensures Code(Codes3['c']) == [true, true]
  {
    ExampleWellFormed();
    assert Codes3['a'] == CharInfo(0, 1, 3) && Codes3['b'] == CharInfo(2, 2, 2) && Codes3['c'] == CharInfo(3, 2, 1);
    ExampleCodeBits();
  }

  lemma ExampleWellFormed()
    ensures CodesWellFormed(Codes3)
  {
    assert Pow2(1) == 2 && Pow2(2) == 4;
    forall c | c in Codes3 ensures WellFormed(Codes3[c]) {
      assert c == 'a' || c == 'b' || c == 'c';
    }
  }

  lemma ExampleCodeBits()
    ensures WellFormed(CharInfo(0, 1, 3)) && Code(CharInfo(0, 1, 3)) == [false]
    ensures WellFormed(CharInfo(2, 2, 2)) && Code(CharInfo(2, 2, 2)) == [true, false]
    ensures WellFormed(CharInfo(3, 2, 1)) && Code(CharInfo(3, 2, 1)) == [true, true]
  {
    assert Pow2(1) == 2 && Pow2(2) == 4;
    assert ToBits(1, 1) == [true];
    assert ToBits(0, 1) == [false];
  }

  /** The example message encodes to 000101011. */
  lemma ExampleBits()
    ensures CodesWellFormed(Codes3) && Known(Codes3, "aaabbc")
    ensures CodeBits(Codes3, "aaabbc") == [false, false, false, true, false, true, false, true, true]
  {
    ExampleCodes();
    var a, b, c := [false], [true, false], [true, true];
    MessageBits(Codes3, a, b, c);
    assert a + a + a + b + b + c == [false, false, false, true, false, true, false, true, true];
  }

  /** The stream of "aaabbc" under any codes for a, b and c. */
  lemma MessageBits(codes: map<char, CharInfo>, a: seq<bool>, b: seq<bool>, c: seq<bool>)
    requires CodesWellFormed(codes) && 'a' in codes && 'b' in codes && 'c' in codes
    requires Code(codes['a']) == a && Code(codes['b']) == b && Code(codes['c']) == c
    ensures Known(codes, "aaabbc")
    ensures CodeBits(codes, "aaabbc") == a + a + a + b + b + c
  {
    assert CodeBits(codes, []) == [];
    CodeBitsStep(codes, [], 'a', "a", [], a, a);
    CodeBitsStep(codes, "a", 'a', "aa", a, a, a + a);
    CodeBitsStep(codes, "aa", 'a', "aaa", a + a, a, a + a + a);
    CodeBitsStep(codes, "aaa", 'b', "aaab", a + a + a, b, a + a + a + b);
    CodeBitsStep(codes, "aaab", 'b', "aaabb", a + a + a + b, b, a + a + a + b + b);
    CodeBitsStep(codes, "aaabb", 'c', "aaabbc", a + a + a + b + b, c, a + a + a + b + b + c);
  }

  /** Packed MSB first, the nine bits are the bytes 0x15 and 0x80. */
  lemma ExampleEncoding()
    ensures CodesWellFormed(Codes3) && Known(Codes3, "aaabbc")
    ensures PackBits(CodeBits(Codes3, "aaabbc")) == [0x15, 0x80]
  {
    ExampleBits();
    ExamplePacked();
  }

  lemma ExamplePacked()
    ensures PackBits([false, false, false, true, false, true, false, true, true]) == [0x15, 0x80]
  {
    var bits := [false, false, false, true, false, true, false, true, true];
    var hi := [false, false, false, true, false, true, false, true];
    assert bits[..8] == hi && bits[8..] == [true];
    HighByte();
    LowByte();
    assert PackBits([true]) == [ByteOf([true] + Zeros(7))];
    assert PackBits(bits) == [ByteOf(hi)] + PackBits([true]);
  }

  lemma HighByte()
    ensures ByteOf([false, false, false, true, false, true, false, true]) == 0x15
  {
    Pow2Facts();
    HighBits();
    ToBitsValue(0x15, 8);
  }

  lemma LowByte()
    ensures ByteOf([true] + Zeros(7)) == 0x80
  {
    Pow2Facts();
    LowBits();
    assert [true] + Zeros(7) == [true, false, false, false, false, false, false, false];
    ToBitsValue(0x80, 8);
  }

  lemma HighBits()
    ensures ToBits(0x15, 8) == [false, false, false, true, false, true, false, true]
  {
    assert ToBits(0, 3) == [false, false, false];
    assert ToBits(1, 4) == [false, false, false, true];
    assert ToBits(2, 5) == [false, false, false, true, false];
    assert ToBits(5, 6) == [false, false, false, true, false, true];
    assert ToBits(10, 7) == [false, false, false, true, false, true, false];
  }

  lemma LowBits()
    ensures ToBits(0x80, 8) == [true, false, false, false, false, false, false, false]
  {
    assert ToBits(1, 1) == [true];
    assert ToBits(2, 2) == [true, false];
    assert ToBits(4, 3) == [true, false, false];
    assert ToBits(8, 4) == [true, false, false, false];
    assert ToBits(16, 5) == [true, false, false, false, false];
    assert ToBits(32, 6) == [true, false, false, false, false, false];
    assert ToBits(64, 7) == [true, false, false, false, false, false, false];
  }

  /** From the root, a zero bit reaches the leaf a, so zero bits decode to a's. */
  lemma {:induction false} ZerosDecodeToA(n: nat)
    ensures Walk(Root3, Root3, Zeros(n)) == seq(n, _ => 'a')
    decreases n
  {
    if n > 0 {
      assert Zeros(n)[0] == false && Zeros(n)[1..] == Zeros(n - 1);
      ZerosDecodeToA(n - 1);
      assert seq(n, _ => 'a') == ['a'] + seq(n - 1, _ => 'a');
    }
  }

  /** The example dictionary satisfies the invariant of every built dictionary. */
  lemma ExampleValid()
    ensures Valid(Dictionary(Codes3, Root3, 2))
    ensures CodesMatchTree(Codes3, Root3)
  {
    ExampleLeaves();
    ExampleDictionary();
  }

  /** The decoder sees the nine code bits followed by seven zero bits. */
  lemma ExampleStream()
    ensures CodesWellFormed(Codes3) && Known(Codes3, "aaabbc")
    ensures BytesToBits([0x15, 0x80]) == CodeBits(Codes3, "aaabbc") + Zeros(7)
  {
    ExampleEncoding();
    ExampleBits();
    var bits := CodeBits(Codes3, "aaabbc");
    UnpackPack(bits);
    assert Padded(bits) == bits + Zeros(7);
  }

  /** Decoding the two bytes without a length walks the seven padding bits
      too, and each zero bit reaches the leaf a. */
  lemma ExampleDecoding()
    ensures Decoded(Root3, [0x15, 0x80]) == "aaabbcaaaaaaa"
  {
    ExampleValid();
    ExampleStream();
    RoundTrip.DecodeCodes(Root3, Codes3, "aaabbc", Zeros(7));
    ZerosDecodeToA(7);
    PaddingAs();
  }

  lemma PaddingAs()
    ensures "aaabbc" + seq(7, _ => 'a') == "aaabbcaaaaaaa"
  {
  }
}
