/** The cached `ByteCount` of a dictionary against `GetByteCount`, the size
    the encoder actually needs for the message the dictionary was built from.
    With two or more distinct chars they agree. With a single distinct char the
    cache also counts the one-bit code of the '\0' placeholder leaf once, as
    if the placeholder were part of the message, and is one byte too large
    whenever the message length is a multiple of eight. The corrected
    construction sums over the table's own entries only. */
module ByteCounts {
  import opened Wrappers
  import opened Bits
  import opened Nodes
  import opened CharInfos
  import opened CodeTable
  import opened FrequencyTables
  import opened TreeBuilder
  import opened Dictionaries
  import opened Encoder

  lemma ValidWellFormed(d: Dictionary)
    requires Valid(d)
    ensures CodesWellFormed(d.codes)
  {
  }

  /** A dictionary built from a message has a code for every char of it. */
  lemma MessageKnown(message: seq<char>, pick: Pick)
    requires Encodable(message) && |message| <= IntMax
    ensures CodesWellFormed(FromMessage(message, pick).value.codes)
    ensures Known(FromMessage(message, pick).value.codes, message)
  {
    var d := FromMessage(message, pick).value;
    ValidWellFormed(d);
    forall i | 0 <= i < |message| ensures message[i] in d.codes {
      assert message[i] in message;
    }
  }

  /** With two or more distinct chars the cached byte count is what
      `GetByteCount` returns for the message, wrapping included, and so the
      length of the encoded message whenever its bit total fits in an `int`. */
  lemma ByteCountMatches(message: seq<char>, pick: Pick)
    requires Encodable(message) && |message| <= IntMax
    requires |Frequencies(message)| >= 2
    ensures var d := FromMessage(message, pick).value;
      && CodesWellFormed(d.codes) && Known(d.codes, message)
      && var bits := CodeBits(d.codes, message);
      && d.byteCount == BytesFor(Int32(|bits|))
      && (|bits| <= IntMax ==> d.byteCount == |PackBits(bits)|)
  {
    var d := FromMessage(message, pick).value;
    MessageKnown(message, pick);
    MessageByteCount(message, pick);
    CodeBitsLength(d.codes, message);
    PackBitsLength(CodeBits(d.codes, message));
  }

  /** The frequency table of `n` copies of one char. */
  lemma RepeatedFrequencies(c: char, n: nat)
    requires n >= 1
    ensures Frequencies(seq(n, _ => c)) == [(c, n)]
  {
    var m := seq(n, _ => c);
    var t := Frequencies(m);
    assert m[0] in m;
    assert KeySet(t) == {c} by {
      forall x | x in KeySet(t) ensures x == c {
        var i :| 0 <= i < |m| && m[i] == x;
      }
    }
    KeySetSize(t);
    assert |t| == 1;
    assert t[0].0 in KeySet(t);
    assert Total(t) == Total(t[..0]) + t[0].1;
  }

  /** A sum over chars that all weigh one is the number of chars. */
  lemma {:induction false} SumByOnes(cs: seq<char>, w: char -> int)
    requires forall i :: 0 <= i < |cs| ==> w(cs[i]) == 1
    ensures SumBy(cs, w) == |cs|
    decreases |cs|
  {
    if |cs| > 0 {
      assert forall i :: 0 <= i < |cs| - 1 ==> cs[1..][i] == cs[i + 1];
      SumByOnes(cs[1..], w);
    }
  }

  /** The library as written, on `n` copies of a char other than '\0': the
      message encodes to `n` bits, one per char, but the cached byte count
      is the size of `n + 1` bits, summed in an `int`: for `int.MaxValue`
      copies that sum wraps and the cached count is negative. */
  lemma SingleSymbolByteCount(c: char, n: nat, pick: Pick)
    requires c != '\0' && 1 <= n <= IntMax
    ensures var m := seq(n, _ => c);
      && FromMessage(m, pick).Success?
      && var d := FromMessage(m, pick).value;
      && CodesWellFormed(d.codes) && Known(d.codes, m)
      && |CodeBits(d.codes, m)| == n
      && d.byteCount == BytesFor(Int32(n + 1))
      && (n < IntMax ==> d.byteCount == CeilDiv8(n + 1))
      && (n == IntMax ==> d.byteCount < 0)
  {
    var m := seq(n, _ => c);
    RepeatedDictionary(c, n, pick);
    var d := FromMessage(m, pick).value;
    MessageKnown(m, pick);
    CodeBitsLength(d.codes, m);
    SumByRepeated(c, n, BitCountOf(d.codes));
    SingleSymbolCodes(c, n, pick);
  }

  lemma SumByRepeated(c: char, n: nat, w: char -> int)
    requires w(c) == 1
    ensures SumBy(seq(n, _ => c), w) == n
  {
    var m := seq(n, _ => c);
    assert forall i :: 0 <= i < |m| ==> w(m[i]) == 1;
    SumByOnes(m, w);
  }

  /** The dictionary of `n` copies of a char other than '\0': the char and
      the placeholder, one bit each. */
  lemma RepeatedDictionary(c: char, n: nat, pick: Pick)
    requires c != '\0' && 1 <= n <= IntMax
    ensures FromMessage(seq(n, _ => c), pick).Success?
    ensures FromMessage(seq(n, _ => c), pick).value
      == Dictionary(map[c := CharInfo(0, 1, n), '\0' := CharInfo(1, 1, 1)], Node(n, Leaf(c, n), Leaf('\0', 1)), BytesFor(Int32(n + 1)))
  {
    var m := seq(n, _ => c);
    assert m[0] == c && m[0] != '\0';
    RepeatedFrequencies(c, n);
    assert FromMessage(m, pick) == FromFrequencyTable([(c, n)], pick);
    SingleSymbolCodes(c, n, pick);
  }

  /** Eight copies of 'a' encode to one byte, yet the dictionary built from
      them caches a byte count of two. */
  lemma ByteCountOverstated(pick: Pick)
    ensures var m := seq(8, _ => 'a');
      && FromMessage(m, pick).Success?
      && var d := FromMessage(m, pick).value;
      && CodesWellFormed(d.codes) && Known(d.codes, m)
      && |PackBits(CodeBits(d.codes, m))| == 1
      && d.byteCount == 2
  {
    var m := seq(8, _ => 'a');
    SingleSymbolByteCount('a', 8, pick);
    var d := FromMessage(m, pick).value;
    PackBitsLength(CodeBits(d.codes, m));
  }

  /** Every term of the weighted total is a positive count times a
      non-negative weight. */
  lemma {:induction false} WeightedTotalNonnegative(t: Table, w: char -> int)
    requires AllPositive(t) && forall c :: w(c) >= 0
    ensures WeightedTotal(t, w) >= 0
    decreases |t|
  {
    if |t| > 0 {
      assert AllPositive(t[1..]) by {
        assert forall i :: 0 <= i < |t| - 1 ==> t[1..][i] == t[i + 1];
      }
      WeightedTotalNonnegative(t[1..], w);
      assert w(t[0].0) * t[0].1 >= 0 by {
        assert t[0].1 > 0 && w(t[0].0) >= 0;
      }
    }
  }

  /** The corrected `FromFrequencyTable`: the same dictionary, with the byte
      count summed over the table's own entries, code length times count, so
      a placeholder leaf is never counted, still in an `int`. When there is
      no placeholder nothing changes; a lone symbol's count is its own bit
      count. */
  function FixedFromFrequencyTable(table: Table, pick: Pick): (r: Result<Dictionary>)
    requires DistinctKeys(table) && IntCounts(table)
    ensures r.Success? <==> Buildable(table)
    ensures r.Success? ==> Valid(r.value)
    ensures |table| >= 2 ==> r == FromFrequencyTable(table, pick)
    ensures |table| == 1 && r.Success? ==> r.value.byteCount == CeilDiv8(table[0].1)
  {
    match FromFrequencyTable(table, pick)
    case Failure(e) => Failure(e)
    case Success(d) =>
      TableBits(table, pick);
      Success(d.(byteCount := BytesFor(Int32(WeightedTotal(table, BitCountOf(d.codes))))))
  }

  /** The table's own bits: as many as the cache counts when there are two or
      more entries, and the lone entry's count otherwise. */
  lemma {:induction false} TableBits(table: Table, pick: Pick)
    requires DistinctKeys(table) && Buildable(table)
    ensures var d := FromFrequencyTable(table, pick).value;
      var bits := WeightedTotal(table, BitCountOf(d.codes));
      && bits >= 0
      && (|table| >= 2 ==> d.byteCount == BytesFor(Int32(bits)))
      && (|table| == 1 ==> bits == table[0].1)
  {
    var d := FromFrequencyTable(table, pick).value;
    var w := BitCountOf(d.codes);
    ValidWellFormed(d);
    WeightedTotalNonnegative(table, w);
    if |table| >= 2 {
      ByteCountLaw(table, pick);
    } else {
      LoneEntryBits(table, pick);
    }
  }

  /** A lone entry's code is one bit long. */
  lemma {:induction false} LoneEntryBits(table: Table, pick: Pick)
    requires DistinctKeys(table) && |table| == 1 && Buildable(table)
    ensures WeightedTotal(table, BitCountOf(FromFrequencyTable(table, pick).value.codes)) == table[0].1
  {
    var c, f := table[0].0, table[0].1;
    OneEntry(table);
    SingleSymbolCodes(c, f, pick);
    var d := FromFrequencyTable(table, pick).value;
    assert d.codes[c] == CharInfo(0, 1, f);
    var w := BitCountOf(d.codes);
    assert w(c) == 1;
    LoneWeighted(table, w);
  }

  lemma {:induction false} LoneWeighted(table: Table, w: char -> int)
    requires |table| == 1 && w(table[0].0) == 1
    ensures WeightedTotal(table, w) == table[0].1
  {
    assert WeightedTotal(table, w) == w(table[0].0) * table[0].1 + WeightedTotal(table[1..], w);
  }

  /** The corrected `FromMessage`. */
  function FixedFromMessage(message: seq<char>, pick: Pick): (r: Result<Dictionary>)
    requires |message| <= IntMax
    ensures r.Failure? <==> FromMessage(message, pick).Failure?
    ensures r.Success? ==> r.value.codes == FromMessage(message, pick).value.codes
    ensures r.Success? ==> r.value.root == FromMessage(message, pick).value.root
  {
    MessageCounts(message);
    FixedFromFrequencyTable(Frequencies(message), pick)
  }

  /** The property the cache is meant to have, for every message: the byte
      count of the corrected dictionary is what `GetByteCount` returns, and
      so the length of the encoded message whenever its bit total fits in
      an `int`. */
  lemma FixedByteCountMatches(message: seq<char>, pick: Pick)
    requires Encodable(message) && |message| <= IntMax
    ensures var d := FixedFromMessage(message, pick).value;
      && CodesWellFormed(d.codes) && Known(d.codes, message)
      && var bits := CodeBits(d.codes, message);
      && d.byteCount == BytesFor(Int32(|bits|))
      && (|bits| <= IntMax ==> d.byteCount == |PackBits(bits)|)
  {
    var d := FixedFromMessage(message, pick).value;
    MessageKnown(message, pick);
    FrequenciesWeighted(message, BitCountOf(d.codes));
    CodeBitsLength(d.codes, message);
    PackBitsLength(CodeBits(d.codes, message));
  }
}
