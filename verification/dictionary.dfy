/** The Huffman dictionary: the code table the encoder looks chars up in, the
    tree the decoder walks, and the cached size of the encoded message. */
module Dictionaries {
  import opened Wrappers
  import opened Bits
  import opened Nodes
  import opened CharInfos
  import opened FrequencyTables
  import opened TreeBuilder
  import opened CodeTable

  datatype Dictionary = Dictionary(codes: map<char, CharInfo>, root: Tree, byteCount: int)
  {
    /** The root's frequency: the number of chars of the message the table came from. */
    function CharCount(): int
    {
      root.freq
    }
  }

  /** What every built dictionary satisfies: the decoder's tree is a proper
      node with positive frequencies and Left >= Right, the code of every char
      leads to that char's leaf, and the table has an entry for every leaf. */
  predicate Valid(d: Dictionary)
  {
    && d.root.Node?
    && PositiveFrequencies(d.root)
    && Ordered(d.root)
    && CodesMatchTree(d.codes, d.root)
    && d.codes.Keys == LeafCharSet(d.root)
  }

  predicate AllPositive(table: Table)
  {
    forall i :: 0 <= i < |table| ==> table[i].1 > 0
  }

  /** The table that cannot be built: after wrapping its lone leaf, the
      placeholder '\0' collides with the table's own '\0'. */
  predicate OnlyPlaceholder(table: Table)
  {
    |table| == 1 && table[0].0 == '\0'
  }

  /** The counts are values of the library's `int`, the value type of its
      `IReadOnlyDictionary<char, int>`. */
  predicate IntCounts(table: Table)
  {
    forall i :: 0 <= i < |table| ==> IntMin <= table[i].1 <= IntMax
  }

  /** The tables `FromFrequencyTable` builds a dictionary from: `int` counts,
      all positive, at least one entry, not only the placeholder, and a
      total that the merge loop's unchecked sums do not wrap. */
  predicate Buildable(table: Table)
  {
    IntCounts(table) && AllPositive(table) && |table| >= 1 && !OnlyPlaceholder(table) && Total(table) <= IntMax
  }

  /** The messages `FromMessage` builds a dictionary from: not empty and not
      made only of '\0'. */
  predicate Encodable(message: seq<char>)
  {
    |message| > 0 && exists i | 0 <= i < |message| :: message[i] != '\0'
  }

  /** The root built from the leaves: the merge loop, then the wrap of a lone leaf. */
  function RootOf(leaves: seq<Tree>, pick: Pick): Tree
    requires |leaves| >= 1
  {
    WrapRoot(BuildTree(leaves, pick))
  }

  /** Builds the dictionary from a frequency table. The errors are the
      library's exceptions: a frequency that is not positive (the leaf
      constructor), an empty table (`nodes[0]`), a merge whose unchecked sum
      wraps to a frequency that is not positive (the node constructor), and
      a table whose only key is '\0' (`charInfos.Add` of the placeholder). */
  function FromFrequencyTable(table: Table, pick: Pick): (r: Result<Dictionary>)
    requires DistinctKeys(table) && IntCounts(table)
    ensures !AllPositive(table) ==> r == Failure(InvalidFrequency)
    ensures AllPositive(table) && |table| == 0 ==> r == Failure(EmptyTable)
    ensures AllPositive(table) && Total(table) > IntMax ==> r == Failure(InvalidFrequency)
    ensures AllPositive(table) && OnlyPlaceholder(table) ==> r == Failure(DuplicateKey)
    ensures r.Success? <==> Buildable(table)
    ensures r.Success? ==> Valid(r.value)
    ensures r.Success? ==> r.value.CharCount() == Total(table)
  {
    match LeavesOf(table)
    case Failure(e) => Failure(e)
    case Success(leaves) =>
      if |leaves| == 0 then Failure(EmptyTable)
      else
        CheckedLeaves(table, pick);
        TableBuild(table, pick);
        match BuildChecked(leaves, pick)
        case Failure(e) => Failure(e)
        case Success(_) => Build(leaves, pick)
  }

  /** A buildable table's dictionary is the one `Build` makes from its leaves. */
  lemma {:induction false} BuiltFrom(table: Table, pick: Pick)
    requires DistinctKeys(table) && Buildable(table)
    ensures LeavesOf(table).Success? && |LeavesOf(table).value| == |table|
    ensures forall n | n in LeavesOf(table).value :: n.Leaf? && PositiveFrequencies(n) && Ordered(n)
    ensures CharsOf(LeavesOf(table).value) == multiset(Keys(table))
    ensures FromFrequencyTable(table, pick) == Build(LeavesOf(table).value, pick)
  {
    LeavesFacts(table);
    CheckedLeaves(table, pick);
  }

  /** The merge loop over the table's leaves fails exactly when the total
      does not fit in an `int`; a lone entry always fits. */
  lemma {:induction false} CheckedLeaves(table: Table, pick: Pick)
    requires IntCounts(table) && AllPositive(table) && |table| >= 1
    ensures LeavesOf(table).Success?
    ensures BuildChecked(LeavesOf(table).value, pick).Success? <==> Total(table) <= IntMax
    ensures |table| == 1 ==> Total(table) <= IntMax
    ensures OnlyPlaceholder(table) ==> Total(table) <= IntMax
  {
    LeavesFacts(table);
    var leaves := LeavesOf(table).value;
    LeavesFit(table, leaves);
    BuildCheckedTree(leaves, pick);
    if |table| == 1 {
      assert table[..0] == [];
    }
  }

  /** The leaves of a table of positive `int` counts have `int` frequencies. */
  lemma {:induction false} LeavesFit(table: Table, leaves: seq<Tree>)
    requires IntCounts(table) && AllPositive(table) && |leaves| == |table|
    requires forall i :: 0 <= i < |table| ==> leaves[i] == Leaf(table[i].0, table[i].1)
    ensures FitsInt(leaves)
  {
    forall t | t in leaves ensures 1 <= t.freq <= IntMax {
      var k :| 0 <= k < |leaves| && leaves[k] == t;
    }
  }

  /** What the construction does with the leaves of a table of positive counts. */
  lemma {:induction false} TableBuild(table: Table, pick: Pick)
    requires DistinctKeys(table) && AllPositive(table) && |table| >= 1
    ensures LeavesOf(table).Success?
    ensures var leaves := LeavesOf(table).value;
      && |leaves| >= 1
      && (forall n | n in leaves :: n.Leaf? && PositiveFrequencies(n) && Ordered(n))
      && (Build(leaves, pick).Success? <==> !OnlyPlaceholder(table))
      && RootOf(leaves, pick).freq == Total(table)
  {
    LeavesFacts(table);
    DistinctKeysBag(table);
    var leaves := LeavesOf(table).value;
    TreeFacts(leaves, pick);
    WalkDistinct(leaves, pick, Keys(table));
  }

  /** The rest of the construction once the leaves exist: the merge loop,
      the wrap of a lone leaf, the stack walk collecting each leaf's code,
      and the byte count, the sum of code length times frequency over the
      walk, accumulated in an `int` and rounded up to whole bytes. */
  function Build(leaves: seq<Tree>, pick: Pick): (r: Result<Dictionary>)
    requires |leaves| >= 1
    requires forall n | n in leaves :: n.Leaf? && PositiveFrequencies(n) && Ordered(n)
    ensures r.Success? <==> DistinctChars(CodeWalk(RootOf(leaves, pick), 0, 0))
    ensures r.Failure? ==> r.error == DuplicateKey
    ensures r.Success? ==> Valid(r.value) && r.value.root == RootOf(leaves, pick)
  {
    var root := RootOf(leaves, pick);
    var entries := CodeWalk(root, 0, 0);
    TreeFacts(leaves, pick);
    match CollectCodes(entries)
    case Failure(e) => Failure(e)
    case Success(codes) =>
      CodesFromWalk(root);
      WalkBitsNonnegative(root);
      Success(Dictionary(codes, root, BytesFor(Int32(TotalBits(entries)))))
  }

  /** The leaves of a table with positive counts: one per entry, each
      positive and trivially ordered, carrying the table's total and chars. */
  lemma {:induction false} LeavesFacts(table: Table)
    requires AllPositive(table)
    ensures LeavesOf(table).Success?
    ensures var leaves := LeavesOf(table).value;
      && |leaves| == |table|
      && (forall n | n in leaves :: n.Leaf? && PositiveFrequencies(n) && Ordered(n))
      && SumFreq(leaves) == Total(table)
      && CharsOf(leaves) == multiset(Keys(table))
  {
    LeavesTotals(table, LeavesOf(table).value);
  }

  /** The root built from any non-empty list of positive leaves. */
  lemma {:induction false} TreeFacts(leaves: seq<Tree>, pick: Pick)
    requires |leaves| >= 1
    requires forall n | n in leaves :: n.Leaf? && PositiveFrequencies(n) && Ordered(n)
    ensures var root := RootOf(leaves, pick);
      && root.Node? && PositiveFrequencies(root) && Ordered(root)
      && root.freq == SumFreq(leaves)
      && EntryChars(CodeWalk(root, 0, 0)) == CharsOf(leaves) + (if |leaves| == 1 then multiset{'\0'} else multiset{})
  {
    CodeWalkChars(RootOf(leaves, pick), 0, 0);
  }

  /** The walk has no repeated char exactly unless the only key is '\0'. */
  lemma {:induction false} WalkDistinct(leaves: seq<Tree>, pick: Pick, keys: seq<char>)
    requires |leaves| >= 1 && |keys| == |leaves|
    requires forall n | n in leaves :: n.Leaf? && PositiveFrequencies(n) && Ordered(n)
    requires CharsOf(leaves) == multiset(keys)
    requires forall c :: multiset(keys)[c] <= 1
    ensures DistinctChars(CodeWalk(RootOf(leaves, pick), 0, 0)) <==> !(|keys| == 1 && keys[0] == '\0')
  {
    TreeFacts(leaves, pick);
    var es := CodeWalk(RootOf(leaves, pick), 0, 0);
    DistinctCharsIffSingles(es);
    WalkBag(EntryChars(es), keys);
  }

  lemma WalkBag(m: multiset<char>, keys: seq<char>)
    requires |keys| >= 1 && forall c :: multiset(keys)[c] <= 1
    requires m == multiset(keys) + (if |keys| == 1 then multiset{'\0'} else multiset{})
    ensures (forall c :: m[c] <= 1) <==> !(|keys| == 1 && keys[0] == '\0')
  {
    if |keys| == 1 {
      assert keys == [keys[0]];
      PlaceholderTwice(m, keys[0]);
    } else {
      assert m == multiset(keys);
    }
  }

  /** The walk of a one-leaf tree also meets the placeholder, so it repeats a
      char exactly when the leaf is itself '\0'. */
  lemma PlaceholderTwice(m: multiset<char>, k: char)
    requires m == multiset{k, '\0'}
    ensures (forall c :: m[c] <= 1) <==> k != '\0'
  {
    if k == '\0' {
      assert m['\0'] == 2;
    }
  }

  lemma {:induction false} TotalBitsNonnegative(es: seq<Entry>)
    requires forall k | 0 <= k < |es| :: es[k].1.bitCount >= 0 && es[k].1.frequency >= 0
    ensures TotalBits(es) >= 0
    decreases |es|
  {
    if |es| > 0 {
      TotalBitsNonnegative(es[1..]);
    }
  }

  /** Every code length and leaf frequency met by the walk is non-negative. */
  lemma WalkBitsNonnegative(root: Tree)
    requires PositiveFrequencies(root)
    ensures TotalBits(CodeWalk(root, 0, 0)) >= 0
  {
    var es := CodeWalk(root, 0, 0);
    CodeWalkSound(root, 0, 0);
    forall k | 0 <= k < |es| ensures es[k].1.frequency >= 0 {
      var code := ToBits(es[k].1.bits, es[k].1.bitCount);
      assert code[0..] == code;
      LeafOfPositiveTree(root, code);
    }
    TotalBitsNonnegative(es);
  }

  /** Every char of the table gets a code whose frequency is the table's
      count for it; with two or more symbols the table's keys are exactly
      the code table's keys (a single symbol adds the placeholder). */
  lemma {:induction false} TableCodes(table: Table, pick: Pick)
    requires DistinctKeys(table)
    requires Buildable(table)
    ensures var d := FromFrequencyTable(table, pick).value;
      forall i | 0 <= i < |table| :: table[i].0 in d.codes && d.codes[table[i].0].frequency == table[i].1
    ensures var d := FromFrequencyTable(table, pick).value;
      |table| >= 2 ==> d.codes.Keys == KeySet(table)
  {
    if |table| == 1 {
      LoneTableCodes(table, pick);
    } else {
      ManyKeys(table, pick);
      ManyEntries(table, pick);
    }
  }

  /** A lone entry's char has a code recording the entry's count. */
  lemma {:induction false} LoneTableCodes(table: Table, pick: Pick)
    requires DistinctKeys(table) && |table| == 1
    requires Buildable(table)
    ensures var d := FromFrequencyTable(table, pick).value;
      forall i | 0 <= i < |table| :: table[i].0 in d.codes && d.codes[table[i].0].frequency == table[i].1
  {
    var c, f := table[0].0, table[0].1;
    OneEntry(table);
    SingleSymbolCodes(c, f, pick);
    var d := FromFrequencyTable(table, pick).value;
    assert d.codes[c] == CharInfo(0, 1, f);
    LoneEntryCode(table, d.codes);
  }

  lemma {:induction false} OneEntry(table: Table)
    requires |table| == 1
    ensures table == [(table[0].0, table[0].1)]
  {
  }

  lemma {:induction false} LoneEntryCode(table: Table, codes: map<char, CharInfo>)
    requires |table| == 1 && table[0].0 in codes && codes[table[0].0].frequency == table[0].1
    ensures forall i | 0 <= i < |table| :: table[i].0 in codes && codes[table[i].0].frequency == table[i].1
  {
  }

  lemma {:induction false} ManyEntries(table: Table, pick: Pick)
    requires DistinctKeys(table) && |table| >= 2
    requires Buildable(table)
    requires FromFrequencyTable(table, pick).value.codes.Keys == KeySet(table)
    ensures var d := FromFrequencyTable(table, pick).value;
      forall i | 0 <= i < |table| :: table[i].0 in d.codes && d.codes[table[i].0].frequency == table[i].1
  {
    var d := FromFrequencyTable(table, pick).value;
    forall i | 0 <= i < |table|
      ensures table[i].0 in d.codes && d.codes[table[i].0].frequency == table[i].1
    {
      ManyEntry(table, pick, i);
    }
  }

  /** With two or more entries the code table has exactly the table's keys. */
  lemma {:induction false} ManyKeys(table: Table, pick: Pick)
    requires DistinctKeys(table) && |table| >= 2
    requires Buildable(table)
    ensures FromFrequencyTable(table, pick).value.codes.Keys == KeySet(table)
  {
    var d := FromFrequencyTable(table, pick).value;
    LeavesFacts(table);
    DistinctKeysBag(table);
    var leaves := LeavesOf(table).value;
    TreeFacts(leaves, pick);
    assert d.root == RootOf(leaves, pick);
    KeysMatch(d.codes, d.root, table);
  }

  /** With two or more entries each entry's code records the entry's count. */
  lemma {:induction false} ManyEntry(table: Table, pick: Pick, i: nat)
    requires DistinctKeys(table) && |table| >= 2 && i < |table|
    requires Buildable(table)
    requires FromFrequencyTable(table, pick).value.codes.Keys == KeySet(table)
    ensures var d := FromFrequencyTable(table, pick).value;
      table[i].0 in d.codes && d.codes[table[i].0].frequency == table[i].1
  {
    var d := FromFrequencyTable(table, pick).value;
    RootLeavesIn(table, pick);
    assert d.root == RootOf(LeavesOf(table).value, pick);
    assert table[i].0 in KeySet(table);
    CodeFrequencyInTable(d.codes, d.root, table, table[i].0);
    PairLookup(table, i, d.codes[table[i].0].frequency);
  }

  lemma {:induction false} KeysMatch(codes: map<char, CharInfo>, root: Tree, table: Table)
    requires codes.Keys == LeafCharSet(root)
    requires LeafChars(root) == multiset(Keys(table))
    requires forall c :: c in multiset(Keys(table)) <==> c in KeySet(table)
    ensures codes.Keys == KeySet(table)
  {
  }

  /** With two or more entries the root is the merge loop's tree, whose
      leaves all come from the table. */
  lemma {:induction false} RootLeavesIn(table: Table, pick: Pick)
    requires AllPositive(table) && |table| >= 2
    ensures LeavesOf(table).Success?
    ensures LeavesIn(RootOf(LeavesOf(table).value, pick), table)
  {
    LeavesOfIn(table, table);
    BuildTreeLeavesIn(LeavesOf(table).value, pick, table);
  }

  /** Each leaf made from a part of a table is a pair of the whole table. */
  lemma {:induction false} LeavesOfIn(part: Table, table: Table)
    requires AllPositive(part)
    requires forall p | p in part :: p in table
    ensures LeavesOf(part).Success?
    ensures forall n | n in LeavesOf(part).value :: LeavesIn(n, table)
    decreases |part|
  {
    if |part| > 0 {
      LeavesOfIn(part[1..], table);
      assert part[0] in part;
      assert LeavesOf(part).value == [Leaf(part[0].0, part[0].1)] + LeavesOf(part[1..]).value;
    }
  }

  /** A code that leads to a leaf of a tree built from the table records that
      leaf's pair. */
  lemma {:induction false} CodeFrequencyInTable(codes: map<char, CharInfo>, root: Tree, table: Table, c: char)
    requires CodesMatchTree(codes, root) && LeavesIn(root, table) && c in codes
    ensures (c, codes[c].frequency) in table
  {
    FollowLeavesIn(root, table, Code(codes[c]));
  }

  lemma {:induction false} PairLookup(table: Table, i: nat, f: int)
    requires DistinctKeys(table) && i < |table|
    requires (table[i].0, f) in table
    ensures f == table[i].1
  {
    var j :| 0 <= j < |table| && table[j] == (table[i].0, f);
    assert i == j;
  }

  /** A single-symbol table: the symbol gets code `0`, the placeholder '\0'
      gets code `1` with frequency 1, and the byte count counts the
      placeholder's bit as if it were part of the message (in an `int`, so
      a count of `int.MaxValue` wraps it to a negative number). */
  lemma SingleSymbolCodes(c: char, f: int, pick: Pick)
    requires 0 < f <= IntMax && c != '\0'
    ensures FromFrequencyTable([(c, f)], pick).Success?
    ensures FromFrequencyTable([(c, f)], pick).value
      == Dictionary(map[c := CharInfo(0, 1, f), '\0' := CharInfo(1, 1, 1)], Node(f, Leaf(c, f), Leaf('\0', 1)), BytesFor(Int32(f + 1)))
    ensures f < IntMax ==> FromFrequencyTable([(c, f)], pick).value.byteCount == CeilDiv8(f + 1)
    ensures f == IntMax ==> FromFrequencyTable([(c, f)], pick).value.byteCount < 0
  {
    var table := [(c, f)];
    assert LeavesOf(table).value == [Leaf(c, f)];
    CheckedLeaves(table, pick);
    SingleBuild(c, f, pick);
    if f == IntMax {
      assert Int32(f + 1) == IntMin by {
        DivModUnique(f + 1 - IntMin, UintRange, 1, 0);
      }
    }
  }

  lemma SingleBuild(c: char, f: int, pick: Pick)
    requires f > 0 && c != '\0'
    ensures Build([Leaf(c, f)], pick)
      == Success(Dictionary(map[c := CharInfo(0, 1, f), '\0' := CharInfo(1, 1, 1)], Node(f, Leaf(c, f), Leaf('\0', 1)), BytesFor(Int32(f + 1))))
  {
    var root := RootOf([Leaf(c, f)], pick);
    SingleRoot(c, f, pick);
    WrappedWalk(c, f);
    var es := CodeWalk(root, 0, 0);
    assert es[1..] == [(c, CharInfo(0, 1, f))];
    assert es[1..][1..] == [];
    assert TotalBits(es[1..]) == f;
    assert TotalBits(es) == f + 1;
    var codes := CollectCodes(es).value;
    assert codes.Keys == {'\0', c};
    assert codes == map[c := CharInfo(0, 1, f), '\0' := CharInfo(1, 1, 1)];
  }

  lemma SingleRoot(c: char, f: int, pick: Pick)
    ensures RootOf([Leaf(c, f)], pick) == Node(f, Leaf(c, f), Leaf('\0', 1))
  {
  }

  lemma WrappedWalk(c: char, f: int)
    ensures CodeWalk(Node(f, Leaf(c, f), Leaf('\0', 1)), 0, 0) == [('\0', CharInfo(1, 1, 1)), (c, CharInfo(0, 1, f))]
  {
    assert CodeWalk(Leaf('\0', 1), 1, 1) == [('\0', CharInfo(1, 1, 1))];
    assert CodeWalk(Leaf(c, f), 0, 1) == [(c, CharInfo(0, 1, f))];
  }

  /** The code length of each char, 0 for a char without a code. */
  function BitCountOf(codes: map<char, CharInfo>): char -> int
  {
    c => if c in codes then codes[c].bitCount else 0
  }

  function FrequencyOf(codes: map<char, CharInfo>): char -> int
  {
    c => if c in codes then codes[c].frequency else 0
  }

  /** The chars of a list of entries, in order. */
  function EntryKeys(es: seq<Entry>): (cs: seq<char>)
    ensures |cs| == |es| && forall k :: 0 <= k < |es| ==> cs[k] == es[k].0
  {
    seq(|es|, k requires 0 <= k < |es| => es[k].0)
  }

  lemma {:induction false} EntryKeysBag(es: seq<Entry>)
    ensures multiset(EntryKeys(es)) == EntryChars(es)
    decreases |es|
  {
    if |es| > 0 {
      EntryKeysBag(es[1..]);
      assert EntryKeys(es) == [es[0].0] + EntryKeys(es[1..]);
    }
  }

  /** The walk's bit total, summed per entry, is the sum over its chars of
      code length times frequency as the code table records them. */
  lemma {:induction false} TotalBitsByChar(es: seq<Entry>, codes: map<char, CharInfo>, w: char -> int)
    requires forall k | 0 <= k < |es| :: es[k].0 in codes && codes[es[k].0] == es[k].1
    requires forall c :: w(c) == BitCountOf(codes)(c) * FrequencyOf(codes)(c)
    ensures TotalBits(es) == SumBy(EntryKeys(es), w)
    decreases |es|
  {
    if |es| > 0 {
      TotalBitsByChar(es[1..], codes, w);
      assert EntryKeys(es)[1..] == EntryKeys(es[1..]);
    }
  }

  lemma {:induction false} SumByKeys(table: Table, bc: char -> int, fr: char -> int, w: char -> int)
    requires forall i :: 0 <= i < |table| ==> fr(table[i].0) == table[i].1
    requires forall c :: w(c) == bc(c) * fr(c)
    ensures SumBy(Keys(table), w) == WeightedTotal(table, bc)
    decreases |table|
  {
    if |table| > 0 {
      assert Keys(table)[1..] == Keys(table[1..]);
      SumByKeys(table[1..], bc, fr, w);
    }
  }

  /** With two or more symbols the cached byte count is the encoded size of
      the message the table describes: the sum over the table of code length
      times count, rounded up to whole bytes, as long as that sum fits in an
      `int`; beyond, the sum wraps before it is rounded. */
  lemma {:induction false} ByteCountLaw(table: Table, pick: Pick)
    requires DistinctKeys(table) && |table| >= 2
    requires Buildable(table)
    ensures var d := FromFrequencyTable(table, pick).value;
      WeightedTotal(table, BitCountOf(d.codes)) >= 0 && d.byteCount == BytesFor(Int32(WeightedTotal(table, BitCountOf(d.codes))))
    ensures var d := FromFrequencyTable(table, pick).value;
      WeightedTotal(table, BitCountOf(d.codes)) <= IntMax ==> d.byteCount == CeilDiv8(WeightedTotal(table, BitCountOf(d.codes)))
  {
    BuiltFrom(table, pick);
    TableCodes(table, pick);
    var r := FromFrequencyTable(table, pick);
    TableBytes(table, pick, LeavesOf(table).value, r.value);
  }

  lemma {:induction false} TableBytes(table: Table, pick: Pick, leaves: seq<Tree>, d: Dictionary)
    requires |leaves| >= 2
    requires forall n | n in leaves :: n.Leaf? && PositiveFrequencies(n) && Ordered(n)
    requires CharsOf(leaves) == multiset(Keys(table))
    requires Build(leaves, pick) == Success(d)
    requires forall i | 0 <= i < |table| :: table[i].0 in d.codes && d.codes[table[i].0].frequency == table[i].1
    ensures WeightedTotal(table, BitCountOf(d.codes)) >= 0
    ensures d.byteCount == BytesFor(Int32(WeightedTotal(table, BitCountOf(d.codes))))
    ensures WeightedTotal(table, BitCountOf(d.codes)) <= IntMax ==> d.byteCount == CeilDiv8(WeightedTotal(table, BitCountOf(d.codes)))
  {
    var bc, fr := BitCountOf(d.codes), FrequencyOf(d.codes);
    var w := c => bc(c) * fr(c);
    BuildBits(leaves, pick, Keys(table), w);
    SumByKeys(table, bc, fr, w);
  }

  /** The built dictionary's byte count, summed per char rather than per
      walk entry. */
  lemma {:induction false} BuildBits(leaves: seq<Tree>, pick: Pick, keys: seq<char>, w: char -> int)
    requires |leaves| >= 2
    requires forall n | n in leaves :: n.Leaf? && PositiveFrequencies(n) && Ordered(n)
    requires CharsOf(leaves) == multiset(keys)
    requires Build(leaves, pick).Success?
    requires forall c :: w(c) == BitCountOf(Build(leaves, pick).value.codes)(c) * FrequencyOf(Build(leaves, pick).value.codes)(c)
    ensures SumBy(keys, w) >= 0 && Build(leaves, pick).value.byteCount == BytesFor(Int32(SumBy(keys, w)))
  {
    var d := Build(leaves, pick).value;
    var es := CodeWalk(d.root, 0, 0);
    WalkBitsByChar(d, es, w);
    WalkKeysBits(leaves, pick, keys, es, w);
    WalkBitsNonnegative(d.root);
    assert d.byteCount == BytesFor(Int32(TotalBits(es)));
  }

  lemma {:induction false} WalkBitsByChar(d: Dictionary, es: seq<Entry>, w: char -> int)
    requires CollectCodes(es).Success? && d.codes == CollectCodes(es).value
    requires forall c :: w(c) == BitCountOf(d.codes)(c) * FrequencyOf(d.codes)(c)
    ensures TotalBits(es) == SumBy(EntryKeys(es), w)
  {
    assert forall k | 0 <= k < |es| :: es[k].0 in d.codes && d.codes[es[k].0] == es[k].1;
    TotalBitsByChar(es, d.codes, w);
  }

  lemma {:induction false} WalkKeysBits(leaves: seq<Tree>, pick: Pick, keys: seq<char>, es: seq<Entry>, w: char -> int)
    requires |leaves| >= 2
    requires forall n | n in leaves :: n.Leaf? && PositiveFrequencies(n) && Ordered(n)
    requires CharsOf(leaves) == multiset(keys)
    requires Build(leaves, pick).Success? && es == CodeWalk(Build(leaves, pick).value.root, 0, 0)
    ensures SumBy(EntryKeys(es), w) == SumBy(keys, w)
  {
    TreeFacts(leaves, pick);
    EntryKeysBag(es);
    SumByPermutation(EntryKeys(es), keys, w);
  }

  /** `FromMessage`: count the chars, then build from the table. It fails
      exactly on the empty message and on a message made only of '\0'. A
      span's length is an `int`, so no count and no total exceeds
      `int.MaxValue`. */
  function FromMessage(message: seq<char>, pick: Pick): (r: Result<Dictionary>)
    requires |message| <= IntMax
    ensures |message| == 0 ==> r == Failure(EmptyTable)
    ensures r.Failure? <==> |message| == 0 || forall i :: 0 <= i < |message| ==> message[i] == '\0'
    ensures r.Success? ==> Valid(r.value) && r.value.CharCount() == |message|
    ensures r.Success? ==> forall c | c in message :: c in r.value.codes && r.value.codes[c].frequency == multiset(message)[c]
  {
    var t := Frequencies(message);
    assert AllPositive(t) by {
      forall i | 0 <= i < |t| ensures t[i].1 > 0 {
        assert t[i].0 in KeySet(t);
      }
    }
    OnlyPlaceholderMessage(message);
    MessageCounts(message);
    assert |message| > 0 ==> |t| > 0 by {
      if |message| > 0 { assert message[0] in message; }
    }
    var r := FromFrequencyTable(t, pick);
    if r.Success? then
      TableCodes(t, pick);
      assert forall c | c in message :: exists i :: 0 <= i < |t| && t[i].0 == c;
      r
    else r
  }

  /** The counts of a message that fits in a span are `int` values. */
  lemma MessageCounts(message: seq<char>)
    requires |message| <= IntMax
    ensures IntCounts(Frequencies(message))
  {
    var t := Frequencies(message);
    forall i | 0 <= i < |t| ensures IntMin <= t[i].1 <= IntMax {
      MultiplicityBound(message, t[i].0);
    }
  }

  lemma {:induction false} MultiplicityBound(message: seq<char>, c: char)
    ensures 0 <= multiset(message)[c] <= |message|
    decreases |message|
  {
    if |message| > 0 {
      var init := message[..|message| - 1];
      assert message == init + [message[|message| - 1]];
      MultiplicityBound(init, c);
    }
  }

  /** The counted table is the lone '\0' entry exactly for a non-empty
      message made only of '\0'. */
  lemma OnlyPlaceholderMessage(message: seq<char>)
    ensures OnlyPlaceholder(Frequencies(message)) <==>
      |message| > 0 && forall i :: 0 <= i < |message| ==> message[i] == '\0'
  {
    var t := Frequencies(message);
    if |message| > 0 && forall i :: 0 <= i < |message| ==> message[i] == '\0' {
      assert message[0] in message;
      assert '\0' in KeySet(t);
      assert |t| >= 1;
      forall x | x in KeySet(t) ensures x == '\0' { }
      AtMostOneKey(t, '\0');
      assert t[0].0 in KeySet(t);
    }
    if OnlyPlaceholder(t) {
      assert KeySet(t) == {'\0'};
      forall i | 0 <= i < |message| ensures message[i] == '\0' {
        assert message[i] in message;
      }
    }
  }

  /** A table whose every key is `c` has at most one entry. */
  lemma {:induction false} AtMostOneKey(t: Table, c: char)
    requires DistinctKeys(t)
    requires forall x | x in KeySet(t) :: x == c
    ensures |t| <= 1
  {
    KeySetSize(t);
    assert KeySet(t) <= {c};
    if c in KeySet(t) {
      assert KeySet(t) == {c};
    } else {
      assert KeySet(t) == {};
    }
  }

  /** Distinct keys: the key set has one element per entry. */
  lemma {:induction false} KeySetSize(t: Table)
    requires DistinctKeys(t)
    ensures |KeySet(t)| == |t|
    decreases |t|
  {
    if |t| > 0 {
      var init := t[..|t| - 1];
      KeySetSize(init);
      assert KeySet(t) == KeySet(init) + {t[|t| - 1].0} by {
        forall x | x in KeySet(t) ensures x in KeySet(init) + {t[|t| - 1].0} {
          var i :| 0 <= i < |t| && t[i].0 == x;
          if i < |t| - 1 { assert init[i].0 == x; }
        }
        forall x | x in KeySet(init) ensures x in KeySet(t) {
          var i :| 0 <= i < |init| && init[i].0 == x;
          assert t[i].0 == x;
        }
      }
      assert t[|t| - 1].0 !in KeySet(init) by {
        forall i | 0 <= i < |init| ensures init[i].0 != t[|t| - 1].0 {
          assert init[i] == t[i];
        }
      }
    }
  }

  /** With two or more distinct chars, the cached byte count is the sum of
      the code lengths of the message's chars, wrapped to an `int` and
      rounded up to bytes. */
  lemma MessageByteCount(message: seq<char>, pick: Pick)
    requires Encodable(message) && |message| <= IntMax
    requires |Frequencies(message)| >= 2
    ensures var d := FromMessage(message, pick).value;
      SumBy(message, BitCountOf(d.codes)) >= 0 && d.byteCount == BytesFor(Int32(SumBy(message, BitCountOf(d.codes))))
    ensures var d := FromMessage(message, pick).value;
      SumBy(message, BitCountOf(d.codes)) <= IntMax ==> d.byteCount == CeilDiv8(SumBy(message, BitCountOf(d.codes)))
  {
    var t := Frequencies(message);
    MessageTable(message, pick);
    ByteCountLaw(t, pick);
    FrequenciesWeighted(message, BitCountOf(FromMessage(message, pick).value.codes));
  }

  /** A message `FromMessage` accepts counts to a table `FromFrequencyTable` accepts. */
  lemma MessageTable(message: seq<char>, pick: Pick)
    requires Encodable(message) && |message| <= IntMax
    ensures Buildable(Frequencies(message))
    ensures FromMessage(message, pick) == FromFrequencyTable(Frequencies(message), pick)
  {
    var t := Frequencies(message);
    var r := FromMessage(message, pick);
    assert r.Success?;
  }
}
