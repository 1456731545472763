/** Decoding undoes encoding. The codes of a dictionary are the root-to-leaf
    paths of its tree, so walking the tree along the encoded stream emits the
    message again; the zero bits that fill the last byte are walked as well,
    and each completed path in them emits one more char. */
module RoundTrip {
  import opened Wrappers
  import opened Bits
  import opened Nodes
  import opened CharInfos
  import opened CodeTable
  import opened Dictionaries
  import opened Encoder
  import opened Decoder

  /** Walking a path that ends at a leaf emits that leaf's char and goes back to the root. */
  lemma {:induction false} WalkCode(root: Tree, node: Tree, p: seq<bool>, rest: seq<bool>)
    requires root.Node? && node.Node? && |p| >= 1
    requires Follow(node, p).Some? && Follow(node, p).value.Leaf?
    ensures Walk(root, node, p + rest) == [Follow(node, p).value.ch] + Walk(root, root, rest)
    decreases |p|
  {
    assert (p + rest)[0] == p[0] && (p + rest)[1..] == p[1..] + rest;
    var next := if p[0] then node.right else node.left;
    assert Follow(node, p) == Follow(next, p[1..]);
    if |p| == 1 {
      assert p[1..] + rest == rest;
    } else {
      assert next.Node?;
      WalkCode(root, next, p[1..], rest);
    }
  }

  lemma CodesMatchWellFormed(codes: map<char, CharInfo>, root: Tree)
    requires CodesMatchTree(codes, root)
    ensures CodesWellFormed(codes)
  {
  }

  /** Walking the codes of a message from the root emits the message, then
      whatever the rest of the stream emits. */
  lemma {:induction false} DecodeCodes(root: Tree, codes: map<char, CharInfo>, m: seq<char>, rest: seq<bool>)
    requires root.Node? && CodesMatchTree(codes, root) && Known(codes, m)
    ensures CodesWellFormed(codes)
    ensures Walk(root, root, CodeBits(codes, m) + rest) == m + Walk(root, root, rest)
    decreases |m|
  {
    CodesMatchWellFormed(codes, root);
    if |m| > 0 {
      var init, c := m[..|m| - 1], m[|m| - 1];
      KnownFront(codes, m);
      CodeLeaf(codes, root, c);
      DecodeCodes(root, codes, init, Code(codes[c]) + rest);
      DecodeLastCode(root, codes, m, rest);
    } else {
      assert CodeBits(codes, m) + rest == rest;
    }
  }

  lemma KnownFront(codes: map<char, CharInfo>, m: seq<char>)
    requires |m| > 0 && Known(codes, m)
    ensures Known(codes, m[..|m| - 1]) && m[|m| - 1] in codes
  {
    assert forall i :: 0 <= i < |m| - 1 ==> m[..|m| - 1][i] == m[i];
  }

  /** The inductive step: the last char's code, walked after the others, emits the last char. */
  lemma DecodeLastCode(root: Tree, codes: map<char, CharInfo>, m: seq<char>, rest: seq<bool>)
    requires root.Node? && CodesWellFormed(codes) && |m| > 0 && Known(codes, m)
    requires Known(codes, m[..|m| - 1])
    requires |Code(codes[m[|m| - 1]])| >= 1
    requires Follow(root, Code(codes[m[|m| - 1]])) == Some(Leaf(m[|m| - 1], codes[m[|m| - 1]].frequency))
    requires var code := Code(codes[m[|m| - 1]]);
      Walk(root, root, CodeBits(codes, m[..|m| - 1]) + (code + rest)) == m[..|m| - 1] + Walk(root, root, code + rest)
    ensures Walk(root, root, CodeBits(codes, m) + rest) == m + Walk(root, root, rest)
  {
    var init, c := m[..|m| - 1], m[|m| - 1];
    var code := Code(codes[c]);
    var w := Walk(root, root, rest);
    assert CodeBits(codes, m) + rest == CodeBits(codes, init) + (code + rest);
    WalkCode(root, root, code, rest);
    SnocAssoc(Walk(root, root, CodeBits(codes, m) + rest), init, c, w, m);
  }

  /** The code of a char in the table is a non-empty path to its leaf. */
  lemma CodeLeaf(codes: map<char, CharInfo>, root: Tree, c: char)
    requires CodesMatchTree(codes, root) && c in codes
    ensures WellFormed(codes[c]) && |Code(codes[c])| >= 1
    ensures Follow(root, Code(codes[c])) == Some(Leaf(c, codes[c].frequency))
  {
  }

  lemma SnocAssoc<T>(lhs: seq<T>, a: seq<T>, c: T, w: seq<T>, m: seq<T>)
    requires lhs == a + ([c] + w) && |m| > 0 && a == m[..|m| - 1] && c == m[|m| - 1]
    ensures lhs == m + w
  {
    assert m == a + [c];
  }

  /** The char of the leaf reached by always going Left. */
  function LeftmostChar(t: Tree): char
  {
    match t
    case Leaf(c, _) => c
    case Node(_, l, _) => LeftmostChar(l)
  }

  /** Zero bits keep going Left, so every char they emit is the leftmost leaf's. */
  lemma {:induction false} ZerosWalk(root: Tree, node: Tree, n: nat)
    requires root.Node? && node.Node? && LeftmostChar(node) == LeftmostChar(root)
    ensures forall i :: 0 <= i < |Walk(root, node, Zeros(n))| ==> Walk(root, node, Zeros(n))[i] == LeftmostChar(root)
    decreases n
  {
    if n > 0 {
      var z := Zeros(n);
      assert z[0] == false && z[1..] == Zeros(n - 1);
      var next := node.left;
      if next.Leaf? {
        ZerosWalk(root, root, n - 1);
      } else {
        ZerosWalk(root, next, n - 1);
      }
    }
  }

  /** `Decode(Encode(m))` with no length: the message, then one char for each
      code completed by the zero padding of the last byte, at most seven of
      them and each the char of the leftmost leaf. */
  lemma RoundTrip(d: Dictionary, message: seq<char>)
    requires Valid(d) && Known(d.codes, message)
    ensures CodesWellFormed(d.codes)
    ensures var out := Decoded(d.root, PackBits(CodeBits(d.codes, message)));
      && |message| <= |out| <= |message| + 7
      && out[..|message|] == message
      && forall i :: |message| <= i < |out| ==> out[i] == LeftmostChar(d.root)
  {
    CodesMatchWellFormed(d.codes, d.root);
    var bits := CodeBits(d.codes, message);
    var pad := (8 - |bits| % 8) % 8;
    var tail := Walk(d.root, d.root, Zeros(pad));
    EncodedStream(d, message);
    ZerosWalk(d.root, d.root, pad);
    TailFacts(Decoded(d.root, PackBits(bits)), message, tail, LeftmostChar(d.root));
  }

  /** The stream the decoder sees is the message's codes, then the padding,
      so it decodes to the message, then whatever the padding walks to. */
  lemma EncodedStream(d: Dictionary, message: seq<char>)
    requires Valid(d) && Known(d.codes, message)
    ensures CodesWellFormed(d.codes)
    ensures var bits := CodeBits(d.codes, message);
      Decoded(d.root, PackBits(bits)) == message + Walk(d.root, d.root, Zeros((8 - |bits| % 8) % 8))
  {
    CodesMatchWellFormed(d.codes, d.root);
    var bits := CodeBits(d.codes, message);
    var pad := Zeros((8 - |bits| % 8) % 8);
    UnpackPack(bits);
    assert BytesToBits(PackBits(bits)) == bits + pad;
    DecodeCodes(d.root, d.codes, message, pad);
  }

  lemma TailFacts(out: seq<char>, message: seq<char>, tail: seq<char>, x: char)
    requires out == message + tail && |tail| <= 7
    requires forall i :: 0 <= i < |tail| ==> tail[i] == x
    ensures |message| <= |out| <= |message| + 7
    ensures out[..|message|] == message
    ensures forall i :: |message| <= i < |out| ==> out[i] == x
  {
    forall i | |message| <= i < |out| ensures out[i] == x {
      assert out[i] == tail[i - |message|];
    }
  }

  /** `Decode(output, Encode(m))` with `output` of `|m|` chars, as the library's
      callers do when they pass the length. The result is Decode's count and
      the buffer: `|m|` chars and exactly the message when the bit total fits
      in an `int`. Past the count the buffer keeps its initial '\0's. */
  method DecodeWithLength(d: Dictionary, message: seq<char>) returns (r: Result<(nat, seq<char>)>)
    requires Valid(d)
    ensures CodesWellFormed(d.codes)
    ensures r.Failure? <==> !Known(d.codes, message) || BytesFor(Int32(|CodeBits(d.codes, message)|)) < 0
    ensures r.Failure? && Known(d.codes, message) ==> r.error == Overflow
    ensures r.Success? ==> Known(d.codes, message)
    ensures r.Success? ==> r.value.0 <= |message| && |r.value.1| == |message|
    ensures r.Success? ==> forall i | r.value.0 <= i < |message| :: r.value.1[i] == '\0'
    ensures r.Success? && |CodeBits(d.codes, message)| <= IntMax ==> r.value.0 == |message| && r.value.1 == message
  {
    CodesMatchWellFormed(d.codes, d.root);
    var bytes := EncodeAll(d.codes, message);
    if bytes.Failure? {
      return Failure(bytes.error);
    }
    if |CodeBits(d.codes, message)| <= IntMax {
      RoundTrip(d, message);
    }
    var n, out := Decode(d.root, seq(|message|, _ => '\0'), bytes.value);
    BlankTail(out, n, |message|);
    return Success((n, out));
  }

  /** The chars of a '\0'-filled buffer that `Decode` left alone are '\0'. */
  lemma BlankTail(out: seq<char>, n: nat, len: nat)
    requires n <= |out| == len && out[n..] == seq(len, _ => '\0')[n..]
    ensures forall i | n <= i < len :: out[i] == '\0'
  {
    forall i | n <= i < len ensures out[i] == '\0' {
      assert out[i] == out[n..][i - n];
    }
  }

  /** The whole pipeline of the static `Encode`: build the dictionary from the
      message, encode, decode without a length. A message that cannot be built
      fails as `FromMessage` does; any other failure is an `int` size that
      wrapped below zero. When neither the bit total nor the decoded length
      exceeds `int.MaxValue`, the result starts with the message and adds at
      most seven chars. */
  method EncodeThenDecode(message: seq<char>, pick: TreeBuilder.Pick) returns (r: Result<seq<char>>)
    requires |message| <= IntMax
    ensures !Encodable(message) ==> r.Failure? && r.error != Overflow
    ensures Encodable(message) && r.Failure? ==> r.error == Overflow
    ensures Encodable(message) && |message| + 7 <= IntMax ==>
      var d := FromMessage(message, pick).value;
      CodesWellFormed(d.codes) && Known(d.codes, message) &&
      (|CodeBits(d.codes, message)| <= IntMax ==>
        && r.Success?
        && |message| <= |r.value| <= |message| + 7
        && r.value[..|message|] == message)
  {
    EncodableBuilds(message, pick);
    var e := EncodeMessage(message, pick);
    if e.Failure? {
      return Failure(e.error);
    }
    var (d, bytes) := e.value;
    assert d == FromMessage(message, pick).value;
    var bits := CodeBits(d.codes, message);
    if |bits| <= IntMax {
      assert bytes == PackBits(bits);
      RoundTrip(d, message);
    }
    var s := DecodeAll(d.root, bytes);
    if s.Failure? {
      return Failure(s.error);
    }
    return Success(s.value);
  }

  lemma EncodableBuilds(message: seq<char>, pick: TreeBuilder.Pick)
    requires |message| <= IntMax
    ensures FromMessage(message, pick).Success? <==> Encodable(message)
  {
  }
}
