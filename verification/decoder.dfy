/** The decoder: the bits of the input, MSB first, steer a walk down the
    tree; every leaf reached emits its char and sends the walk back to the root. */
module Decoder {
  import opened Wrappers
  import opened Bits
  import opened Nodes

  /** The chars the walk emits when it starts at `node` and follows `bits`:
      at most one per bit, since only a step onto a leaf emits. */
  function Walk(root: Tree, node: Tree, bits: seq<bool>): (r: seq<char>)
    requires root.Node? && node.Node?
    ensures |r| <= |bits|
    decreases |bits|
  {
    if |bits| == 0 then []
    else
      var next := if bits[0] then node.right else node.left;
      if next.Leaf? then [next.ch] + Walk(root, root, bits[1..])
      else Walk(root, next, bits[1..])
  }

  /** Where the walk stands after `bits`: the node it is at, the root right after a leaf. */
  function WalkEnd(root: Tree, node: Tree, bits: seq<bool>): (n: Tree)
    requires root.Node? && node.Node?
    ensures n.Node?
    decreases |bits|
  {
    if |bits| == 0 then node
    else
      var next := if bits[0] then node.right else node.left;
      if next.Leaf? then WalkEnd(root, root, bits[1..])
      else WalkEnd(root, next, bits[1..])
  }

  /** Walking `a + b` is walking `a`, then walking `b` from where `a` ended. */
  lemma {:induction false} WalkAppend(root: Tree, node: Tree, a: seq<bool>, b: seq<bool>)
    requires root.Node? && node.Node?
    ensures Walk(root, node, a + b) == Walk(root, node, a) + Walk(root, WalkEnd(root, node, a), b)
    ensures WalkEnd(root, node, a + b) == WalkEnd(root, WalkEnd(root, node, a), b)
    decreases |a|
  {
    if |a| == 0 {
      assert a + b == b;
    } else {
      assert (a + b)[0] == a[0] && (a + b)[1..] == a[1..] + b;
      var next := if a[0] then node.right else node.left;
      if next.Leaf? {
        WalkAppend(root, root, a[1..], b);
      } else {
        WalkAppend(root, next, a[1..], b);
      }
    }
  }

  /** One more bit: the walk emits the leaf's char if the step lands on one. */
  lemma WalkStep(root: Tree, consumed: seq<bool>, bit: bool)
    requires root.Node?
    ensures var node := WalkEnd(root, root, consumed);
      var next := if bit then node.right else node.left;
      && Walk(root, root, consumed + [bit]) == Walk(root, root, consumed) + (if next.Leaf? then [next.ch] else [])
      && WalkEnd(root, root, consumed + [bit]) == (if next.Leaf? then root else next)
  {
    WalkAppend(root, root, consumed, [bit]);
    var node := WalkEnd(root, root, consumed);
    assert [bit][1..] == [];
  }

  /** `((buffer >> (bufferLength - 1)) & 1) != 0` is the next bit of the stream. */
  lemma NextBit(input: seq<byte>, readed: nat, bufferLength: nat)
    requires 1 <= readed <= |input| && 1 <= bufferLength <= 8
    ensures ((input[readed - 1] / Pow2(bufferLength - 1)) % 2 != 0)
      == BytesToBits(input)[8 * readed - bufferLength]
  {
    BytesToBitsAt(input, readed - 1, 8 - bufferLength);
    ToBitsAt(input[readed - 1], 8, 8 - bufferLength);
    assert 8 * (readed - 1) + (8 - bufferLength) == 8 * readed - bufferLength;
  }

  lemma PrefixSnoc(all: seq<bool>, consumed: seq<bool>)
    requires |consumed| < |all| && consumed == all[..|consumed|]
    ensures consumed + [all[|consumed|]] == all[..|consumed| + 1]
  {
  }

  /** The head of both decoding loops: refill the byte buffer when it is
      empty, stopping at the end of the input, then take its next bit. */
  method ReadBit(input: seq<byte>, buffer: byte, bufferLength: nat, readed: nat, ghost all: seq<bool>, ghost consumed: seq<bool>)
    returns (more: bool, bit: bool, buffer': byte, bufferLength': nat, readed': nat)
    requires all == BytesToBits(input)
    requires 1 <= readed <= |input| && bufferLength <= 8 && buffer == input[readed - 1]
    requires |consumed| == 8 * readed - bufferLength && consumed == all[..|consumed|]
    ensures !more ==> consumed == all
    ensures more ==> 1 <= readed' <= |input| && bufferLength' < 8 && buffer' == input[readed' - 1]
    ensures more ==> |consumed| + 1 == 8 * readed' - bufferLength' && consumed + [bit] == all[..|consumed| + 1]
    ensures more ==> 8 * (|input| - readed') + bufferLength' < 8 * (|input| - readed) + bufferLength
  {
    buffer', bufferLength', readed' := buffer, bufferLength, readed;
    if bufferLength' == 0 {
      if readed' == |input| {
        assert consumed == all[..|all|] == all;
        return false, false, buffer', bufferLength', readed';
      }
      buffer' := input[readed'];
      readed' := readed' + 1;
      bufferLength' := 8;
    }
    NextBit(input, readed', bufferLength');
    more := true;
    bit := (buffer' / Pow2(bufferLength' - 1)) % 2 != 0;
    bufferLength' := bufferLength' - 1;
    PrefixSnoc(all, consumed);
  }

  /** The chars the whole input decodes to, with the walk done once over
      every bit, the final byte's padding included. */
  function Decoded(root: Tree, input: seq<byte>): seq<char>
    requires root.Node?
  {
    Walk(root, root, BytesToBits(input))
  }

  /** Decodes `input` into the caller's buffer `output` and returns how many
      chars were written together with the buffer's new contents. Decoding
      stops when the buffer is full or the input runs out. */
  method Decode(root: Tree, output: seq<char>, input: seq<byte>) returns (n: nat, out: seq<char>)
    requires root.Node?
    ensures n == Min(|output|, |Decoded(root, input)|)
    ensures |out| == |output| && out[..n] == Decoded(root, input)[..n] && out[n..] == output[n..]
  {
    if |output| == 0 || |input| == 0 {
      return 0, output;
    }
    ghost var all := BytesToBits(input);
    var buffer: byte := input[0];
    var bufferLength: nat := 8;
    var readed: nat := 1;
    var decoded: nat := 0;
    var node := root;
    out := output;
    ghost var consumed: seq<bool> := [];
    while decoded < |output|
      invariant 1 <= readed <= |input| && bufferLength <= 8 && buffer == input[readed - 1]
      invariant |consumed| == 8 * readed - bufferLength && consumed == all[..|consumed|]
      invariant node == WalkEnd(root, root, consumed)
      invariant decoded == |Walk(root, root, consumed)| && decoded <= |output|
      invariant |out| == |output| && out[..decoded] == Walk(root, root, consumed)
      invariant out[decoded..] == output[decoded..]
      decreases 8 * (|input| - readed) + bufferLength
    {
      var more, bit;
      more, bit, buffer, bufferLength, readed := ReadBit(input, buffer, bufferLength, readed, all, consumed);
      if !more {
        break;
      }
      var next := if bit then node.right else node.left;
      WalkStep(root, consumed, bit);
      consumed := consumed + [bit];
      if next.Leaf? {
        out := out[decoded := next.ch];
        decoded := decoded + 1;
        node := root;
      } else {
        node := next;
      }
    }
    DecodedPrefix(root, all, consumed, decoded);
    return decoded, out;
  }

  /** The chars decoded from a prefix of the stream start the full decoding;
      when the whole stream is consumed they are all of it. */
  lemma DecodedPrefix(root: Tree, all: seq<bool>, consumed: seq<bool>, decoded: nat)
    requires root.Node? && |consumed| <= |all| && consumed == all[..|consumed|]
    requires decoded == |Walk(root, root, consumed)|
    ensures |Walk(root, root, all)| >= decoded
    ensures Walk(root, root, all)[..decoded] == Walk(root, root, consumed)
    ensures |consumed| == |all| ==> |Walk(root, root, all)| == decoded
  {
    var rest := all[|consumed|..];
    assert all == consumed + rest;
    WalkAppend(root, root, consumed, rest);
    var head, tail := Walk(root, root, consumed), Walk(root, WalkEnd(root, root, consumed), rest);
    assert (head + tail)[..|head|] == head;
    if |consumed| == |all| {
      assert rest == [];
    }
  }

  /** How many chars the input decodes to, padding included, counted in an
      `int` that wraps past `int.MaxValue`. */
  method GetCharCount(root: Tree, input: seq<byte>) returns (n: int)
    requires root.Node?
    ensures n == Int32(|Decoded(root, input)|)
    ensures |Decoded(root, input)| <= IntMax ==> n == |Decoded(root, input)|
  {
    if |input| == 0 {
      return 0;
    }
    ghost var all := BytesToBits(input);
    var buffer: byte := input[0];
    var bufferLength: nat := 8;
    var readed: nat := 1;
    var decoded := 0;
    var node := root;
    ghost var consumed: seq<bool> := [];
    while true
      invariant 1 <= readed <= |input| && bufferLength <= 8 && buffer == input[readed - 1]
      invariant |consumed| == 8 * readed - bufferLength && consumed == all[..|consumed|]
      invariant node == WalkEnd(root, root, consumed)
      invariant decoded == Int32(|Walk(root, root, consumed)|)
      decreases 8 * (|input| - readed) + bufferLength
    {
      var more, bit;
      more, bit, buffer, bufferLength, readed := ReadBit(input, buffer, bufferLength, readed, all, consumed);
      if !more {
        break;
      }
      var next := if bit then node.right else node.left;
      CountBit(root, consumed, bit, decoded);
      consumed := consumed + [bit];
      if next.Leaf? {
        decoded := Int32(decoded + 1);
        node := root;
      } else {
        node := next;
      }
    }
    DecodedPrefix(root, all, consumed, |Walk(root, root, consumed)|);
    return decoded;
  }

  /** One bit of `GetCharCount`'s loop: `decoded++` on reaching a leaf keeps
      the wrapped count of the chars emitted so far. */
  lemma CountBit(root: Tree, consumed: seq<bool>, bit: bool, decoded: int)
    requires root.Node? && decoded == Int32(|Walk(root, root, consumed)|)
    ensures var node := WalkEnd(root, root, consumed);
      var next := if bit then node.right else node.left;
      && WalkEnd(root, root, consumed + [bit]) == (if next.Leaf? then root else next)
      && (if next.Leaf? then Int32(decoded + 1) else decoded) == Int32(|Walk(root, root, consumed + [bit])|)
  {
    WalkStep(root, consumed, bit);
    Int32Step(|Walk(root, root, consumed)|, 1);
  }

  /** Decodes into a fresh buffer of `GetCharCount` chars. A count that
      wrapped below zero makes the allocation throw; one that wrapped to a
      smaller non-negative value holds only the front of the decoded chars.
      When the count fits in an `int` the result is everything the walk
      emits over the whole input. */
  method DecodeAll(root: Tree, input: seq<byte>) returns (r: Result<seq<char>>)
    requires root.Node?
    ensures r.Failure? <==> Int32(|Decoded(root, input)|) < 0
    ensures r.Failure? ==> r.error == Overflow
    ensures r.Success? ==>
      && |r.value| == Int32(|Decoded(root, input)|) <= |Decoded(root, input)|
      && r.value == Decoded(root, input)[..|r.value|]
    ensures |Decoded(root, input)| <= IntMax ==> r == Success(Decoded(root, input))
  {
    var count := GetCharCount(root, input);
    if count < 0 {
      return Failure(Overflow);
    }
    Int32Below(|Decoded(root, input)|);
    var output := seq(count, _ => '\0');
    var n, out := Decode(root, output, input);
    assert out == out[..n];
    if |Decoded(root, input)| <= IntMax {
      assert Decoded(root, input)[..n] == Decoded(root, input);
    }
    return Success(out);
  }
}
