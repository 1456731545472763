/** The encoder: each char of the message is replaced by its code, and the
    codes are packed MSB-first into bytes through a 32-bit accumulator. */
module Encoder {
  import opened Wrappers
  import opened Bits
  import opened CharInfos
  import opened CodeTable
  import opened FrequencyTables
  import opened Dictionaries
  import opened TreeBuilder

  predicate CodesWellFormed(codes: map<char, CharInfo>)
  {
    forall c | c in codes :: WellFormed(codes[c])
  }

  /** Every char of `s` has a code. */
  predicate Known(codes: map<char, CharInfo>, s: seq<char>)
  {
    forall i :: 0 <= i < |s| ==> s[i] in codes
  }

  /** The position of the first char without a code, or `|s|` if there is none. */
  function FirstUnknown(codes: map<char, CharInfo>, s: seq<char>): (k: nat)
    ensures k <= |s|
    ensures forall i :: 0 <= i < k ==> s[i] in codes
    ensures k < |s| ==> s[k] !in codes
  {
    if |s| == 0 || s[0] !in codes then 0 else 1 + FirstUnknown(codes, s[1..])
  }

  /** The bit stream of a message: the codes of its chars, in order. */
  function CodeBits(codes: map<char, CharInfo>, s: seq<char>): seq<bool>
    requires CodesWellFormed(codes) && Known(codes, s)
  {
    if |s| == 0 then [] else CodeBits(codes, s[..|s| - 1]) + Code(codes[s[|s| - 1]])
  }

  lemma CodeBitsSnoc(codes: map<char, CharInfo>, s: seq<char>, i: nat)
    requires CodesWellFormed(codes) && i < |s| && Known(codes, s[..i + 1])
    ensures Known(codes, s[..i])
    ensures CodeBits(codes, s[..i + 1]) == CodeBits(codes, s[..i]) + Code(codes[s[i]])
  {
    assert s[..i + 1][..i] == s[..i];
  }

  /** The bit stream of a prefix is a prefix of the bit stream. */
  lemma {:induction false} CodeBitsPrefix(codes: map<char, CharInfo>, s: seq<char>, i: nat, j: nat)
    requires CodesWellFormed(codes) && i <= j <= |s| && Known(codes, s[..j])
    ensures Known(codes, s[..i])
    ensures CodeBits(codes, s[..i]) <= CodeBits(codes, s[..j])
    decreases j - i
  {
    if i < j {
      CodeBitsSnoc(codes, s, j - 1);
      CodeBitsPrefix(codes, s, i, j - 1);
      PrefixExtend(CodeBits(codes, s[..i]), CodeBits(codes, s[..j - 1]), Code(codes[s[j - 1]]));
    }
  }

  lemma PrefixExtend<T>(x: seq<T>, y: seq<T>, z: seq<T>)
    requires x <= y
    ensures x <= y + z
  {
    assert forall n :: 0 <= n < |x| ==> (y + z)[n] == y[n];
  }

  /** The stream is as long as the sum of the chars' code lengths. */
  lemma {:induction false} CodeBitsLength(codes: map<char, CharInfo>, s: seq<char>)
    requires CodesWellFormed(codes) && Known(codes, s)
    ensures |CodeBits(codes, s)| == SumBy(s, BitCountOf(codes))
    decreases |s|
  {
    if |s| > 0 {
      var init := s[..|s| - 1];
      CodeBitsLength(codes, init);
      assert s == init + [s[|s| - 1]];
      SumBySnoc(init, s[|s| - 1], BitCountOf(codes));
    }
  }

  /** Shifting left by a factor `P` inside a range of `P * R` keeps the low
      bits of `x` that still fit. */
  lemma MulMod(x: nat, P: nat, R: nat)
    requires P >= 1 && R >= 1
    ensures (x * P) % (P * R) == (x % R) * P
    ensures (x % R) * P + P <= P * R
  {
    SplitLow(x, 0, R, P);
    assert R * P == P * R;
    MulLe(x % R + 1, R, P);
  }

  /** The low bits of `b * P + m`, with `m < P`: the low bits of `b` followed by `m`. */
  lemma SplitLow(b: nat, m: nat, L: nat, P: nat)
    requires L >= 1 && P >= 1 && m < P
    ensures (b * P + m) % (L * P) == (b % L) * P + m
  {
    var c, e := b / L, b % L;
    assert b == c * L + e;
    MulDistrib(c, L, e, P);
    MulLe(e + 1, L, P);
    DivModUnique(b * P + m, L * P, c, e * P + m);
  }

  lemma MulDistrib(c: int, L: int, e: int, P: int)
    ensures (c * L + e) * P == c * (L * P) + e * P
  {
  }

  lemma MulLe(a: nat, b: nat, P: nat)
    requires a <= b
    ensures a * P <= b * P
  {
  }

  /** `buffer = (buffer << k) | chunk` on a `uint`: the shift drops the bits
      past bit 31, the chunk lands in the k low bits the shift cleared, and the
      low `len + k` bits are the old low `len` bits followed by the chunk. */
  lemma ShiftIn(buffer: nat, len: nat, k: nat, m: nat)
    requires buffer < UintRange && len + k <= 8 && m < Pow2(k)
    ensures Shift(buffer, k, m) < UintRange
    ensures Shift(buffer, k, m) % Pow2(len + k) == (buffer % Pow2(len)) * Pow2(k) + m
  {
    var P, L := Pow2(k), Pow2(len);
    Pow2Facts();
    Pow2Divides(k, 32);
    var R := Pow2(32 - k);
    MulMod(buffer, P, R);
    var b := buffer % R;
    assert (buffer * P) % UintRange == b * P;
    Pow2Divides(len, 32 - k);
    ModOfMod(buffer, L, Pow2(32 - k - len));
    assert b % L == buffer % L;
    Pow2Add(len, k);
    SplitLow(b, m, L, P);
  }

  /** `(uint)(bits >> (bitCount - k)) & ((1U << k) - 1)`: the next `k` bits
      of a code of which `bitCount` bits are still to be written. */
  function Chunk(bits: nat, bitCount: nat, k: nat): nat
    requires k <= bitCount
  {
    ((bits / Pow2(bitCount - k)) % UintRange) % Pow2(k)
  }

  /** `(buffer << k) | chunk` on a `uint`; the chunk fits in the `k` low bits
      the shift cleared, so the `|` is an addition. */
  function Shift(buffer: nat, k: nat, chunk: nat): nat
  {
    (buffer * Pow2(k)) % UintRange + chunk
  }

  /** The encoder's state after it has consumed the bit stream `acc`:
      `encoded` whole bytes are in `out`, packed as the stream prescribes,
      the rest of `out` is still the caller's, and the `length` bits not yet
      written are the low bits of the accumulator (its higher bits are left
      over from earlier bytes and are never cleared). */
  ghost predicate Packed(acc: seq<bool>, buffer: nat, length: nat, encoded: nat, out: seq<byte>, output: seq<byte>)
  {
    && |acc| == 8 * encoded + length
    && buffer < UintRange && buffer % Pow2(length) == BitsValue(acc[8 * encoded..])
    && |out| == |output| && encoded <= |output|
    && out[..encoded] == PackBits(acc[..8 * encoded])
    && out[encoded..] == output[encoded..]
  }

  /** One step of the inner loop: the next `k` bits of the code go into the accumulator. */
  lemma AddChunk(acc: seq<bool>, buffer: nat, length: nat, encoded: nat, out: seq<byte>, output: seq<byte>,
                 code: seq<bool>, from: nat, k: nat)
    requires Packed(acc, buffer, length, encoded, out, output)
    requires length + k <= 8 && from + k <= |code|
    ensures Packed(acc + code[from..from + k], Shift(buffer, k, Chunk(BitsValue(code), |code| - from, k)),
                   length + k, encoded, out, output)
  {
    var slice := code[from..from + k];
    var chunk := Chunk(BitsValue(code), |code| - from, k);
    var acc', buffer' := acc + slice, Shift(buffer, k, chunk);
    PendingBits(acc, buffer, length, encoded, code, from, k);
    assert out[..encoded] == PackBits(acc'[..8 * encoded]) by {
      assert acc'[..8 * encoded] == acc[..8 * encoded];
    }
  }

  lemma PendingBits(acc: seq<bool>, buffer: nat, length: nat, encoded: nat, code: seq<bool>, from: nat, k: nat)
    requires |acc| == 8 * encoded + length && buffer < UintRange && buffer % Pow2(length) == BitsValue(acc[8 * encoded..])
    requires length + k <= 8 && from + k <= |code|
    ensures var b := Shift(buffer, k, Chunk(BitsValue(code), |code| - from, k));
      b < UintRange && b % Pow2(length + k) == BitsValue((acc + code[from..from + k])[8 * encoded..])
  {
    var slice := code[from..from + k];
    var tail := acc[8 * encoded..];
    assert (acc + slice)[8 * encoded..] == tail + slice;
    ChunkSlice(code, from, k);
    AppendToBuffer(buffer, length, k, Chunk(BitsValue(code), |code| - from, k), tail, slice);
  }

  /** The accumulator's low bits after `k` more bits went in: the old pending
      bits followed by the new ones. */
  lemma AppendToBuffer(buffer: nat, length: nat, k: nat, chunk: nat, tail: seq<bool>, slice: seq<bool>)
    requires buffer < UintRange && |slice| == k && length + k <= 8
    requires buffer % Pow2(length) == BitsValue(tail) && chunk == BitsValue(slice)
    ensures Shift(buffer, k, chunk) < UintRange
    ensures Shift(buffer, k, chunk) % Pow2(length + k) == BitsValue(tail + slice)
  {
    ShiftIn(buffer, length, k, chunk);
    BitsValueAppend(tail, slice);
  }

  /** The chunk cut out of a code's integer is the matching slice of the code. */
  lemma ChunkSlice(code: seq<bool>, from: nat, k: nat)
    requires from + k <= |code| && k <= 8
    ensures Chunk(BitsValue(code), |code| - from, k) == BitsValue(code[from..from + k])
  {
    var j := from + k;
    var n: nat := |code| - from;
    assert n - k == |code| - j && k == j - from;
    ValueSlice(code, from, j);
  }

  /** `output[encoded++] = (byte)buffer` once eight bits are waiting. */
  lemma Flush(acc: seq<bool>, buffer: nat, encoded: nat, out: seq<byte>, output: seq<byte>)
    requires Packed(acc, buffer, 8, encoded, out, output) && encoded < |output|
    ensures Packed(acc, buffer, 0, encoded + 1, out[encoded := buffer % 256], output)
  {
    var head, tail := acc[..8 * encoded], acc[8 * encoded..];
    FullByte(tail, buffer);
    SplitPack(acc, head, tail);
    assert acc[..8 * (encoded + 1)] == acc;
    StoreByte(out, output, encoded, buffer % 256);
  }

  /** Eight pending bits are the low byte of the accumulator. */
  lemma FullByte(tail: seq<bool>, buffer: nat)
    requires |tail| == 8 && buffer % Pow2(8) == BitsValue(tail)
    ensures PackBits(tail) == [buffer % 256]
  {
    Pow2Facts();
    assert tail[..8] == tail;
    assert PackBits(tail) == [ByteOf(tail[..8])] + PackBits(tail[8..]);
  }

  lemma SplitPack(acc: seq<bool>, head: seq<bool>, tail: seq<bool>)
    requires acc == head + tail && |head| % 8 == 0
    ensures PackBits(acc) == PackBits(head) + PackBits(tail)
  {
    PackBitsAppend(head, tail);
  }

  /** Writing byte `b` at `encoded` extends the written prefix by `b` and
      leaves the rest of the buffer as it was. */
  lemma StoreByte(out: seq<byte>, output: seq<byte>, encoded: nat, b: byte)
    requires |out| == |output| && encoded < |output| && out[encoded..] == output[encoded..]
    ensures out[encoded := b][..encoded + 1] == out[..encoded] + [b]
    ensures out[encoded := b][encoded + 1..] == output[encoded + 1..]
  {
    assert out[encoded + 1..] == out[encoded..][1..];
  }

  /** `output[encoded++] = (byte)(buffer << (8 - length))` after the last char:
      the final byte holds the last `length` bits, left-aligned and zero-filled. */
  lemma FinalByte(acc: seq<bool>, buffer: nat, length: nat, encoded: nat, out: seq<byte>, output: seq<byte>)
    requires Packed(acc, buffer, length, encoded, out, output) && 0 < length < 8 && encoded < |output|
    ensures var out' := out[encoded := ((buffer * Pow2(8 - length)) % UintRange) % 256];
      out'[..encoded + 1] == PackBits(acc) && out'[encoded + 1..] == output[encoded + 1..]
  {
    var head, tail := acc[..8 * encoded], acc[8 * encoded..];
    LastByte(tail, buffer, length);
    SplitPack(acc, head, tail);
    StoreByte(out, output, encoded, ((buffer * Pow2(8 - length)) % UintRange) % 256);
  }

  /** The pending bits shifted to the top of the byte are the packed last byte. */
  lemma LastByte(tail: seq<bool>, buffer: nat, length: nat)
    requires |tail| == length && 0 < length < 8
    requires buffer < UintRange && buffer % Pow2(length) == BitsValue(tail)
    ensures PackBits(tail) == [((buffer * Pow2(8 - length)) % UintRange) % 256]
  {
    var k: nat := 8 - length;
    var padded := tail + Zeros(k);
    ShiftIn(buffer, length, k, 0);
    Pow2Facts();
    assert Shift(buffer, k, 0) == (buffer * Pow2(k)) % UintRange;
    assert ((buffer * Pow2(k)) % UintRange) % 256 == BitsValue(tail) * Pow2(k);
    BitsValueAppend(tail, Zeros(k));
    ZerosValue(k);
    assert BitsValue(padded) == BitsValue(tail) * Pow2(k);
    assert PackBits(tail) == [ByteOf(padded)];
  }

  /** The inner loop of the encoder: the `bitCount`-bit code `bits` goes
      through the accumulator a chunk at a time, and every full byte is
      written out. `full` says the output buffer filled up; the rest of the
      code is then dropped. */
  method PushCode(buffer: nat, length: nat, encoded: nat, out: seq<byte>, output: seq<byte>,
                  bits: nat, bitCount: nat, ghost acc: seq<bool>, ghost code: seq<bool>)
    returns (buffer': nat, length': nat, encoded': nat, out': seq<byte>, full: bool)
    requires Packed(acc, buffer, length, encoded, out, output) && encoded < |output| && length < 8
    requires 1 <= bitCount == |code| && BitsValue(code) == bits
    ensures full <==> 8 * |output| <= |acc| + |code|
    ensures !full ==> encoded' < |output| && length' < 8 && Packed(acc + code, buffer', length', encoded', out', output)
    ensures full ==> encoded' == |output| && Packed(acc + code[..8 * |output| - |acc|], buffer', 0, encoded', out', output)
  {
    buffer', length', encoded', out' := buffer, length, encoded, out;
    var remaining := bitCount;
    assert acc + code[..0] == acc;
    while true
      invariant 0 < remaining <= |code|
      invariant encoded' < |output| && length' < 8
      invariant Packed(acc + code[..|code| - remaining], buffer', length', encoded', out', output)
      decreases remaining
    {
      buffer', length', encoded', out', remaining := PushChunk(buffer', length', encoded', out', output, bits, remaining, acc, code);
      if encoded' == |output| {
        FullAt(acc, code, acc + code[..|code| - remaining], remaining, |output|);
        return buffer', length', encoded', out', true;
      }
      if remaining == 0 {
        break;
      }
    }
    ExtendPrefix(acc, code, |code|, 0);
    full := false;
  }

  /** One pass of the inner loop: `Min(8 - length, remaining)` more bits of
      the code go into the accumulator, and a full byte is written out. */
  method PushChunk(buffer: nat, length: nat, encoded: nat, out: seq<byte>, output: seq<byte>,
                   bits: nat, remaining: nat, ghost acc: seq<bool>, ghost code: seq<bool>)
    returns (buffer': nat, length': nat, encoded': nat, out': seq<byte>, remaining': nat)
    requires 0 < remaining <= |code| && BitsValue(code) == bits
    requires Packed(acc + code[..|code| - remaining], buffer, length, encoded, out, output)
    requires encoded < |output| && length < 8
    ensures remaining' < remaining && length' < 8 && encoded' <= |output|
    ensures encoded' == |output| ==> length' == 0
    ensures Packed(acc + code[..|code| - remaining'], buffer', length', encoded', out', output)
  {
    var bitsToAdd := Min(8 - length, remaining);
    buffer' := Shift(buffer, bitsToAdd, Chunk(bits, remaining, bitsToAdd));
    remaining' := remaining - bitsToAdd;
    ghost var next := acc + code[..|code| - remaining'];
    ChunkStep(acc, code, |code| - remaining, bitsToAdd, |code| - remaining', buffer, length, encoded, out, output);
    if length + bitsToAdd == 8 {
      Flush(next, buffer', encoded, out, output);
      out' := out[encoded := buffer' % 256];
      encoded' := encoded + 1;
      length' := 0;
    } else {
      length', encoded', out' := length + bitsToAdd, encoded, out;
    }
  }

  /** `AddChunk` stated for the accumulator of a partly pushed code. */
  lemma ChunkStep(acc: seq<bool>, code: seq<bool>, from: nat, k: nat, to: nat,
                  buffer: nat, length: nat, encoded: nat, out: seq<byte>, output: seq<byte>)
    requires length + k <= 8 && to == from + k && to <= |code|
    requires Packed(acc + code[..from], buffer, length, encoded, out, output)
    ensures Packed(acc + code[..to], Shift(buffer, k, Chunk(BitsValue(code), |code| - from, k)),
                   length + k, encoded, out, output)
  {
    AddChunk(acc + code[..from], buffer, length, encoded, out, output, code, from, k);
    ExtendPrefix(acc, code, from, k);
  }

  /** The output filled up after `8 * n` bits: the code was cut there. */
  lemma FullAt<T>(acc: seq<T>, code: seq<T>, cur: seq<T>, remaining: nat, n: nat)
    requires remaining <= |code| && cur == acc + code[..|code| - remaining] && |cur| == 8 * n
    ensures 8 * n <= |acc| + |code| && 8 * n - |acc| <= |code| && cur == acc + code[..8 * n - |acc|]
  {
  }

  lemma ExtendPrefix<T>(acc: seq<T>, code: seq<T>, from: nat, k: nat)
    requires from + k <= |code|
    ensures (acc + code[..from]) + code[from..from + k] == acc + code[..from + k]
    ensures from + k == |code| ==> acc + code[..from + k] == acc + code
  {
    assert code[..from] + code[from..from + k] == code[..from + k];
    assert code[..|code|] == code;
  }

  /** Encodes `input` into the caller's buffer `output` and returns how many
      bytes were written together with the buffer's new contents.
      Writing stops when the buffer is full, even in the middle of a code;
      a char without a code met before that is an error, and what was
      written until then is lost with the exception. */
  method Encode(codes: map<char, CharInfo>, output: seq<byte>, input: seq<char>) returns (r: Result<(nat, seq<byte>)>)
    requires CodesWellFormed(codes)
    ensures |output| == 0 || |input| == 0 ==> r == Success((0, output))
    ensures var k := FirstUnknown(codes, input);
      r.Failure? <==> |output| > 0 && k < |input| && |CodeBits(codes, input[..k])| < 8 * |output|
    ensures r.Failure? ==> r.error == UnexpectedChar
    ensures r.Success? ==> WritesPrefix(codes, output, input, r.value.0, r.value.1)
  {
    if |output| == 0 || |input| == 0 {
      return Success((0, output));
    }
    var buffer: nat, bufferLength: nat, encoded: nat, out: seq<byte> := 0, 0, 0, output;
    ghost var acc: seq<bool> := [];
    var i := 0;
    while i < |input|
      invariant i <= |input| && Known(codes, input[..i])
      invariant acc == CodeBits(codes, input[..i])
      invariant encoded < |output| && bufferLength < 8
      invariant Packed(acc, buffer, bufferLength, encoded, out, output)
    {
      if input[i] !in codes {
        FirstUnknownAt(codes, input, i);
        return Failure(UnexpectedChar);
      }
      var full;
      ghost var acc';
      buffer, bufferLength, encoded, out, full, acc' := EncodeChar(codes, output, input, i, buffer, bufferLength, encoded, out, acc);
      if full {
        return Success((encoded, out));
      }
      acc := acc';
      i := i + 1;
    }
    assert input[..i] == input;
    var n, written := Finish(buffer, bufferLength, encoded, out, output, acc);
    FinalResult(codes, output, input, n, written);
    return Success((n, written));
  }

  /** One pass of the outer loop: the code of `input[i]` goes through the
      accumulator; `full` says the output buffer filled up inside it. */
  method EncodeChar(codes: map<char, CharInfo>, output: seq<byte>, input: seq<char>, i: nat,
                    buffer: nat, bufferLength: nat, encoded: nat, out: seq<byte>, ghost acc: seq<bool>)
    returns (buffer': nat, bufferLength': nat, encoded': nat, out': seq<byte>, full: bool, ghost acc': seq<bool>)
    requires CodesWellFormed(codes) && i < |input| && Known(codes, input[..i]) && input[i] in codes
    requires acc == CodeBits(codes, input[..i])
    requires encoded < |output| && bufferLength < 8
    requires Packed(acc, buffer, bufferLength, encoded, out, output)
    ensures Known(codes, input[..i + 1]) && acc' == CodeBits(codes, input[..i + 1])
    ensures full ==> 8 * |output| <= |CodeBits(codes, input[..FirstUnknown(codes, input)])|
    ensures full ==> encoded' == |output| && WritesPrefix(codes, output, input, encoded', out')
    ensures !full ==> encoded' < |output| && bufferLength' < 8 && Packed(acc', buffer', bufferLength', encoded', out', output)
  {
    var info := codes[input[i]];
    ghost var code := Code(info);
    buffer', bufferLength', encoded', out', full :=
      PushCode(buffer, bufferLength, encoded, out, output, info.bits, info.bitCount, acc, code);
    if full {
      FullResult(codes, output, input, i, acc, code, out', buffer');
    }
    NextChar(codes, input, i);
    acc' := acc + code;
  }

  /** After the last char: `output[encoded++] = (byte)(buffer << (8 - length))`
      when bits are pending, so the whole stream is written. */
  method Finish(buffer: nat, length: nat, encoded: nat, out: seq<byte>, output: seq<byte>, ghost acc: seq<bool>)
    returns (n: nat, out': seq<byte>)
    requires Packed(acc, buffer, length, encoded, out, output) && encoded < |output| && length < 8
    ensures 8 * n >= |acc| > 8 * n - 8 && n <= |output|
    ensures |out'| == |output| && out'[..n] == PackBits(acc) && out'[n..] == output[n..]
  {
    if length != 0 {
      FinalByte(acc, buffer, length, encoded, out, output);
      out' := out[encoded := ((buffer * Pow2(8 - length)) % UintRange) % 256];
      n := encoded + 1;
    } else {
      assert acc[..8 * encoded] == acc;
      n, out' := encoded, out;
    }
  }

  /** What a successful `Encode` leaves behind: `n` bytes, as many as fit of
      the packed stream of the input up to its first char without a code,
      and the rest of the caller's buffer untouched. */
  ghost predicate WritesPrefix(codes: map<char, CharInfo>, output: seq<byte>, input: seq<char>, n: nat, out: seq<byte>)
    requires CodesWellFormed(codes)
  {
    var bits := CodeBits(codes, input[..FirstUnknown(codes, input)]);
    && n == Min(|output|, CeilDiv8(|bits|))
    && |out| == |output|
    && |PackBits(bits)| >= n
    && out[..n] == PackBits(bits)[..n]
    && out[n..] == output[n..]
  }

  /** The buffer filled up inside the code of `input[i]`. */
  lemma FullResult(codes: map<char, CharInfo>, output: seq<byte>, input: seq<char>, i: nat,
                   acc: seq<bool>, code: seq<bool>, out: seq<byte>, buffer: nat)
    requires CodesWellFormed(codes) && i < |input| && Known(codes, input[..i]) && input[i] in codes
    requires acc == CodeBits(codes, input[..i]) && code == Code(codes[input[i]])
    requires |acc| <= 8 * |output| <= |acc| + |code|
    requires Packed(acc + code[..8 * |output| - |acc|], buffer, 0, |output|, out, output)
    ensures 8 * |output| <= |CodeBits(codes, input[..FirstUnknown(codes, input)])|
    ensures WritesPrefix(codes, output, input, |output|, out)
  {
    var taken := 8 * |output| - |acc|;
    EarlyReturn(codes, input, i, code, |code| - taken, acc + code[..taken]);
    EarlyResult(codes, output, input, out, acc, code[..8 * |output| - |acc|], buffer);
  }

  /** The buffer filled up: all of it holds the leading bytes of the stream. */
  lemma EarlyResult(codes: map<char, CharInfo>, output: seq<byte>, input: seq<char>, out: seq<byte>,
                    before: seq<bool>, taken: seq<bool>, buffer: nat)
    requires CodesWellFormed(codes)
    requires Known(codes, input[..FirstUnknown(codes, input)])
    requires before + taken <= CodeBits(codes, input[..FirstUnknown(codes, input)])
    requires Packed(before + taken, buffer, 0, |output|, out, output)
    ensures 8 * |output| <= |CodeBits(codes, input[..FirstUnknown(codes, input)])|
    ensures WritesPrefix(codes, output, input, |output|, out)
  {
    var acc := before + taken;
    assert acc[..8 * |output|] == acc;
    var bits := CodeBits(codes, input[..FirstUnknown(codes, input)]);
    PackBitsPrefix(acc, bits, |output|);
    PackBitsLength(acc);
    PackBitsLength(bits);
  }

  /** The whole input was encoded: the buffer starts with the whole stream. */
  lemma FinalResult(codes: map<char, CharInfo>, output: seq<byte>, input: seq<char>, n: nat, out: seq<byte>)
    requires CodesWellFormed(codes) && Known(codes, input)
    requires 8 * n >= |CodeBits(codes, input)| > 8 * n - 8 && n <= |output|
    requires |out| == |output| && out[..n] == PackBits(CodeBits(codes, input)) && out[n..] == output[n..]
    ensures FirstUnknown(codes, input) == |input|
    ensures WritesPrefix(codes, output, input, n, out)
  {
    FirstUnknownAll(codes, input);
    assert input[..|input|] == input;
    PackBitsLength(CodeBits(codes, input));
  }

  /** The size of the encoded message in bytes, without encoding it: the
      code lengths summed in an `int`, which wraps past `int.MaxValue`, and
      rounded up to whole bytes. A char without a code throws. */
  method GetByteCount(codes: map<char, CharInfo>, input: seq<char>) returns (r: Result<int>)
    requires CodesWellFormed(codes)
    ensures r.Failure? <==> !Known(codes, input)
    ensures r.Failure? ==> r.error == UnexpectedChar
    ensures r.Success? ==> r.value == BytesFor(Int32(|CodeBits(codes, input)|))
    ensures r.Success? && |CodeBits(codes, input)| <= IntMax ==> r.value == |PackBits(CodeBits(codes, input))|
  {
    if |input| == 0 {
      return Success(0);
    }
    var count := 0;
    var i := 0;
    while i < |input|
      invariant i <= |input| && Known(codes, input[..i])
      invariant count == Int32(|CodeBits(codes, input[..i])|)
    {
      if input[i] !in codes {
        return Failure(UnexpectedChar);
      }
      CountStep(codes, input, i);
      count := Int32(count + codes[input[i]].bitCount);
      i := i + 1;
    }
    assert input[..i] == input;
    PackBitsLength(CodeBits(codes, input));
    return Success(BytesFor(count));
  }

  /** One step of `count += info.BitCount`: the wrapped count follows the
      stream's length. */
  lemma CountStep(codes: map<char, CharInfo>, input: seq<char>, i: nat)
    requires CodesWellFormed(codes) && i < |input| && Known(codes, input[..i]) && input[i] in codes
    ensures Known(codes, input[..i + 1])
    ensures Int32(Int32(|CodeBits(codes, input[..i])|) + codes[input[i]].bitCount) == Int32(|CodeBits(codes, input[..i + 1])|)
  {
    NextChar(codes, input, i);
    Int32Step(|CodeBits(codes, input[..i])|, codes[input[i]].bitCount);
  }

  /** Encodes into a fresh buffer of `GetByteCount` bytes. A size that
      wrapped below zero makes the allocation throw; one that wrapped to a
      smaller non-negative value holds only the front of the packed stream.
      When the bit total fits in an `int` the result is the whole stream. */
  method EncodeAll(codes: map<char, CharInfo>, input: seq<char>) returns (r: Result<seq<byte>>)
    requires CodesWellFormed(codes)
    ensures r.Failure? <==> !Known(codes, input) || BytesFor(Int32(|CodeBits(codes, input)|)) < 0
    ensures !Known(codes, input) ==> r == Failure(UnexpectedChar)
    ensures r.Failure? && Known(codes, input) ==> r.error == Overflow
    ensures r.Success? ==> var bytes := PackBits(CodeBits(codes, input));
      && |r.value| == BytesFor(Int32(|CodeBits(codes, input)|))
      && |r.value| <= |bytes| && r.value == bytes[..|r.value|]
    ensures r.Success? && |CodeBits(codes, input)| <= IntMax ==> r.value == PackBits(CodeBits(codes, input))
  {
    var size := GetByteCount(codes, input);
    if size.Failure? {
      return Failure(size.error);
    }
    if size.value < 0 {
      return Failure(Overflow);
    }
    var bits := CodeBits(codes, input);
    PackBitsLength(bits);
    Int32Below(|bits|);
    assert size.value <= |PackBits(bits)|;
    var output: seq<byte> := seq(size.value, _ => 0);
    var e := Encode(codes, output, input);
    FirstUnknownAll(codes, input);
    assert input[..|input|] == input;
    assert e.Success?;
    var (n, out) := e.value;
    assert n == size.value;
    assert out == out[..n];
    return Success(out);
  }

  /** The static `Encode(message, out dictionary)`: builds the dictionary
      from the message's own frequencies, then encodes the message with it.
      The message is a span, so its length is an `int`. */
  method EncodeMessage(message: seq<char>, pick: Pick) returns (r: Result<(Dictionary, seq<byte>)>)
    requires |message| <= IntMax
    ensures FromMessage(message, pick).Failure? ==> r == Failure(FromMessage(message, pick).error)
    ensures FromMessage(message, pick).Success? ==>
      var d := FromMessage(message, pick).value;
      CodesWellFormed(d.codes) && Known(d.codes, message)
    ensures FromMessage(message, pick).Success? && r.Failure? ==> r.error == Overflow
    ensures r.Success? ==>
      && r.value.0 == FromMessage(message, pick).value
      && CodesWellFormed(r.value.0.codes) && Known(r.value.0.codes, message)
      && var bits := CodeBits(r.value.0.codes, message);
      && |r.value.1| == BytesFor(Int32(|bits|)) <= |PackBits(bits)|
      && r.value.1 == PackBits(bits)[..|r.value.1|]
    ensures FromMessage(message, pick).Success? ==>
      var d := FromMessage(message, pick).value;
      CodesWellFormed(d.codes) && Known(d.codes, message) &&
      (|CodeBits(d.codes, message)| <= IntMax ==> r == Success((d, PackBits(CodeBits(d.codes, message)))))
  {
    var built := FromMessage(message, pick);
    if built.Failure? {
      return Failure(built.error);
    }
    var d := built.value;
    MessageCodes(d, message);
    var bytes := EncodeAll(d.codes, message);
    if bytes.Failure? {
      return Failure(bytes.error);
    }
    return Success((d, bytes.value));
  }

  /** A dictionary that holds every char of the message can encode it. */
  lemma MessageCodes(d: Dictionary, message: seq<char>)
    requires Valid(d) && forall c | c in message :: c in d.codes
    ensures CodesWellFormed(d.codes) && Known(d.codes, message)
  {
    assert forall i :: 0 <= i < |message| ==> message[i] in message;
  }

  lemma NextChar(codes: map<char, CharInfo>, s: seq<char>, i: nat)
    requires CodesWellFormed(codes) && i < |s| && Known(codes, s[..i]) && s[i] in codes
    ensures Known(codes, s[..i + 1])
    ensures CodeBits(codes, s[..i + 1]) == CodeBits(codes, s[..i]) + Code(codes[s[i]])
  {
    assert forall j :: 0 <= j < i ==> s[..i + 1][j] == s[..i][j];
    CodeBitsSnoc(codes, s, i);
  }

  lemma FirstUnknownAt(codes: map<char, CharInfo>, s: seq<char>, i: nat)
    requires i < |s| && Known(codes, s[..i]) && s[i] !in codes
    ensures FirstUnknown(codes, s) == i
  {
    assert forall j :: 0 <= j < i ==> s[..i][j] == s[j];
  }

  lemma FirstUnknownAll(codes: map<char, CharInfo>, s: seq<char>)
    requires Known(codes, s)
    ensures FirstUnknown(codes, s) == |s|
  {
  }

  /** When the buffer fills up inside the code of `s[i]`, the bytes written
      are the leading bytes of the stream up to the first unknown char. */
  lemma EarlyReturn(codes: map<char, CharInfo>, s: seq<char>, i: nat, code: seq<bool>, rest: nat, acc: seq<bool>)
    requires CodesWellFormed(codes) && i < |s| && Known(codes, s[..i]) && s[i] in codes
    requires code == Code(codes[s[i]]) && rest <= |code|
    requires acc == CodeBits(codes, s[..i]) + code[..|code| - rest]
    ensures var k := FirstUnknown(codes, s);
      Known(codes, s[..k]) && acc <= CodeBits(codes, s[..k])
  {
    var k := FirstUnknown(codes, s);
    NextChar(codes, s, i);
    KnownBeforeFirstUnknown(codes, s, i + 1);
    KnownUpToFirstUnknown(codes, s);
    CodeBitsPrefix(codes, s, i + 1, k);
    PrefixOfPrefix(CodeBits(codes, s[..i]), code, |code| - rest, CodeBits(codes, s[..k]));
  }

  /** A known prefix ends at or before the first unknown char. */
  lemma {:induction false} KnownBeforeFirstUnknown(codes: map<char, CharInfo>, s: seq<char>, n: nat)
    requires n <= |s| && Known(codes, s[..n])
    ensures n <= FirstUnknown(codes, s)
    decreases n
  {
    if n > 0 {
      assert s[..n][0] == s[0];
      var t := s[1..][..n - 1];
      assert Known(codes, t) by {
        assert forall j :: 0 <= j < n - 1 ==> t[j] == s[..n][j + 1];
      }
      KnownBeforeFirstUnknown(codes, s[1..], n - 1);
    }
  }

  lemma KnownUpToFirstUnknown(codes: map<char, CharInfo>, s: seq<char>)
    ensures Known(codes, s[..FirstUnknown(codes, s)])
  {
    var k := FirstUnknown(codes, s);
    assert forall j :: 0 <= j < k ==> s[..k][j] == s[j];
  }

  lemma PrefixOfPrefix<T>(x: seq<T>, code: seq<T>, m: nat, y: seq<T>)
    requires m <= |code| && x + code <= y
    ensures x + code[..m] <= y
  {
    assert forall n :: 0 <= n < |x| + m ==> (x + code[..m])[n] == (x + code)[n];
  }
}
