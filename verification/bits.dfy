/** Bit-level vocabulary shared by the code table, the encoder and the decoder.

    A code is a `seq<bool>` read root-to-leaf; the library stores it as an
    integer whose bit `BitCount - 1` is the root branch and bit 0 the last
    branch. `BitsValue` and `ToBits` convert between the two views, and
    `PackBits` / `BytesToBits` are the MSB-first byte layout of the encoded
    stream, zero-padded in the final byte. */
module Bits {

  type byte = x: int | 0 <= x < 256

  /** 2^32: the range of the encoder's `uint` accumulator. */
  const UintRange: nat := 0x1_0000_0000

  function Pow2(n: nat): (r: nat)
    ensures r >= 1
  {
    if n == 0 then 1 else 2 * Pow2(n - 1)
  }

  lemma {:induction false} Pow2Add(a: nat, b: nat)
    ensures Pow2(a + b) == Pow2(a) * Pow2(b)
    decreases a
  {
    if a > 0 {
      Pow2Add(a - 1, b);
    }
  }

  lemma Pow2Facts()
    ensures Pow2(1) == 2 && Pow2(8) == 256 && Pow2(32) == UintRange
  {
    Pow2Add(8, 8);
    Pow2Add(16, 16);
  }

  /** Pow2 is monotone, so a smaller power divides a larger one. */
  lemma Pow2Divides(a: nat, b: nat)
    requires a <= b
    ensures Pow2(b) == Pow2(a) * Pow2(b - a)
  {
    Pow2Add(a, b - a);
  }

  lemma MulAtLeast(a: int, m: int)
    requires a >= 1 && m > 0
    ensures a * m >= m
  {
    assert a * m == (a - 1) * m + m;
  }

  /** The quotient and remainder of Euclidean division are unique. */
  lemma DivModUnique(x: int, m: int, q: int, r: int)
    requires m > 0 && 0 <= r < m && x == q * m + r
    ensures x / m == q && x % m == r
  {
    var q', r' := x / m, x % m;
    assert q' * m + r' == q * m + r;
    if q' > q {
      assert (q' - q) * m == r - r';
      MulAtLeast(q' - q, m);
    } else if q' < q {
      assert (q - q') * m == r' - r;
      MulAtLeast(q - q', m);
    }
  }

  /** Reducing modulo a multiple first does not change a remainder. */
  lemma ModOfMod(x: int, m: nat, k: nat)
    requires m > 0 && k > 0
    ensures (x % (m * k)) % m == x % m
  {
    var q, r := x / (m * k), x % (m * k);
    assert x == (q * k) * m + r;
    var q2, r2 := r / m, r % m;
    assert r == q2 * m + r2;
    assert x == (q * k + q2) * m + r2;
    DivModUnique(x, m, q * k + q2, r2);
  }

  /** Dividing twice is dividing by the product. */
  lemma DivDiv(x: nat, a: nat, b: nat)
    requires a > 0 && b > 0
    ensures (x / a) / b == x / (a * b)
  {
    var q1, r1 := x / a, x % a;
    var q2, r2 := q1 / b, q1 % b;
    assert x == q2 * (a * b) + (r2 * a + r1) by {
      assert x == q1 * a + r1;
      assert q1 == q2 * b + r2;
    }
    assert r2 * a + r1 < a * b by {
      assert r2 <= b - 1;
      assert r2 * a <= (b - 1) * a;
    }
    DivModUnique(x, a * b, q2, r2 * a + r1);
  }

  /** The value of a code read most-significant-bit first. */
  function BitsValue(s: seq<bool>): (v: nat)
    ensures v < Pow2(|s|)
  {
    if |s| == 0 then 0
    else 2 * BitsValue(s[..|s| - 1]) + (if s[|s| - 1] then 1 else 0)
  }

  /** The `n` low bits of `v`, most significant first. */
  function ToBits(v: nat, n: nat): (s: seq<bool>)
    ensures |s| == n
  {
    if n == 0 then [] else ToBits(v / 2, n - 1) + [v % 2 == 1]
  }

  function Zeros(n: nat): (s: seq<bool>)
    ensures |s| == n && forall i :: 0 <= i < n ==> !s[i]
  {
    seq(n, _ => false)
  }

  lemma {:induction false} ZerosValue(n: nat)
    ensures BitsValue(Zeros(n)) == 0
  {
    if n > 0 {
      assert Zeros(n)[..n - 1] == Zeros(n - 1);
      ZerosValue(n - 1);
    }
  }

  lemma Distribute(x: int, y: int, z: int, d: int)
    ensures 2 * (x * y + z) + d == x * (2 * y) + (2 * z + d)
  {
  }

  lemma {:induction false} BitsValueAppend(a: seq<bool>, b: seq<bool>)
    ensures BitsValue(a + b) == BitsValue(a) * Pow2(|b|) + BitsValue(b)
    decreases |b|
  {
    if |b| > 0 {
      var b' := b[..|b| - 1];
      assert (a + b)[..|a + b| - 1] == a + b';
      BitsValueAppend(a, b');
      var x, y, z := BitsValue(a), Pow2(|b'|), BitsValue(b');
      var d := if b[|b| - 1] then 1 else 0;
      assert BitsValue(a + b) == 2 * BitsValue(a + b') + d;
      assert BitsValue(b) == 2 * z + d;
      assert Pow2(|b|) == 2 * y;
      Distribute(x, y, z, d);
    } else {
      assert a + b == a;
    }
  }

  /** Reading an integer as `n` bits and back gives the integer. */
  lemma {:induction false} ToBitsValue(v: nat, n: nat)
    requires v < Pow2(n)
    ensures BitsValue(ToBits(v, n)) == v
  {
    if n > 0 {
      var s := ToBits(v, n);
      assert s[..n - 1] == ToBits(v / 2, n - 1);
      ToBitsValue(v / 2, n - 1);
    }
  }

  /** Reading bits as an integer and back gives the bits. */
  lemma {:induction false} ValueToBits(s: seq<bool>)
    ensures ToBits(BitsValue(s), |s|) == s
  {
    if |s| > 0 {
      var s' := s[..|s| - 1];
      ValueToBits(s');
      var v := BitsValue(s);
      DivModUnique(v, 2, BitsValue(s'), if s[|s| - 1] then 1 else 0);
      assert s == s' + [s[|s| - 1]];
    }
  }

  /** Shifting `v` right by `n - j` leaves the first `j` bits of its code. */
  lemma ValuePrefix(s: seq<bool>, j: nat)
    requires j <= |s|
    ensures BitsValue(s) / Pow2(|s| - j) == BitsValue(s[..j])
  {
    assert s == s[..j] + s[j..];
    BitsValueAppend(s[..j], s[j..]);
    DivModUnique(BitsValue(s), Pow2(|s| - j), BitsValue(s[..j]), BitsValue(s[j..]));
  }

  /** Masking the low `n - i` bits of `v` leaves the code from position `i` on. */
  lemma ValueSuffix(s: seq<bool>, i: nat)
    requires i <= |s|
    ensures BitsValue(s) % Pow2(|s| - i) == BitsValue(s[i..])
  {
    assert s == s[..i] + s[i..];
    BitsValueAppend(s[..i], s[i..]);
    DivModUnique(BitsValue(s), Pow2(|s| - i), BitsValue(s[..i]), BitsValue(s[i..]));
  }

  /** Truncating to `uint` before masking at most 32 low bits changes nothing. */
  lemma UintMask(p: nat, k: nat)
    requires k <= 32
    ensures (p % UintRange) % Pow2(k) == p % Pow2(k)
  {
    Pow2Facts();
    Pow2Divides(k, 32);
    ModOfMod(p, Pow2(k), Pow2(32 - k));
  }

  /** The shift-and-mask the encoder uses picks out the slice `s[i..j]`. */
  lemma ValueSlice(s: seq<bool>, i: nat, j: nat)
    requires i <= j <= |s| && j - i <= 32
    ensures ((BitsValue(s) / Pow2(|s| - j)) % UintRange) % Pow2(j - i) == BitsValue(s[i..j])
  {
    ValuePrefix(s, j);
    UintMask(BitsValue(s[..j]), j - i);
    ValueSuffix(s[..j], i);
    assert s[..j][i..] == s[i..j];
  }

  /** The bit the decoder tests at position `j` of a code is `s[j]`. */
  lemma {:induction false} ToBitsAt(v: nat, n: nat, j: nat)
    requires j < n
    ensures ToBits(v, n)[j] == ((v / Pow2(n - 1 - j)) % 2 == 1)
  {
    if j == n - 1 {
    } else {
      ToBitsAt(v / 2, n - 1, j);
      DivDiv(v, 2, Pow2(n - 2 - j));
    }
  }

  /** The range of the library's `int`. */
  const IntMin: int := -0x8000_0000
  const IntMax: int := 0x7FFF_FFFF

  /** Unchecked `int` arithmetic: the value in the range of `int` that is
      congruent to `x` modulo 2^32. */
  function Int32(x: int): (r: int)
    ensures IntMin <= r <= IntMax
    ensures (x - r) % UintRange == 0
    ensures IntMin <= x <= IntMax ==> r == x
  {
    (x - IntMin) % UintRange + IntMin
  }

  /** Two `int` values congruent modulo 2^32 are equal. */
  lemma Int32Unique(a: int, b: int)
    requires IntMin <= a <= IntMax && IntMin <= b <= IntMax
    requires (a - b) % UintRange == 0
    ensures a == b
  {
    var d := a - b;
    assert -0x1_0000_0000 < d < 0x1_0000_0000;
    DivModUnique(d, UintRange, d / UintRange, 0);
  }

  /** Wrapping after every step of a sum is wrapping the whole sum, so a
      running total like `bitCount += …` ends as `Int32` of the exact total. */
  lemma Int32Add(a: int, b: int)
    ensures Int32(Int32(a) + Int32(b)) == Int32(a + b)
  {
    var x, y := Int32(a), Int32(b);
    var l, r := Int32(x + y), Int32(a + b);
    CongruentSum(a, x, b, y, x + y, l, a + b, r);
    Int32Unique(l, r);
  }

  /** A running total that wraps after each step, `count += x`. */
  lemma Int32Step(a: int, b: int)
    ensures Int32(Int32(a) + b) == Int32(a + b)
  {
    Int32Add(a, b);
    Int32Add(Int32(a), b);
  }

  /** Wrapping never makes a non-negative total larger. */
  lemma Int32Below(x: int)
    requires x >= 0
    ensures Int32(x) <= x
  {
  }

  lemma CongruentSum(a: int, x: int, b: int, y: int, s: int, l: int, t: int, r: int)
    requires (a - x) % UintRange == 0 && (b - y) % UintRange == 0
    requires s == x + y && (s - l) % UintRange == 0
    requires t == a + b && (t - r) % UintRange == 0
    ensures (l - r) % UintRange == 0
  {
    var p, q, u, v := (a - x) / UintRange, (b - y) / UintRange, (s - l) / UintRange, (t - r) / UintRange;
    assert a - x == p * UintRange && b - y == q * UintRange;
    assert s - l == u * UintRange && t - r == v * UintRange;
    assert l - r == (v - p - q - u) * UintRange;
    DivModUnique(l - r, UintRange, v - p - q - u, 0);
  }

  /** The sum of two positive `int` values is positive after wrapping
      exactly when it does not exceed `int.MaxValue`. */
  lemma Int32PositiveSum(a: int, b: int)
    requires 1 <= a <= IntMax && 1 <= b <= IntMax
    ensures Int32(a + b) > 0 <==> a + b <= IntMax
    ensures a + b <= IntMax ==> Int32(a + b) == a + b
  {
    if a + b > IntMax {
      DivModUnique(a + b - IntMin, UintRange, 1, a + b - IntMin - UintRange);
    }
  }

  /** `(b & 0x7) == 0 ? b >> 3 : (b >> 3) + 1` on an `int`, negative values
      included: `b & 0x7` is the two's-complement remainder `b % 8` and
      `b >> 3` the floor `b / 8`, so the result is `b / 8` rounded up. */
  function BytesFor(b: int): (r: int)
    ensures 8 * r - 8 < b <= 8 * r
  {
    if b % 8 == 0 then b / 8 else b / 8 + 1
  }

  /** Rounds a bit count up to whole bytes. */
  function CeilDiv8(n: nat): (r: nat)
    ensures 8 * r >= n && 8 * r < n + 8
  {
    BytesFor(n)
  }

  function ByteOf(s: seq<bool>): byte
    requires |s| == 8
  {
    Pow2Facts();
    BitsValue(s)
  }

  /** The encoder's output layout: bits packed MSB-first, eight per byte,
      the last 1-7 bits left-aligned and zero-filled. */
  function PackBits(bits: seq<bool>): (r: seq<byte>)
    decreases |bits|
  {
    if |bits| == 0 then []
    else if |bits| < 8 then [ByteOf(bits + Zeros(8 - |bits|))]
    else [ByteOf(bits[..8])] + PackBits(bits[8..])
  }

  /** Packing distributes over a split at a byte boundary. */
  lemma {:induction false} PackBitsAppend(a: seq<bool>, b: seq<bool>)
    requires |a| % 8 == 0
    ensures PackBits(a + b) == PackBits(a) + PackBits(b)
    decreases |a|
  {
    if |a| == 0 {
      assert a + b == b;
    } else {
      assert (a + b)[..8] == a[..8];
      assert (a + b)[8..] == a[8..] + b;
      PackBitsAppend(a[8..], b);
    }
  }

  /** The decoder's view of a byte stream: every byte's bits, MSB first. */
  function BytesToBits(bytes: seq<byte>): (bits: seq<bool>)
    ensures |bits| == 8 * |bytes|
  {
    if |bytes| == 0 then [] else ToBits(bytes[0], 8) + BytesToBits(bytes[1..])
  }

  /** The bit stream padded with zeros to a whole number of bytes. */
  function Padded(bits: seq<bool>): seq<bool>
  {
    bits + Zeros((8 - |bits| % 8) % 8)
  }

  /** Size law of the packed layout: one byte per started group of eight bits. */
  lemma {:induction false} PackBitsLength(bits: seq<bool>)
    ensures |PackBits(bits)| == CeilDiv8(|bits|)
    decreases |bits|
  {
    if |bits| >= 8 {
      PackBitsLength(bits[8..]);
    }
  }

  /** Byte `e` of a stream whose first `8 * (e + 1)` bits exist is exactly those bits. */
  lemma {:induction false} PackBitsAt(bits: seq<bool>, e: nat)
    requires 8 * (e + 1) <= |bits|
    ensures |PackBits(bits)| > e
    ensures PackBits(bits)[e] == BitsValue(bits[8 * e..8 * e + 8])
    decreases e
  {
    PackBitsLength(bits);
    if e > 0 {
      PackBitsAt(bits[8..], e - 1);
      assert bits[8..][8 * (e - 1)..8 * (e - 1) + 8] == bits[8 * e..8 * e + 8];
    }
  }

  /** The final byte of a stream of `8 * e + t` bits, `0 < t < 8`, holds the
      `t` leftover bits followed by zeros. */
  lemma {:induction false} PackBitsLast(bits: seq<bool>, e: nat)
    requires 8 * e < |bits| < 8 * e + 8
    ensures |PackBits(bits)| == e + 1
    ensures PackBits(bits)[e] == BitsValue(bits[8 * e..] + Zeros(8 * e + 8 - |bits|))
    decreases e
  {
    if e > 0 {
      PackBitsLast(bits[8..], e - 1);
      assert bits[8..][8 * (e - 1)..] == bits[8 * e..];
    }
  }

  /** Two streams that share their first `8 * m` bits pack to the same first `m` bytes. */
  lemma {:induction false} PackBitsPrefix(a: seq<bool>, b: seq<bool>, m: nat)
    requires 8 * m <= |a| && a <= b
    ensures |PackBits(a)| >= m && |PackBits(b)| >= m
    ensures PackBits(a)[..m] == PackBits(b)[..m]
    decreases m
  {
    PackBitsLength(a);
    PackBitsLength(b);
    if m > 0 {
      assert a[..8] == b[..8];
      PackBitsPrefix(a[8..], b[8..], m - 1);
    }
  }

  /** Bit `8 * a + b` of the decoder's view is bit `b` of byte `a`. */
  lemma {:induction false} BytesToBitsAt(bytes: seq<byte>, a: nat, b: nat)
    requires a < |bytes| && b < 8
    ensures BytesToBits(bytes)[8 * a + b] == ToBits(bytes[a], 8)[b]
    decreases a
  {
    if a > 0 {
      BytesToBitsAt(bytes[1..], a - 1, b);
    }
  }

  /** A byte made from eight bits unpacks to those eight bits. */
  lemma UnpackByte(s: seq<bool>, rest: seq<byte>)
    requires |s| == 8
    ensures BytesToBits([ByteOf(s)] + rest) == s + BytesToBits(rest)
  {
    ValueToBits(s);
    assert ([ByteOf(s)] + rest)[1..] == rest;
  }

  /** Unpacking the packed stream gives back the bits followed by the zero padding. */
  lemma {:induction false} UnpackPack(bits: seq<bool>)
    ensures BytesToBits(PackBits(bits)) == Padded(bits)
    decreases |bits|
  {
    if |bits| == 0 {
      assert Padded(bits) == [];
    } else if |bits| < 8 {
      UnpackShort(bits);
    } else {
      UnpackPack(bits[8..]);
      UnpackStep(bits);
    }
  }

  lemma UnpackShort(bits: seq<bool>)
    requires 0 < |bits| < 8
    ensures BytesToBits(PackBits(bits)) == Padded(bits)
  {
    var n := 8 - |bits|;
    var padded := bits + Zeros(n);
    DivModUnique(|bits|, 8, 0, |bits|);
    DivModUnique(n, 8, 0, n);
    assert (8 - |bits| % 8) % 8 == n;
    assert Padded(bits) == padded;
    var bytes := PackBits(bits);
    assert bytes == [ByteOf(padded)];
    UnpackByte(padded, []);
    assert bytes == [ByteOf(padded)] + [];
    assert BytesToBits([]) == [] && padded + [] == padded;
  }

  /** The inductive step: one full byte in front of a stream that round-trips. */
  lemma UnpackStep(bits: seq<bool>)
    requires |bits| >= 8 && BytesToBits(PackBits(bits[8..])) == Padded(bits[8..])
    ensures BytesToBits(PackBits(bits)) == Padded(bits)
  {
    var rest := bits[8..];
    UnpackByte(bits[..8], PackBits(rest));
    assert PackBits(bits) == [ByteOf(bits[..8])] + PackBits(rest);
    PaddedStep(bits);
  }

  lemma PaddedStep(bits: seq<bool>)
    requires |bits| >= 8
    ensures Padded(bits) == bits[..8] + Padded(bits[8..])
  {
    var rest := bits[8..];
    assert |bits| % 8 == |rest| % 8 by {
      DivModUnique(|bits|, 8, |rest| / 8 + 1, |rest| % 8);
    }
    var z := Zeros((8 - |rest| % 8) % 8);
    assert bits[..8] + rest == bits;
    assert (bits[..8] + rest) + z == bits[..8] + (rest + z);
  }
}
