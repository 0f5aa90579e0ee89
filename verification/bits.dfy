/** The payload after the header: the code string packed eight bits to a
    byte, most significant bit first, the last byte filled with zero bits
    (`saveEncodedFile`), and the same bits read back, where the padding
    count says how many low bits of the last byte to skip. */
module Bits {
  import opened Types

  function Pow2(n: nat): (p: nat)
    ensures p >= 1
  {
    if n == 0 then 1 else 2 * Pow2(n - 1)
  }

  lemma {:induction false} Pow2Monotone(a: nat, b: nat)
    requires a <= b
    ensures Pow2(a) <= Pow2(b)
    decreases b
  {
    if a < b {
      Pow2Monotone(a, b - 1);
    }
  }

  /** The number whose binary digits, most significant first, are `bits`. */
  function FromBits(bits: seq<bool>): (n: nat)
    ensures n < Pow2(|bits|)
  {
    if |bits| == 0 then 0
    else 2 * FromBits(bits[..|bits| - 1]) + (if bits[|bits| - 1] then 1 else 0)
  }

  /** The `k` binary digits of `n`, most significant first. */
  function ToBits(n: nat, k: nat): (bits: seq<bool>)
    requires n < Pow2(k)
    ensures |bits| == k
  {
    if k == 0 then [] else ToBits(n / 2, k - 1) + [n % 2 == 1]
  }

  /** Bit `i` of `n`: whether `n & (1 << i)` is nonzero. */
  function BitAt(n: nat, i: nat): bool {
    if i == 0 then n % 2 == 1 else BitAt(n / 2, i - 1)
  }

  function Zeros(n: nat): (z: seq<bool>)
    ensures |z| == n && forall i | 0 <= i < n :: !z[i]
  {
    seq(n, _ => false)
  }

  /** Reading the digits of a number gives the number back. */
  lemma {:induction false} FromToBits(n: nat, k: nat)
    requires n < Pow2(k)
    ensures FromBits(ToBits(n, k)) == n
  {
    if k > 0 {
      FromToBits(n / 2, k - 1);
      var b := ToBits(n, k);
      assert b[..k - 1] == ToBits(n / 2, k - 1);
    }
  }

  /** Writing the digits of a bit string's value gives the string back. */
  lemma {:induction false} ToFromBits(bits: seq<bool>)
    ensures ToBits(FromBits(bits), |bits|) == bits
  {
    if |bits| > 0 {
      var init := bits[..|bits| - 1];
      ToFromBits(init);
      assert FromBits(bits) / 2 == FromBits(init);
      assert bits == init + [bits[|bits| - 1]];
    }
  }

  /** Digit `j` of `ToBits(n, k)` is bit `k - 1 - j` of `n`. */
  lemma {:induction false} ToBitsAt(n: nat, k: nat, j: nat)
    requires n < Pow2(k) && j < k
    ensures ToBits(n, k)[j] == BitAt(n, k - 1 - j)
  {
    if j < k - 1 {
      ToBitsAt(n / 2, k - 1, j);
    }
  }

  /** `n << m`, without truncation. */
  function Shl(n: nat, m: nat): nat {
    if m == 0 then n else 2 * Shl(n, m - 1)
  }

  /** Shifting left by `m` appends `m` zero digits. */
  lemma {:induction false} FromBitsZeros(bits: seq<bool>, m: nat)
    ensures FromBits(bits + Zeros(m)) == Shl(FromBits(bits), m)
  {
    if m > 0 {
      var longer := bits + Zeros(m);
      assert longer[..|longer| - 1] == bits + Zeros(m - 1) && !longer[|longer| - 1];
      FromBitsZeros(bits, m - 1);
    } else {
      assert bits + Zeros(0) == bits;
    }
  }

  /** `(8 - n % 8) % 8`: the zero bits that fill the last byte. */
  function Padding(n: nat): (p: nat)
    ensures p < 8 && (n + p) % 8 == 0
    ensures n % 8 == 0 <==> p == 0
  {
    (8 - n % 8) % 8
  }

  /** The bytes written for a code string: every full group of eight bits,
      then the leftover bits shifted to the top of one more byte. */
  function Pack(bits: seq<bool>): (bytes: seq<Byte>)
    ensures |bytes| == 0 <==> |bits| == 0
    ensures |bits| <= 8 ==> |bytes| == 1 || |bytes| == 0
  {
    if |bits| == 0 then []
    else if |bits| < 8 then
      var last := FromBits(bits + Zeros(8 - |bits|));
      assert Pow2(8) == 256;
      [last]
    else
      var first := FromBits(bits[..8]);
      assert Pow2(8) == 256;
      [first] + Pack(bits[8..])
  }

  lemma PaddingShift(n: nat)
    ensures Padding(n + 8) == Padding(n)
    ensures 0 < n < 8 ==> Padding(n) == 8 - n
  {
  }

  /** Packing writes one byte per eight bits, the last one filled up with
      the padding: the byte count is the bit count rounded up to a
      multiple of eight, divided by eight. */
  lemma {:induction false} PackLength(bits: seq<bool>)
    ensures 8 * |Pack(bits)| == |bits| + Padding(|bits|)
  {
    if |bits| >= 8 {
      PackLength(bits[8..]);
      PaddingShift(|bits| - 8);
    } else {
      PaddingShift(|bits|);
    }
  }

  /** Packing splits at byte boundaries. */
  lemma {:induction false} PackAppend(a: seq<bool>, b: seq<bool>)
    requires |a| % 8 == 0
    ensures Pack(a + b) == Pack(a) + Pack(b)
    decreases |a|
  {
    if |a| == 0 {
      assert a + b == b;
    } else {
      assert (a + b)[..8] == a[..8];
      assert (a + b)[8..] == a[8..] + b;
      PackAppend(a[8..], b);
    }
  }

  /** How many bits of the last byte the decoder reads: it stops at the
      first bit position `i` below the padding count. */
  function Kept(padding: nat): (k: nat)
    ensures k <= 8
  {
    if padding >= 8 then 0 else 8 - padding
  }

  /** The top `count` bits of `b`, from bit 7 downwards. */
  function ByteBits(b: Byte, count: nat): (bits: seq<bool>)
    requires count <= 8
    ensures |bits| == count
  {
    seq(count, j requires 0 <= j < count => BitAt(b, 7 - j))
  }

  /** The bits the decoder walks: all eight bits of every byte but the last,
      and the kept bits of the last. */
  function Unpack(bytes: seq<Byte>, padding: nat): (bits: seq<bool>)
    ensures |bits| == if |bytes| == 0 then 0 else 8 * (|bytes| - 1) + Kept(padding)
  {
    if |bytes| == 0 then []
    else if |bytes| == 1 then ByteBits(bytes[0], Kept(padding))
    else ByteBits(bytes[0], 8) + Unpack(bytes[1..], padding)
  }

  /** Reading bits 7 downwards of a byte lists its eight binary digits. */
  lemma ByteBitsDigits(b: Byte, count: nat)
    requires count <= 8
    ensures Pow2(8) == 256
    ensures ByteBits(b, count) == ToBits(b, 8)[..count]
  {
    assert Pow2(8) == 256;
    forall j | 0 <= j < count ensures ByteBits(b, count)[j] == ToBits(b, 8)[j] {
      ToBitsAt(b, 8, j);
    }
  }

  /** The top bits of the byte built from eight digits are those digits. */
  lemma ByteBitsOf(c: seq<bool>, count: nat)
    requires |c| == 8 && count <= 8
    ensures FromBits(c) < 256
    ensures ByteBits(FromBits(c), count) == c[..count]
  {
    ByteBitsDigits(FromBits(c), count);
    ToFromBits(c);
  }

  /** For a last byte holding `n` code bits, the decoder keeps exactly `n`. */
  lemma KeptPadding(n: nat)
    requires 0 < n <= 8
    ensures Kept(Padding(n)) == n
  {
  }

  /** The last byte alone: its kept bits are the leftover bits. */
  lemma UnpackPackLast(bits: seq<bool>)
    requires 0 < |bits| <= 8
    ensures Unpack(Pack(bits), Padding(|bits|)) == bits
  {
    var c := bits + Zeros(8 - |bits|);
    assert Pow2(8) == 256;
    if |bits| < 8 {
      assert Pack(bits) == [FromBits(c)];
    } else {
      assert bits[8..] == [] && bits[..8] == bits && c == bits;
      assert Pack(bits) == [FromBits(c)];
    }
    KeptPadding(|bits|);
    ByteBitsOf(c, |bits|);
    assert c[..|bits|] == bits;
  }

  /** Unpacking with the written padding count gives back exactly the code
      string: the padding bits are skipped and nothing else is. */
  lemma {:induction false} UnpackPack(bits: seq<bool>)
    ensures Unpack(Pack(bits), Padding(|bits|)) == bits
    decreases |bits|
  {
    if 0 < |bits| <= 8 {
      UnpackPackLast(bits);
    } else if |bits| > 8 {
      var rest := bits[8..];
      var p := Padding(|bits|);
      assert Padding(|rest|) == p;
      UnpackPack(rest);
      var b := FromBits(bits[..8]);
      assert Pow2(8) == 256;
      assert Pack(bits) == [b] + Pack(rest);
      assert Unpack(Pack(bits), p) == ByteBits(b, 8) + Unpack(Pack(rest), p) by {
        assert |Pack(rest)| > 0;
        assert ([b] + Pack(rest))[1..] == Pack(rest);
      }
      ByteBitsOf(bits[..8], 8);
      assert bits[..8][..8] == bits[..8];
      assert bits == bits[..8] + rest;
    }
  }

  /** A bit string of `n` bits ends in `n % 8` bits after its last full byte,
      and a partial last byte is followed by `Padding(n)` zero bits. */
  lemma LastChunk(n: nat)
    ensures n / 8 * 8 <= n && (n / 8 * 8) % 8 == 0 && n - n / 8 * 8 == n % 8
    ensures n % 8 != 0 ==> Padding(n) == 8 - n % 8
  {
  }

  /** The padding bits of the last byte are zero. */
  lemma PaddingBitsZero(bits: seq<bool>, i: nat)
    requires |bits| > 0 && i < Padding(|bits|)
    ensures !BitAt(Pack(bits)[|Pack(bits)| - 1], i)
  {
    var full := |bits| / 8 * 8;
    LastChunk(|bits|);
    var tail := bits[full..];
    assert 0 < |tail| < 8 && 8 - |tail| == Padding(|bits|);
    var c := tail + Zeros(8 - |tail|);
    assert Pack(bits)[|Pack(bits)| - 1] == FromBits(c) by {
      assert bits == bits[..full] + tail;
      PackAppend(bits[..full], tail);
      assert Pack(tail) == [FromBits(c)];
    }
    assert !c[7 - i] by {
      assert 7 - i >= |tail|;
    }
    assert Pow2(8) == 256;
    ToFromBits(c);
    ToBitsAt(FromBits(c), 8, 7 - i);
  }

  /** Eight more bits make one more full byte. */
  lemma PackFullByte(prefix: seq<bool>, chunk: seq<bool>)
    requires |prefix| % 8 == 0 && |chunk| == 8
    ensures FromBits(chunk) < 256
    ensures Pack(prefix + chunk) == Pack(prefix) + [FromBits(chunk)]
  {
    assert Pow2(8) == 256;
    PackAppend(prefix, chunk);
    assert chunk[..8] == chunk && chunk[8..] == [];
  }

  /** Fewer than eight leftover bits make one last byte, zero-filled. */
  lemma PackLastByte(prefix: seq<bool>, tail: seq<bool>)
    requires |prefix| % 8 == 0 && 0 < |tail| < 8
    ensures FromBits(tail + Zeros(8 - |tail|)) < 256
    ensures Pack(prefix + tail) == Pack(prefix) + [FromBits(tail + Zeros(8 - |tail|))]
  {
    assert Pow2(8) == 256;
    PackAppend(prefix, tail);
  }

  /** Shifting one more bit in at the bottom. */
  lemma ShiftIn(s: seq<bool>, b: bool)
    ensures FromBits(s + [b]) == 2 * FromBits(s) + (if b then 1 else 0)
  {
    assert (s + [b])[..|s|] == s;
  }

  /** Storing an `int` into an `unsigned char` keeps its low eight bits. */
  function Truncate(x: nat): (b: Byte)
    ensures x < 256 ==> b == x
    ensures (x - b) % 256 == 0
  {
    x % 256
  }

  /** One round of the packing loop: the bit shifted into the pending byte
      keeps it below 256, and a byte that reaches eight bits is the next
      packed byte. */
  lemma PackStep(bits: seq<bool>, start: nat, i: nat, byte: nat)
    requires start <= i < |bits| && i - start < 8 && start % 8 == 0
    requires byte == FromBits(bits[start..i])
    ensures byte * 2 + (if bits[i] then 1 else 0) == FromBits(bits[start..i + 1]) < 256
    ensures i + 1 - start == 8 ==>
      Pack(bits[..i + 1]) == Pack(bits[..start]) + [FromBits(bits[start..i + 1])]
  {
    var pending := bits[start..i + 1];
    assert pending == bits[start..i] + [bits[i]];
    ShiftIn(bits[start..i], bits[i]);
    Pow2Monotone(i + 1 - start, 8);
    if i + 1 - start == 8 {
      assert bits[..i + 1] == bits[..start] + pending;
      PackFullByte(bits[..start], pending);
    }
  }

  /** After the loop: the leftover bits, shifted to the top, are the last
      packed byte. */
  lemma PackFinish(bits: seq<bool>, start: nat, byte: nat)
    requires start < |bits| && |bits| - start < 8 && start % 8 == 0
    requires byte == FromBits(bits[start..])
    ensures Shl(byte, 8 - (|bits| - start)) < 256
    ensures Pack(bits) == Pack(bits[..start]) + [Shl(byte, 8 - (|bits| - start))]
  {
    var tail := bits[start..];
    assert bits == bits[..start] + tail;
    FromBitsZeros(tail, 8 - |tail|);
    PackLastByte(bits[..start], tail);
  }

  /** The state of the packing loop after `i` bits: the bytes written so far
      pack the bits before `start`, a multiple of eight, and the pending
      byte holds the bits from `start` to `i`. */
  predicate Packing(bits: seq<bool>, start: nat, i: nat, byte: nat, out: seq<Byte>) {
    start <= i <= |bits| && i - start < 8 && start % 8 == 0 &&
    byte == FromBits(bits[start..i]) && out == Pack(bits[..start])
  }

  /** One round of the packing loop keeps its state. */
  lemma PackingStep(bits: seq<bool>, start: nat, i: nat, byte: nat, out: seq<Byte>)
    requires Packing(bits, start, i, byte, out) && i < |bits|
    ensures var b := byte * 2 + (if bits[i] then 1 else 0);
      && b < 256
      && (i + 1 - start == 8 ==> Packing(bits, i + 1, i + 1, 0, out + [b]))
      && (i + 1 - start < 8 ==> Packing(bits, start, i + 1, b, out))
  {
    PackStep(bits, start, i, byte);
    if i + 1 - start == 8 {
      assert (start + 8) % 8 == 0;
      assert bits[i + 1..i + 1] == [];
    }
  }

  /** `saveEncodedFile`: the padding count and the bytes after it. Bits are
      shifted into an `unsigned char`, whose 8-bit truncation is written out;
      a full byte is written as soon as it has eight bits, and leftover bits
      are shifted to the top of one last byte. */
  method SaveEncoded(bits: seq<bool>) returns (padding: nat, out: seq<Byte>)
    ensures padding == Padding(|bits|)
    ensures out == Pack(bits)
  {
    padding := Padding(|bits|);
    out := [];
    var byte: Byte := 0;
    var count := 0;
    var i := 0;
    ghost var start := 0;
    while i < |bits|
      invariant Packing(bits, start, i, byte, out) && count == i - start
    {
      PackingStep(bits, start, i, byte, out);
      byte := Truncate(byte * 2 + (if bits[i] then 1 else 0));
      count := count + 1;
      i := i + 1;
      if count == 8 {
        out := out + [byte];
        byte := 0;
        count := 0;
        start := i;
      }
    }
    if count > 0 {
      assert bits[start..i] == bits[start..];
      PackFinish(bits, start, byte);
      byte := Truncate(Shl(byte, 8 - count));
      out := out + [byte];
    } else {
      assert bits[..i] == bits;
    }
  }

  /** The decoder's byte loop: bits 7 down to 0 of every byte, breaking out
      of the last byte at the first bit position below the padding count. */
  method ReadPayload(bytes: seq<Byte>, padding: nat) returns (bits: seq<bool>)
    ensures bits == Unpack(bytes, padding)
  {
    bits := [];
    var n := 0;
    while n < |bytes|
      invariant 0 <= n <= |bytes|
      invariant bits + Unpack(bytes[n..], padding) == Unpack(bytes, padding)
    {
      var atEnd := n + 1 == |bytes|;
      var i := 7;
      var got: seq<bool> := [];
      while i >= 0 && !(atEnd && i < padding)
        invariant -1 <= i <= 7
        invariant |got| == 7 - i
        invariant forall j | 0 <= j < |got| :: got[j] == BitAt(bytes[n], 7 - j)
        invariant atEnd && i < 7 ==> i >= padding - 1
      {
        got := got + [BitAt(bytes[n], i)];
        i := i - 1;
      }
      var count := if atEnd then Kept(padding) else 8;
      assert got == ByteBits(bytes[n], count);
      assert bytes[n..][0] == bytes[n] && bytes[n..][1..] == bytes[n + 1..];
      bits := bits + got;
      n := n + 1;
    }
    assert bytes[n..] == [];
  }
}
