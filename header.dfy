/** The length prefix of a safetensors file: its first eight bytes, read as
    a little-endian unsigned integer (`int.from_bytes(f.read(8), 'little')`). */
module Header {

  type byte = b: int | 0 <= b < 256

  /** Width of the length prefix in bytes. */
  const PrefixWidth: nat := 8

  /** 2^64: one more than the largest 64-bit unsigned value. */
  const U64Bound: nat := 0x1_0000_0000_0000_0000

  function Pow256(k: nat): (p: nat)
    ensures p > 0
  {
    if k == 0 then 1 else 256 * Pow256(k - 1)
  }

  lemma Pow256Of8()
    ensures Pow256(PrefixWidth) == U64Bound
  {
    assert Pow256(2) == 0x1_0000;
    assert Pow256(4) == 0x1_0000_0000 by { assert Pow256(4) == 256 * 256 * Pow256(2); }
    assert Pow256(8) == U64Bound by { assert Pow256(8) == 256 * 256 * 256 * 256 * Pow256(4); }
  }

  /** `int.from_bytes(b, 'little')`: the first byte is the least significant. */
  function FromLittleEndian(b: seq<byte>): (n: nat)
    ensures n < Pow256(|b|)
  {
    if b == [] then 0
    else
      var rest := FromLittleEndian(b[1..]);
      assert rest <= Pow256(|b| - 1) - 1;
      assert 256 * rest <= 256 * Pow256(|b| - 1) - 256;
      b[0] + 256 * rest
  }

  /** Reference definition: the positional sum of b[i] * 256^i, accumulated
      from the most significant byte down. */
  function WeightedSum(b: seq<byte>): nat
  {
    if b == [] then 0
    else WeightedSum(b[..|b| - 1]) + b[|b| - 1] * Pow256(|b| - 1)
  }

  lemma {:induction false} FromLittleEndianIsWeightedSum(b: seq<byte>)
    ensures FromLittleEndian(b) == WeightedSum(b)
    decreases |b|
  {
    if |b| == 1 {
      assert b[..0] == [];
      assert b[1..] == [];
    } else if |b| > 1 {
      var last := b[|b| - 1];
      var init := b[..|b| - 1];
      var tail := b[1..];
      FromLittleEndianIsWeightedSum(tail);
      FromLittleEndianIsWeightedSum(init);
      FromLittleEndianIsWeightedSum(tail[..|tail| - 1]);
      assert tail[..|tail| - 1] == init[1..];
      assert tail[|tail| - 1] == last;
      assert init[0] == b[0];
      var p := Pow256(|b| - 2);
      var a := FromLittleEndian(init[1..]);
      assert FromLittleEndian(tail) == a + last * p;
      assert FromLittleEndian(init) == b[0] + 256 * a;
      assert Pow256(|b| - 1) == 256 * p;
      ScaleProduct(last, p);
      assert FromLittleEndian(b) == b[0] + 256 * (a + last * p);
    }
  }

  lemma ScaleProduct(x: nat, p: nat)
    ensures 256 * (x * p) == x * (256 * p)
  {
  }

  /** The `width`-byte little-endian encoding of `n`, as a writer of the
      length prefix lays it down. */
  function ToLittleEndian(n: nat, width: nat): (b: seq<byte>)
    requires n < Pow256(width)
    ensures |b| == width
  {
    if width == 0 then []
    else [n % 256] + ToLittleEndian(n / 256, width - 1)
  }

  /** Decoding an encoded value gives the value back. */
  lemma {:induction false} DecodeEncode(n: nat, width: nat)
    requires n < Pow256(width)
    ensures FromLittleEndian(ToLittleEndian(n, width)) == n
  {
    if width > 0 {
      DecodeEncode(n / 256, width - 1);
      var b := ToLittleEndian(n, width);
      assert b[1..] == ToLittleEndian(n / 256, width - 1);
    }
  }

  /** Encoding a decoded byte string gives the byte string back. */
  lemma {:induction false} EncodeDecode(b: seq<byte>)
    ensures ToLittleEndian(FromLittleEndian(b), |b|) == b
  {
    if b != [] {
      EncodeDecode(b[1..]);
      var n := FromLittleEndian(b);
      var rest := FromLittleEndian(b[1..]);
      assert n % 256 == b[0] && n / 256 == rest;
      assert b == [b[0]] + b[1..];
    }
  }

  /** The header size read from the start of a file. `f.read(8)` returns
      fewer than eight bytes when the file is shorter. */
  function HeaderSize(file: seq<byte>): (n: nat)
    ensures n < U64Bound
    ensures |file| >= PrefixWidth ==> n == WeightedSum(file[..PrefixWidth])
    ensures |file| < PrefixWidth ==> n == WeightedSum(file)
  {
    var prefix := if |file| < PrefixWidth then file else file[..PrefixWidth];
    Pow256Of8();
    FromLittleEndianIsWeightedSum(prefix);
    PowMonotone(|prefix|, PrefixWidth);
    FromLittleEndian(prefix)
  }

  lemma {:induction false} PowMonotone(i: nat, j: nat)
    requires i <= j
    ensures Pow256(i) <= Pow256(j)
    decreases j
  {
    if i < j {
      PowMonotone(i, j - 1);
    }
  }

  /** The 8-byte little-endian encoding of a 64-bit length. */
  function EncodeU64(n: nat): (b: seq<byte>)
    requires n < U64Bound
    ensures |b| == PrefixWidth
  {
    Pow256Of8();
    ToLittleEndian(n, PrefixWidth)
  }

  /** A file that starts with the 8-byte encoding of `n` declares a header
      of `n` bytes, whatever follows. */
  lemma HeaderSizeOfPrefix(n: nat, rest: seq<byte>)
    requires n < U64Bound
    ensures HeaderSize(EncodeU64(n) + rest) == n
  {
    Pow256Of8();
    var prefix := EncodeU64(n);
    assert (prefix + rest)[..PrefixWidth] == prefix;
    DecodeEncode(n, PrefixWidth);
    FromLittleEndianIsWeightedSum(prefix);
  }
}
