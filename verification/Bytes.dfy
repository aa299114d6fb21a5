/** Bytes, ASCII literals and the fixed-width big-endian integers of `struct.pack`. */
module Bytes {

  type byte = b: int | 0 <= b < 256

  /** The byte an ASCII character stands for; `?` for a character that is no byte. */
  function ByteOf(c: char): byte { if c as int < 256 then c as int else 63 }

  /** A byte literal, written as the text it spells. */
  function Ascii(text: string): (bs: seq<byte>)
    ensures |bs| == |text|
    ensures forall i :: 0 <= i < |text| ==> bs[i] == ByteOf(text[i])
  {
    seq(|text|, i requires 0 <= i < |text| => ByteOf(text[i]))
  }

  function Pow256(width: nat): (p: nat)
    ensures p > 0
  {
    if width == 0 then 1 else 256 * Pow256(width - 1)
  }

  lemma {:induction false} Widths()
    ensures Pow256(1) == 0x100
    ensures Pow256(2) == 0x1_0000
    ensures Pow256(4) == 0x1_0000_0000
    ensures Pow256(8) == 0x1_0000_0000_0000_0000
  {
    assert Pow256(3) == 0x100_0000;
    assert Pow256(5) == 0x100_0000_0000;
    assert Pow256(6) == 0x1_0000_0000_0000;
    assert Pow256(7) == 0x100_0000_0000_0000;
  }

  /** `struct.unpack` of one unsigned big-endian field. */
  function FromBigEndian(bs: seq<byte>): (n: nat)
    ensures n < Pow256(|bs|)
  {
    if bs == [] then 0 else 256 * FromBigEndian(bs[..|bs| - 1]) + bs[|bs| - 1]
  }

  /** `struct.pack` of one unsigned big-endian field. */
  function ToBigEndian(n: nat, width: nat): (bs: seq<byte>)
    requires n < Pow256(width)
    ensures |bs| == width
  {
    if width == 0 then [] else ToBigEndian(n / 256, width - 1) + [n % 256]
  }

  lemma {:induction false} UnpackPack(n: nat, width: nat)
    requires n < Pow256(width)
    ensures FromBigEndian(ToBigEndian(n, width)) == n
  {
    if width > 0 {
      UnpackPack(n / 256, width - 1);
      var bs := ToBigEndian(n, width);
      assert bs[..width - 1] == ToBigEndian(n / 256, width - 1);
    }
  }

  /** Most significant byte first: the first of a field counts for 256 to the number of those behind it. */
  lemma {:induction false} FirstByteHighest(b: byte, bs: seq<byte>)
    ensures FromBigEndian([b] + bs) == b * Pow256(|bs|) + FromBigEndian(bs)
  {
    var all := [b] + bs;
    var n := |bs|;
    if n == 0 {
      assert all[..0] == [];
    } else {
      assert all[..n] == [b] + bs[..n - 1];
      FirstByteHighest(b, bs[..n - 1]);
      assert 256 * (b * Pow256(n - 1)) == b * (256 * Pow256(n - 1));
    }
  }

  /** A two-byte field, spelled out. */
  lemma {:induction false} TwoBytes(hi: byte, lo: byte)
    ensures FromBigEndian([hi, lo]) == 256 * hi + lo
  {
    assert [hi, lo][..1] == [hi];
    assert [hi][..0] == [];
  }

  /** `struct.unpack(">H", ...)` of the two bytes at `i`. */
  function U16(buf: seq<byte>, i: nat): (n: nat)
    requires i + 2 <= |buf|
    ensures n < 0x1_0000 && n == 256 * (buf[i] as int) + (buf[i + 1] as int)
  {
    TwoBytes(buf[i], buf[i + 1]);
    assert buf[i..i + 2] == [buf[i], buf[i + 1]];
    FromBigEndian(buf[i..i + 2])
  }

  /** `struct.pack(">H", n)`. */
  function Pack16(n: nat): (bs: seq<byte>)
    requires n < 0x1_0000
    ensures bs == [n / 256, n % 256]
  {
    Widths();
    var high := n / 256;
    assert high / 256 == 0 && high % 256 == high;
    assert Pow256(1) == 256 && ToBigEndian(high, 1) == ToBigEndian(high / 256, 0) + [high % 256];
    ToBigEndian(n, 2)
  }

  // ---- bytes standing in a buffer ---------------------------------------------

  /** The buffer holds `bs` at offset `i`. */
  ghost predicate At(d: seq<byte>, i: nat, bs: seq<byte>) {
    i + |bs| <= |d| && forall k :: 0 <= k < |bs| ==> bs[k] == d[i + k]
  }

  lemma {:induction false} AtParts(d: seq<byte>, i: nat, a: seq<byte>, b: seq<byte>)
    ensures At(d, i, a + b) <==> At(d, i, a) && At(d, i + |a|, b)
  {
    var ab := a + b;
    if At(d, i, ab) {
      forall k | 0 <= k < |a| ensures a[k] == d[i + k] {
        assert ab[k] == a[k];
      }
      forall k | 0 <= k < |b| ensures b[k] == d[i + |a| + k] {
        assert ab[|a| + k] == b[k] && ab[|a| + k] == d[i + (|a| + k)];
      }
    }
    if At(d, i, a) && At(d, i + |a|, b) {
      forall k | 0 <= k < |ab| ensures ab[k] == d[i + k] {
        if k >= |a| {
          assert ab[k] == b[k - |a|];
        }
      }
    }
  }

  lemma {:induction false} AtSlice(d: seq<byte>, i: nat, j: nat, bs: seq<byte>)
    requires i <= j <= |d| && |bs| == j - i
    ensures At(d, i, bs) <==> d[i..j] == bs
  {
  }

  lemma {:induction false} AtParts3(d: seq<byte>, i: nat, a: seq<byte>, b: seq<byte>, c: seq<byte>)
    ensures At(d, i, a + (b + c)) <==> At(d, i, a) && At(d, i + |a|, b) && At(d, i + |a| + |b|, c)
  {
    AtParts(d, i, a, b + c);
    AtParts(d, i + |a|, b, c);
  }

  lemma {:induction false} AtOne(d: seq<byte>, i: nat, b: byte)
    ensures At(d, i, [b]) <==> i < |d| && d[i] == b
  {
    assert [b][0] == b;
  }

  lemma {:induction false} AtSelf(bs: seq<byte>)
    ensures At(bs, 0, bs)
  {
  }
}
