/**
 * WebSocket framing (RFC 6455 sections 5.2 and 5.3) over a chunked stream: `_mask` and
 * `_read_frame` of `experiments/25-webtorrent-handshake.py`.
 */
module WebSocket {
  import opened Bytes
  import opened Text
  import opened Stream

  const MAX_FRAME := 65536
  const FIN_TEXT: byte := 129
  const MASK_BIT: byte := 128

  // ---- masking ------------------------------------------------------------------

  function Pow2(bits: nat): (p: nat)
    ensures p > 0
  {
    if bits == 0 then 1 else 2 * Pow2(bits - 1)
  }

  /** Bitwise exclusive or of two numbers of so many bits, least significant bit first. */
  function XorBits(a: nat, b: nat, bits: nat): (x: nat)
    ensures x < Pow2(bits)
  {
    if bits == 0 then 0 else (a + b) % 2 + 2 * XorBits(a / 2, b / 2, bits - 1)
  }

  function Xor(a: byte, b: byte): byte {
    assert Pow2(8) == 256 by { assert Pow2(4) == 16; }
    XorBits(a, b, 8)
  }

  lemma {:induction false} LowBit(a: nat, b: nat)
    ensures ((a + b) % 2 + b) % 2 == a % 2
    ensures (a + b) % 2 == a % 2 <==> b % 2 == 0
  {
  }

  lemma {:induction false} Halves(low: nat, high: nat)
    requires low < 2
    ensures (low + 2 * high) / 2 == high && (low + 2 * high) % 2 == low
  {
  }

  lemma {:induction false} XorBitsTwice(a: nat, b: nat, bits: nat)
    requires a < Pow2(bits) && b < Pow2(bits)
    ensures XorBits(XorBits(a, b, bits), b, bits) == a
    ensures XorBits(a, b, bits) == a <==> b == 0
  {
    if bits > 0 {
      var rest := XorBits(a / 2, b / 2, bits - 1);
      XorBitsTwice(a / 2, b / 2, bits - 1);
      LowBit(a, b);
      Halves((a + b) % 2, rest);
      SumParity(a, b, rest);
    }
  }

  lemma {:induction false} SumParity(a: nat, b: nat, rest: nat)
    ensures ((a + b) % 2 + 2 * rest + b) % 2 == ((a + b) % 2 + b) % 2
  {
  }

  lemma {:induction false} XorTwice(a: byte, b: byte)
    ensures Xor(Xor(a, b), b) == a
    ensures Xor(a, b) == a <==> b == 0
  {
    assert Pow2(8) == 256 by { assert Pow2(4) == 16; }
    XorBitsTwice(a, b, 8);
  }

  lemma {:induction false} XorBitsStep(a: nat, b: nat, bits: nat)
    requires bits > 0
    ensures var x := XorBits(a, b, bits);
            x % 2 == (a + b) % 2 && x / 2 == XorBits(a / 2, b / 2, bits - 1)
  {
    Halves((a + b) % 2, XorBits(a / 2, b / 2, bits - 1));
  }

  /** The bit of `x` worth `unit`. */
  function Bit(x: nat, unit: nat): (b: nat)
    requires unit > 0
    ensures b < 2
  {
    x / unit % 2
  }

  lemma {:induction false} BitOf(a: nat, b: nat, bits: nat, k: nat)
    requires k < bits
    ensures Bit(XorBits(a, b, bits), Pow2(k)) == (Bit(a, Pow2(k)) + Bit(b, Pow2(k))) % 2
  {
    hide XorBits, Pow2, Bit;
    var x := XorBits(a, b, bits);
    XorBitsStep(a, b, bits);
    Pow2Is(k);
    if k > 0 {
      BitOf(a / 2, b / 2, bits - 1, k - 1);
      HalfBit(a, Pow2(k - 1), Pow2(k));
      HalfBit(b, Pow2(k - 1), Pow2(k));
      HalfBit(x, Pow2(k - 1), Pow2(k));
    } else {
      LastBit(x, a, b);
    }
  }

  lemma {:induction false} LastBit(x: nat, a: nat, b: nat)
    requires x % 2 == (a + b) % 2
    ensures Bit(x, 1) == (Bit(a, 1) + Bit(b, 1)) % 2
  {
  }

  lemma {:induction false} HalfBit(x: nat, p: nat, unit: nat)
    requires p > 0 && unit == 2 * p
    ensures Bit(x, unit) == Bit(x / 2, p)
  {
    HalfTimes(x, p);
  }

  lemma {:induction false} Pow2Is(k: nat)
    ensures Pow2(k) == if k == 0 then 1 else 2 * Pow2(k - 1)
  {
  }

  lemma {:induction false} HalfTimes(a: nat, p: nat)
    requires p > 0
    ensures a / (2 * p) == a / 2 / p
  {
    var q, r := a / (2 * p), a % (2 * p);
    assert a == 2 * (p * q) + r;
    assert a / 2 == p * q + r / 2;
    var h := a / 2;
    SmallMultiple(p, h / p - q, r / 2 - h % p) by {
      assert h == p * (h / p) + h % p;
      assert p * (h / p - q) == p * (h / p) - p * q;
    }
  }

  lemma {:induction false} SmallMultiple(p: int, t: int, u: int)
    requires u == p * t && -p < u < p
    ensures t == 0
  {
    if t >= 1 {
      AtLeastOnce(p, t);
    }
    if t <= -1 {
      AtLeastOnce(p, -t);
    }
  }

  lemma {:induction false} AtLeastOnce(p: int, t: int)
    requires t >= 1
    ensures p > 0 ==> p * t >= p && p * -t <= -p
  {
  }

  lemma {:induction false} UnitOf(unit: nat) returns (k: nat)
    requires unit in {1, 2, 4, 8, 16, 32, 64, 128}
    ensures k < 8 && Pow2(k) == unit
  {
    assert Pow2(4) == 16 && Pow2(5) == 32 && Pow2(6) == 64 && Pow2(7) == 128;
    k := if unit == 1 then 0 else if unit == 2 then 1 else if unit == 4 then 2 else if unit == 8 then 3
         else if unit == 16 then 4 else if unit == 32 then 5 else if unit == 64 then 6 else 7;
  }

  lemma {:induction false} XorIs(a: byte, b: byte)
    ensures Xor(a, b) as int == XorBits(a, b, 8)
  {
    hide XorBits, Pow2;
  }

  /** Exclusive or, bit by bit: the bit worth `unit` is set in exactly one of the two. */
  lemma {:induction false} XorIsBitwise(a: byte, b: byte, unit: nat)
    requires unit in {1, 2, 4, 8, 16, 32, 64, 128}
    ensures Xor(a, b) / unit % 2 == 1 <==> (a / unit % 2 == 1) != (b / unit % 2 == 1)
  {
    hide XorBits, Pow2, Xor;
    var k := UnitOf(unit);
    XorIs(a, b);
    BitOf(a, b, 8, k);
    assert Bit(Xor(a, b), unit) == Xor(a, b) / unit % 2;
    assert Bit(a, unit) == a / unit % 2 && Bit(b, unit) == b / unit % 2;
  }

  /** Section 5.3: each byte against the key, in turn. Masking twice is unmasking. */
  function Masked(payload: seq<byte>, key: seq<byte>): (m: seq<byte>)
    requires |key| == 4
    ensures |m| == |payload|
  {
    seq(|payload|, i requires 0 <= i < |payload| => Xor(payload[i], key[i % 4]))
  }

  lemma {:induction false} Unmask(payload: seq<byte>, key: seq<byte>)
    requires |key| == 4
    ensures Masked(Masked(payload, key), key) == payload
  {
    forall i | 0 <= i < |payload| ensures Masked(Masked(payload, key), key)[i] == payload[i] {
      XorTwice(payload[i], key[i % 4]);
    }
  }

  // ---- lengths ------------------------------------------------------------------

  /** The three length forms, below a mask bit of 0 or 128. */
  function LengthBytes(n: nat, mask: byte): (bs: seq<byte>)
    requires n < 0x1_0000_0000_0000_0000 && mask in {0, MASK_BIT}
  {
    if n < 126 then [mask + n]
    else if n < 0x1_0000 then Widths(); [mask + 126] + ToBigEndian(n, 2)
    else Widths(); [mask + 127] + ToBigEndian(n, 8)
  }

  /** A length field read: the length, whether the mask bit is set, and what follows. */
  datatype Length = Length(n: nat, masked: bool, rest: seq<byte>)

  function ReadLength(stream: seq<byte>): Option<Length> {
    if stream == [] then None
    else
      var code, masked, rest := stream[0] % 128, stream[0] >= MASK_BIT, stream[1..];
      if code == 126 then
        if |rest| < 2 then None else Some(Length(FromBigEndian(rest[..2]), masked, rest[2..]))
      else if code == 127 then
        if |rest| < 8 then None else Some(Length(FromBigEndian(rest[..8]), masked, rest[8..]))
      else Some(Length(code, masked, rest))
  }

  lemma {:induction false} LengthRead(n: nat, mask: byte, rest: seq<byte>)
    requires n < 0x1_0000_0000_0000_0000 && mask in {0, MASK_BIT}
    ensures ReadLength(LengthBytes(n, mask) + rest) == Some(Length(n, mask == MASK_BIT, rest))
  {
    var bs := LengthBytes(n, mask);
    var stream := bs + rest;
    assert stream[0] == bs[0] && stream[1..] == bs[1..] + rest;
    if n >= 126 {
      Widths();
      var width := if n < 0x1_0000 then 2 else 8;
      UnpackPack(n, width);
      assert bs[1..] == ToBigEndian(n, width);
      assert stream[1..][..width] == bs[1..] && stream[1..][width..] == rest;
    } else {
      assert stream[1..] == rest;
    }
  }

  // ---- the client's frame ----------------------------------------------------------

  /** The frame `_mask` builds under a key. */
  function ClientFrame(payload: seq<byte>, key: seq<byte>): seq<byte>
    requires |key| == 4 && |payload| < 0x1_0000_0000_0000_0000
  {
    [FIN_TEXT] + (LengthBytes(|payload|, MASK_BIT) + (key + Masked(payload, key)))
  }

  /** `_mask`, its header built up in place. */
  method Mask(payload: seq<byte>, key: seq<byte>) returns (frame: seq<byte>)
    requires |key| == 4 && |payload| < 0x1_0000_0000_0000_0000
    ensures frame == ClientFrame(payload, key)
  {
    Widths();
    var masked := Masked(payload, key);
    var header: seq<byte> := [FIN_TEXT];
    var length := |payload|;
    if length < 126 {
      header := header + [MASK_BIT + length];
    } else if length < 0x1_0000 {
      header := header + [MASK_BIT + 126] + ToBigEndian(length, 2);
    } else {
      header := header + [MASK_BIT + 127] + ToBigEndian(length, 8);
    }
    assert header == [FIN_TEXT] + LengthBytes(length, MASK_BIT);
    assert header + key + masked == [FIN_TEXT] + (LengthBytes(length, MASK_BIT) + (key + masked));
    return header + key + masked;
  }

  /** Bytes before the key: two, and the longer length's two or eight. */
  function HeaderSize(n: nat): nat { if n < 126 then 2 else if n < 65536 then 4 else 10 }

  lemma {:induction false} LengthLayout(n: nat)
    requires n < 0x1_0000_0000_0000_0000
    ensures var bs, h := LengthBytes(n, MASK_BIT), HeaderSize(n);
            && |bs| == h - 1 && bs[0] == 128 + (if h == 2 then n else if h == 4 then 126 else 127)
            && (h > 2 ==> FromBigEndian(bs[1..]) == n)
  {
    hide FromBigEndian, ToBigEndian, Pow256;
    Widths();
    if n >= 126 {
      var width := if n < 0x1_0000 then 2 else 8;
      UnpackPack(n, width);
      assert LengthBytes(n, MASK_BIT)[1..] == ToBigEndian(n, width);
    }
  }

  /** Byte for byte what section 5.2 asks of a client's single text frame. */
  lemma {:induction false} ClientFrameLayout(payload: seq<byte>, key: seq<byte>)
    requires |key| == 4 && |payload| < 0x1_0000_0000_0000_0000
    ensures var f, n, h := ClientFrame(payload, key), |payload|, HeaderSize(|payload|);
            && |f| == h + 4 + n
            && f[0] == 129 && f[1] == 128 + (if h == 2 then n else if h == 4 then 126 else 127)
            && (h > 2 ==> FromBigEndian(f[2..h]) == n)
            && f[h..h + 4] == key
            && forall i :: 0 <= i < n ==> f[h + 4 + i] == Xor(payload[i], key[i % 4])
  {
    hide Xor, LengthBytes, FromBigEndian;
    var n, h := |payload|, HeaderSize(|payload|);
    LengthLayout(n);
    FrameParts([FIN_TEXT], LengthBytes(n, MASK_BIT), key, Masked(payload, key));
  }

  lemma {:induction false} FrameParts(a: seq<byte>, b: seq<byte>, c: seq<byte>, d: seq<byte>)
    requires |a| == 1 && |b| > 0
    ensures var (f, h) := (a + (b + (c + d)), 1 + |b|);
            && |f| == h + |c| + |d| && f[0] == a[0] && f[1] == b[0] && f[2..h] == b[1..]
            && f[h..h + |c|] == c && forall i :: 0 <= i < |d| ==> f[h + |c| + i] == d[i]
  {
  }

  /** A server's reading of a client's frame, as the RFC has it: the payload and what follows. */
  function ServerReads(stream: seq<byte>): Option<(seq<byte>, seq<byte>)> {
    if stream == [] then None
    else match ReadLength(stream[1..])
      case None => None
      case Some(l) =>
        if !l.masked || |l.rest| < 4 + l.n then None
        else Some((Masked(l.rest[4..4 + l.n], l.rest[..4]), l.rest[4 + l.n..]))
  }

  /** Whatever the key, a server recovers the payload, in all three length forms. */
  lemma {:induction false} MaskedFrameRecovered(payload: seq<byte>, key: seq<byte>, after: seq<byte>)
    requires |key| == 4 && |payload| < 0x1_0000_0000_0000_0000
    ensures ServerReads(ClientFrame(payload, key) + after) == Some((payload, after))
  {
    hide LengthBytes, ReadLength, Masked;
    var masked := Masked(payload, key);
    var stream := ClientFrame(payload, key) + after;
    var rest := key + masked + after;
    assert stream[1..] == LengthBytes(|payload|, MASK_BIT) + rest;
    LengthRead(|payload|, MASK_BIT, rest);
    assert rest[..4] == key && rest[4..4 + |payload|] == masked && rest[4 + |payload|..] == after;
    Unmask(payload, key);
  }

  // ---- the server's frame -----------------------------------------------------------

  datatype Frame = Closed | TooLong(length: nat) | Frame(payload: seq<byte>, rest: seq<byte>)

  /** What `_read_frame` makes of everything the peer will send. */
  function FrameOf(stream: seq<byte>): Frame {
    if |stream| < 2 then Closed
    else match ReadLength(stream[1..])
      case None => Closed
      case Some(l) =>
        if l.masked && |l.rest| < 4 then Closed
        else
          var rest := if l.masked then l.rest[4..] else l.rest;
          if l.n > MAX_FRAME then TooLong(l.n)
          else if |rest| < l.n then Closed
          else Frame(rest[..l.n], rest[l.n..])
  }

  /** The payload length a stream announces, of which it holds the header. */
  function Announced(stream: seq<byte>): nat
    requires |stream| >= 2
    requires |stream| >= Before(stream[1])
  {
    var code := stream[1] % 128;
    if code == 126 then FromBigEndian(stream[2..4])
    else if code == 127 then FromBigEndian(stream[2..10])
    else code
  }

  /** Bytes before a mask key or the payload. */
  function Before(second: byte): nat {
    if second % 128 == 126 then 4 else if second % 128 == 127 then 10 else 2
  }

  lemma {:induction false} LengthIs(stream: seq<byte>)
    requires |stream| >= 2
    ensures var h := Before(stream[1]);
            ReadLength(stream[1..])
              == if |stream| < h then None else Some(Length(Announced(stream), stream[1] >= 128, stream[h..]))
  {
    hide FromBigEndian;
    var h := Before(stream[1]);
    SliceOfRest(stream, 1, 1);
    if |stream| >= h {
      SliceOfRest(stream, 2, h - 2);
    }
  }

  /**
   * Every reading, exactly, in the bytes of the stream: the header and a mask key if the second
   * byte has its top bit set, then the payload, unless more than 65536 bytes are announced.
   */
  lemma {:induction false} FrameIs(stream: seq<byte>)
    ensures |stream| < 2 ==> FrameOf(stream) == Closed
    ensures |stream| >= 2 ==>
              var start := Before(stream[1]) + (if stream[1] >= 128 then 4 else 0);
              if |stream| < start then FrameOf(stream) == Closed
              else
                var n := Announced(stream);
                FrameOf(stream) == if n > 65536 then TooLong(n)
                                   else if |stream| < start + n then Closed
                                   else Frame(stream[start..start + n], stream[start + n..])
  {
    hide ReadLength, Announced;
    if |stream| >= 2 {
      var h := Before(stream[1]);
      var start := h + (if stream[1] >= 128 then 4 else 0);
      LengthIs(stream);
      if |stream| >= start {
        SliceOfRest(stream, h, start - h);
        if |stream| >= start + Announced(stream) {
          SliceOfRest(stream, start, Announced(stream));
        }
      }
    }
  }

  lemma {:induction false} SliceOfRest(s: seq<byte>, i: nat, n: nat)
    requires i + n <= |s|
    ensures s[i..][..n] == s[i..i + n] && s[i..][n..] == s[i + n..]
  {
  }

  /** `_read_frame`: the answer does not depend on how the network cuts the bytes up. */
  method ReadFrame(sock: Socket) returns (r: Frame)
    modifies sock
    ensures r == FrameOf(old(sock.pending))
    ensures r.Frame? ==> sock.pending == r.rest
  {
    ghost var stream := sock.pending;
    var header := sock.ReadExactly(2);
    if header.None? {
      return Closed;
    }
    var code := header.value[1] % 128;
    var length: nat := code;
    assert stream[1..][0] == header.value[1] && stream[1..][1..] == sock.pending;
    if code == 126 {
      var more := sock.ReadExactly(2);
      if more.None? {
        return Closed;
      }
      length := FromBigEndian(more.value);
    } else if code == 127 {
      var more := sock.ReadExactly(8);
      if more.None? {
        return Closed;
      }
      length := FromBigEndian(more.value);
    }
    if header.value[1] >= MASK_BIT {
      var key := sock.ReadExactly(4);
      if key.None? {
        return Closed;
      }
    }
    if length > MAX_FRAME {
      return TooLong(length);
    }
    var payload := sock.ReadExactly(length);
    if payload.None? {
      return Closed;
    }
    return Frame(payload.value, sock.pending);
  }

  /** A server's unmasked frame, with any first byte. */
  function ServerFrame(first: byte, payload: seq<byte>): seq<byte>
    requires |payload| < 0x1_0000_0000_0000_0000
  {
    [first] + (LengthBytes(|payload|, 0) + payload)
  }

  /**
   * A server's frame within the cap is read whole and the stream is left exactly at its
   * end; over the cap its length is reported; cut anywhere, it is no frame at all.
   */
  lemma {:induction false} ServerFrameRead(first: byte, payload: seq<byte>, after: seq<byte>)
    requires |payload| < 0x1_0000_0000_0000_0000
    ensures FrameOf(ServerFrame(first, payload) + after)
         == if |payload| <= 65536 then Frame(payload, after) else TooLong(|payload|)
  {
    hide LengthBytes, ReadLength;
    var stream := ServerFrame(first, payload) + after;
    var rest := payload + after;
    assert stream[1..] == LengthBytes(|payload|, 0) + rest;
    LengthRead(|payload|, 0, rest);
    assert |stream[1..]| > 0 by { assert |LengthBytes(|payload|, 0)| > 0 by { LengthNonEmpty(|payload|); } }
    if |payload| <= MAX_FRAME {
      assert rest[..|payload|] == payload && rest[|payload|..] == after;
    }
  }

  lemma {:induction false} LengthNonEmpty(n: nat)
    requires n < 0x1_0000_0000_0000_0000
    ensures |LengthBytes(n, 0)| > 0
  {
  }

  lemma {:induction false} LengthCut(n: nat, mask: byte, cut: nat)
    requires n < 0x1_0000_0000_0000_0000 && mask in {0, MASK_BIT} && cut < |LengthBytes(n, mask)|
    ensures ReadLength(LengthBytes(n, mask)[..cut]) == None
  {
    hide Pow256, ToBigEndian;
    var bs := LengthBytes(n, mask);
    assert cut > 0 ==> bs[..cut][0] == bs[0];
  }

  /** A frame read from some bytes is read from those bytes and no fewer. */
  lemma {:induction false} CutFrameIsClosed(first: byte, payload: seq<byte>, cut: nat)
    requires |payload| <= 65536 && cut < |ServerFrame(first, payload)|
    ensures FrameOf(ServerFrame(first, payload)[..cut]) == Closed
  {
    hide LengthBytes, ReadLength;
    var whole := ServerFrame(first, payload);
    var short := whole[..cut];
    var bs := LengthBytes(|payload|, 0);
    assert whole[1..] == bs + payload;
    if cut >= 2 {
      assert short[1..] == whole[1..][..cut - 1];
      if cut < 1 + |bs| {
        assert short[1..] == bs[..cut - 1];
        LengthCut(|payload|, 0, cut - 1);
      } else {
        assert short[1..] == bs + payload[..cut - 1 - |bs|];
        LengthRead(|payload|, 0, payload[..cut - 1 - |bs|]);
      }
    }
  }

  lemma {:induction false} MaskedAsSent(payload: seq<byte>, key: seq<byte>)
    requires |key| == 4
    ensures Masked(payload, key) == payload <==> forall i :: 0 <= i < |payload| && i < 4 ==> key[i] == 0
  {
    hide Xor;
    var masked := Masked(payload, key);
    forall i | 0 <= i < |payload| ensures masked[i] == payload[i] <==> key[i % 4] == 0 {
      XorTwice(payload[i], key[i % 4]);
    }
    if masked == payload {
      forall i | 0 <= i < |payload| && i < 4 ensures key[i] == 0 {
        assert i % 4 == i && masked[i] == payload[i];
      }
    }
  }

  /**
   * The code discards the key of a masked server frame and hands its payload over still
   * masked: it comes out as it went in only under a key that masks nothing.
   */
  lemma {:induction false} MaskedFrameStaysMasked(payload: seq<byte>, key: seq<byte>, after: seq<byte>)
    requires |key| == 4 && |payload| <= 65536
    ensures FrameOf(ClientFrame(payload, key) + after) == Frame(Masked(payload, key), after)
    ensures Masked(payload, key) == payload <==> forall i :: 0 <= i < |payload| && i < 4 ==> key[i] == 0
  {
    hide LengthBytes, ReadLength, Masked;
    var masked := Masked(payload, key);
    var stream := ClientFrame(payload, key) + after;
    var rest := key + masked + after;
    assert stream[1..] == LengthBytes(|payload|, MASK_BIT) + rest;
    LengthRead(|payload|, MASK_BIT, rest);
    assert rest[4..] == masked + after;
    assert rest[4..][..|payload|] == masked && rest[4..][|payload|..] == after;
    MaskedAsSent(payload, key);
  }
}
