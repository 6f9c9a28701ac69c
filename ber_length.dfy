/**
 * BER definite-form length octets as `ASN_Object` writes and reads them
 * (ITU-T X.690 section 8.1.3): the short form, one octet holding a length up
 * to 127 (section 8.1.3.4), and the long form, an octet 0x80 | k followed by
 * the k octets of the length, most significant first (section 8.1.3.5).
 * Lengths are PHP integers, so they never exceed `PhpIntMax`.
 */
module BerLength {

  newtype byte = x: int | 0 <= x < 256

  /** PHP_INT_MAX on a 64-bit platform. */
  const PhpIntMax: nat := 0x7FFF_FFFF_FFFF_FFFF

  /** PHP's `chr($n)`: the octet holding the low eight bits of `$n`. */
  function Chr(n: int): (c: byte)
    ensures c as int == n % 256
  {
    (n % 256) as byte
  }

  /** `$n >> (8 * $s)` for a non-negative `$n`: `s` successive shifts by eight bits. */
  function Shr(n: nat, s: nat): nat
  {
    if s == 0 then n else Shr(n / 256, s - 1)
  }

  function Pow256(k: nat): (p: nat)
    ensures p >= 1
  {
    if k == 0 then 1 else 256 * Pow256(k - 1)
  }

  /** How often `$n = $n >> 8` runs before `$n` reaches 0. */
  function ByteLength(n: nat): nat
  {
    if n == 0 then 0 else 1 + ByteLength(n / 256)
  }

  /**
   * The number of length octets `getNumberOfLengthOctets` computes for a
   * content length: one in short form, one plus the byte count in long form.
   */
  function LengthOctetCount(n: nat): (k: nat)
    ensures k >= 1
    ensures k == 1 <==> n <= 127
  {
    if n <= 127 then 1 else 1 + ByteLength(n)
  }

  /**
   * `chr(0x80 | $m)`: the low eight bits of `$m` with bit 8 set, the first
   * octet of the long form announcing `m` more octets.
   */
  function LongFormMarker(m: nat): (r: byte)
    ensures IsLongForm(r) && LongFormCount(r) == m % 0x80
  {
    LowSevenBits(m);
    var low := m % 256;
    (if low >= 0x80 then low else low + 0x80) as byte
  }

  /** The low seven bits of `m` are the low seven bits of its low octet. */
  lemma LowSevenBits(m: nat)
    ensures (m % 256) % 0x80 == m % 0x80
  {
    var q, low := m / 256, m % 256;
    assert m == 0x80 * (2 * q) + low;
  }

  /** `($c & 0x80) != 0`: bit 8 of the first length octet is set, announcing the long form. */
  predicate IsLongForm(c: byte)
  {
    c >= 0x80
  }

  /** `$c & 0x7F`: the low seven bits, how many length octets follow a long-form first octet. */
  function LongFormCount(c: byte): (k: nat)
    ensures k < 0x80
    ensures IsLongForm(c) ==> c as int == 0x80 + k
  {
    c as nat % 0x80
  }

  /** The octets `chr($n >> 8 * s)` for s from `hi - 1` down to `lo`. */
  function ShiftedOctets(n: nat, hi: nat, lo: nat): seq<byte>
    decreases hi - lo
  {
    if lo >= hi then [] else ShiftedOctets(n, hi, lo + 1) + [Chr(Shr(n, lo))]
  }

  /**
   * `createLengthPart` once it holds the content length `n` and the count
   * `k` of length octets: always exactly `k` octets.
   */
  function LengthPart(k: nat, n: nat): (r: seq<byte>)
    requires k >= 1
    ensures |r| == k
  {
    if k == 1 then
      [Chr(n)]
    else
      ShiftedOctetsLength(n, k - 1, 0);
      [LongFormMarker(k - 1)] + ShiftedOctets(n, k - 1, 0)
  }

  /** The length octets written for content length `n` when the count belongs to `n`. */
  function EncodeLength(n: nat): seq<byte>
  {
    LengthPart(LengthOctetCount(n), n)
  }

  /** The accumulation `$v = ($v << 8) + ord($octet)` over a run of octets, from 0. */
  function BigEndianValue(octets: seq<byte>): nat
  {
    if octets == [] then 0 else BigEndianValue(octets[..|octets| - 1]) * 256 + octets[|octets| - 1] as nat
  }

  /** How many octets the length field that starts with `first` occupies. */
  function LengthFieldSize(first: byte): nat
  {
    if IsLongForm(first) then 1 + LongFormCount(first) else 1
  }

  /**
   * The length that `parseContentLength` reads from the field starting at
   * offset `o`: the first octet itself in short form, below 128, or the
   * value of the octets it announces in long form, below 256 to their count.
   */
  function DecodedLength(buf: seq<byte>, o: nat): (n: nat)
    requires o < |buf| && o + LengthFieldSize(buf[o]) <= |buf|
    ensures !IsLongForm(buf[o]) ==> n == buf[o] as nat && n < 0x80
    ensures IsLongForm(buf[o]) ==> n < Pow256(LongFormCount(buf[o]))
  {
    if IsLongForm(buf[o]) then
      var octets := buf[o + 1..o + LengthFieldSize(buf[o])];
      BigEndianValueBound(octets);
      BigEndianValue(octets)
    else
      buf[o] as nat
  }

  /** `k` octets accumulate to a value below 256 to the `k`. */
  lemma {:induction false} BigEndianValueBound(octets: seq<byte>)
    ensures BigEndianValue(octets) < Pow256(|octets|)
  {
    if octets != [] {
      var init := octets[..|octets| - 1];
      BigEndianValueBound(init);
      ShiftByte(BigEndianValue(init), octets[|octets| - 1] as nat, Pow256(|init|));
    }
  }

  /** A value below `p`, shifted by one octet and extended by another, is below `256 * p`. */
  lemma ShiftByte(v: nat, d: nat, p: nat)
    requires v < p && d < 256
    ensures v * 256 + d < 256 * p
  {
    assert (v + 1) * 256 <= p * 256;
  }

  lemma {:induction false} ShiftedOctetsLength(n: nat, hi: nat, lo: nat)
    ensures |ShiftedOctets(n, hi, lo)| == if lo >= hi then 0 else hi - lo
    decreases hi - lo
  {
    if lo < hi {
      ShiftedOctetsLength(n, hi, lo + 1);
    }
  }

  /** One more byte shift is one more division by 256. */
  lemma {:induction false} ShrStep(n: nat, s: nat)
    ensures Shr(n, s + 1) == Shr(n, s) / 256
  {
    if s > 0 {
      ShrStep(n / 256, s - 1);
    }
  }

  /** Shifting `n` right by its byte length leaves nothing. */
  lemma {:induction false} ShrByteLength(n: nat)
    ensures Shr(n, ByteLength(n)) == 0
  {
    if n > 0 {
      ShrByteLength(n / 256);
    }
  }

  /**
   * The byte length is the minimal number of big-endian octets of `n`:
   * `n` fits in that many octets and not in one fewer.
   */
  lemma {:induction false} ByteLengthMinimal(n: nat)
    ensures n < Pow256(ByteLength(n))
    ensures n > 0 ==> Pow256(ByteLength(n) - 1) <= n
  {
    if n > 0 {
      ByteLengthMinimal(n / 256);
    }
  }

  lemma {:induction false} Pow256Monotone(a: nat, b: nat)
    requires a <= b
    ensures Pow256(a) <= Pow256(b)
  {
    if a < b {
      Pow256Monotone(a, b - 1);
    }
  }

  /** A PHP integer takes at most eight octets. */
  lemma PhpIntByteLength(n: nat)
    requires n <= PhpIntMax
    ensures ByteLength(n) <= 8
  {
    ByteLengthMinimal(n);
    assert Pow256(8) == 0x1_0000_0000_0000_0000;
    if ByteLength(n) > 8 {
      Pow256Monotone(8, ByteLength(n) - 1);
    }
  }

  /** Reading back the shifted octets of `n` reassembles `n` shifted by `lo` bytes. */
  lemma {:induction false} ShiftedOctetsValue(n: nat, hi: nat, lo: nat)
    requires lo <= hi && Shr(n, hi) == 0
    ensures BigEndianValue(ShiftedOctets(n, hi, lo)) == Shr(n, lo)
    decreases hi - lo
  {
    if lo < hi {
      var rest := ShiftedOctets(n, hi, lo + 1);
      var octets := rest + [Chr(Shr(n, lo))];
      assert octets[..|octets| - 1] == rest;
      ShiftedOctetsValue(n, hi, lo + 1);
      ShrStep(n, lo);
    }
  }

  /** The octets of `n` in `k` octets: `chr($n >> 8*(k-1))`, ..., `chr($n >> 0)`. */
  lemma {:induction false} BigEndianOctetsValue(n: nat)
    ensures BigEndianValue(ShiftedOctets(n, ByteLength(n), 0)) == n
  {
    ShrByteLength(n);
    ShiftedOctetsValue(n, ByteLength(n), 0);
  }

  /** Short form: a length up to 127 is the single octet holding it. */
  lemma EncodeLengthShortForm(n: nat)
    requires n <= 127
    ensures EncodeLength(n) == [n as byte]
    ensures !IsLongForm(n as byte) && LengthFieldSize(n as byte) == 1
  {
  }

  /**
   * Long form: a length above 127 is the octet 0x80 | k announcing the k
   * octets that follow, and those octets spell the length, most significant
   * first, in the minimal number of octets.
   */
  lemma EncodeLengthLongForm(n: nat)
    requires 127 < n <= PhpIntMax
    ensures var e := EncodeLength(n);
            && |e| == 1 + ByteLength(n)
            && e[0] as int == 0x80 + ByteLength(n)
            && IsLongForm(e[0]) && LongFormCount(e[0]) == ByteLength(n)
            && BigEndianValue(e[1..]) == n
            && Pow256(ByteLength(n) - 1) <= n < Pow256(ByteLength(n))
  {
    var k := ByteLength(n);
    PhpIntByteLength(n);
    ByteLengthMinimal(n);
    MarkerBits(k);
    BigEndianOctetsValue(n);
    assert EncodeLength(n)[1..] == ShiftedOctets(n, k, 0);
  }

  /** For a count below 128 the marker octet is 0x80 + count and decodes back to it. */
  lemma MarkerBits(m: nat)
    requires m < 128
    ensures LongFormMarker(m) as int == 0x80 + m
    ensures IsLongForm(LongFormMarker(m)) && LongFormCount(LongFormMarker(m)) == m
  {
  }

  /**
   * Round trip: the length field written for `n`, wherever it sits in a
   * buffer, reads back as `n` and spans `LengthOctetCount(n)` octets.
   */
  lemma LengthRoundTrip(n: nat, buf: seq<byte>, o: nat)
    requires n <= PhpIntMax
    requires o + LengthOctetCount(n) <= |buf| && buf[o..o + LengthOctetCount(n)] == EncodeLength(n)
    ensures o < |buf| && LengthFieldSize(buf[o]) == LengthOctetCount(n)
    ensures DecodedLength(buf, o) == n
  {
    var e := EncodeLength(n);
    assert buf[o] == e[0];
    if n <= 127 {
      EncodeLengthShortForm(n);
    } else {
      EncodeLengthLongForm(n);
      var k := ByteLength(n);
      assert LengthOctetCount(n) == 1 + k && LongFormCount(buf[o]) == k;
      assert LengthFieldSize(buf[o]) == 1 + k;
      assert buf[o + 1..o + 1 + k] == e[1..];
      assert DecodedLength(buf, o) == BigEndianValue(buf[o + 1..o + 1 + k]);
    }
  }

  /** Accumulating a prefix of the octets never exceeds accumulating all of them. */
  lemma {:induction false} BigEndianPrefixBound(octets: seq<byte>, j: nat)
    requires j <= |octets|
    ensures BigEndianValue(octets[..j]) <= BigEndianValue(octets)
    decreases |octets| - j
  {
    if j < |octets| {
      var init := octets[..|octets| - 1];
      assert octets[..j] == init[..j];
      BigEndianPrefixBound(init, j);
    } else {
      assert octets[..j] == octets;
    }
  }

  /** The boundaries between one, two and three octets of length. */
  lemma LengthOctetCountBoundaries()
    ensures LengthOctetCount(127) == 1 && LengthOctetCount(128) == 2
    ensures LengthOctetCount(255) == 2 && LengthOctetCount(256) == 3
    ensures LengthOctetCount(65535) == 3 && LengthOctetCount(65536) == 4
  {
  }

  /** 300 is written as 0x82 0x01 0x2C. */
  lemma Encode300()
    ensures EncodeLength(300) == [0x82, 0x01, 0x2C]
  {
    MarkerBits(2);
    assert Shr(300, 1) == 1;
  }
}
