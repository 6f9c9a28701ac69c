/**
 * `ASN_Object`, the base of every ASN.1 type: it writes a record as one
 * identifier octet, the BER length octets and the encoded content, caches
 * the content length and the number of length octets, and offers the two
 * parse helpers every decoder calls.  The three abstract hooks of a subtype
 * (`getType`, `calculateContentLength`, `getEncodedValue`) are the constant
 * fields `typeTag`, `calculatedLength` and `encodedValue`.
 */
module AsnObject {
  import opened Wrappers
  import opened BerLength

  /** `ASN1ParserException`, reduced to the offset it reports. */
  datatype ParserError = ParserError(offset: int)

  /** The first argument of `parseIdentifier`: a raw octet (a one-character string) or a number. */
  datatype IdentifierOctet = RawOctet(octet: byte) | Ordinal(n: int)

  /** The identifier the argument stands for: `ord` of a raw octet, a number as it is. */
  function OrdinalOf(id: IdentifierOctet): int
  {
    match id
    case RawOctet(c) => c as int
    case Ordinal(n) => n
  }

  /** A raw octet that is a decimal digit character, '0' (0x30) to '9' (0x39). */
  predicate IsDigitOctet(c: byte)
  {
    0x30 <= c <= 0x39
  }

  /**
   * `parseIdentifier` as written: `is_numeric` holds for a number and also
   * for a raw octet that is a digit character, so such an octet is compared
   * by the digit it spells rather than by its `ord`.
   */
  function ParseIdentifierAsWritten(id: IdentifierOctet, expected: int, offset: int): (r: Outcome<ParserError>)
    ensures r.Fail? ==> r.error == ParserError(offset)
    ensures !(id.RawOctet? && IsDigitOctet(id.octet)) ==> (r.Fail? <==> OrdinalOf(id) != expected)
  {
    var numeric := id.Ordinal? || IsDigitOctet(id.octet);
    var identifier := if !numeric then id.octet as int
                      else if id.Ordinal? then id.n
                      else id.octet as int - 0x30;
    if identifier != expected then Fail(ParserError(offset)) else Pass
  }

  /**
   * `parseIdentifier` as intended: a raw octet is always taken by its `ord`.
   * It fails, at the given offset, exactly when the identifier is not the
   * expected one, and otherwise does nothing.
   */
  function ParseIdentifier(id: IdentifierOctet, expected: int, offset: int): (r: Outcome<ParserError>)
    ensures r.Fail? <==> OrdinalOf(id) != expected
    ensures r.Fail? ==> r.error == ParserError(offset)
  {
    var identifier := OrdinalOf(id);
    if identifier != expected then Fail(ParserError(offset)) else Pass
  }

  /**
   * The two agree except on a raw digit octet compared with its own value or
   * with the digit it spells.
   */
  lemma ParseIdentifierDiscrepancy(id: IdentifierOctet, expected: int, offset: int)
    ensures ParseIdentifierAsWritten(id, expected, offset) != ParseIdentifier(id, expected, offset)
            <==> id.RawOctet? && IsDigitOctet(id.octet)
                 && (expected == id.octet as int || expected == id.octet as int - 0x30)
  {
  }

  /** The raw octet 0x30, the identifier of a SEQUENCE, is rejected when a SEQUENCE is expected. */
  lemma SequenceOctetRejected(offset: int)
    ensures ParseIdentifierAsWritten(RawOctet(0x30), 0x30, offset) == Fail(ParserError(offset))
    ensures ParseIdentifier(RawOctet(0x30), 0x30, offset) == Pass
  {
  }

  /**
   * `parseContentLength`: read the length field at `offsetIndex`, short or
   * long form, and fail when the length is below `minimumLength`.  The offset
   * cursor, passed by reference in the source, moves past the length octets
   * whether or not the check fails, and the error reports that offset.
   */
  method ParseContentLength(binaryData: seq<byte>, offsetIndex: nat, minimumLength: int)
    returns (r: Result<nat, ParserError>, newOffset: nat)
    requires offsetIndex < |binaryData|
    requires offsetIndex + LengthFieldSize(binaryData[offsetIndex]) <= |binaryData|
    requires DecodedLength(binaryData, offsetIndex) <= PhpIntMax
    ensures newOffset == offsetIndex + LengthFieldSize(binaryData[offsetIndex])
    ensures r.Failure? <==> DecodedLength(binaryData, offsetIndex) < minimumLength
    ensures r.Failure? ==> r.error == ParserError(newOffset)
    ensures r.Success? ==> r.value == DecodedLength(binaryData, offsetIndex)
  {
    var offset := offsetIndex;
    var first := binaryData[offset];
    var contentLength: nat := first as nat;
    offset := offset + 1;
    if IsLongForm(first) {
      var nrOfLengthOctets := LongFormCount(first);
      ghost var field := binaryData[offsetIndex + 1..offsetIndex + 1 + nrOfLengthOctets];
      contentLength := 0;
      var i := 0;
      while i < nrOfLengthOctets
        invariant 0 <= i <= nrOfLengthOctets
        invariant offset == offsetIndex + 1 + i
        invariant contentLength == BigEndianValue(field[..i])
      {
        assert field[..i + 1][..i] == field[..i];
        BigEndianPrefixBound(field, i + 1);
        // the shift and add stay within PHP's integer range
        assert contentLength * 256 + binaryData[offset] as nat <= PhpIntMax;
        contentLength := contentLength * 256 + binaryData[offset] as nat;
        offset := offset + 1;
        i := i + 1;
      }
      assert field[..nrOfLengthOctets] == field;
    }
    if contentLength < minimumLength {
      return Failure(ParserError(offset)), offset;
    }
    return Success(contentLength), offset;
  }

  /** The long form [0x82, 0x01, 0x2C] reads as 300 and moves the cursor past all three octets. */
  method ParseLength300() returns (r: Result<nat, ParserError>, newOffset: nat)
    ensures r == Success(300) && newOffset == 3
  {
    var data: seq<byte> := [0x82, 0x01, 0x2C];
    Encode300();
    LengthRoundTrip(300, data, 0);
    r, newOffset := ParseContentLength(data, 0, 0);
  }

  /**
   * A whole record: its identifier octet is accepted for its own type, its
   * length field reads back as the content length, and the content follows
   * right after the length octets.
   */
  lemma RecordRoundTrip(typeTag: int, contentLength: nat, content: seq<byte>)
    requires contentLength <= PhpIntMax
    ensures var record := [Chr(typeTag)] + EncodeLength(contentLength) + content;
            var k := LengthOctetCount(contentLength);
            && |record| == 1 + k + |content|
            && ParseIdentifier(RawOctet(record[0]), typeTag % 256, 0) == Pass
            && LengthFieldSize(record[1]) == k
            && DecodedLength(record, 1) == contentLength
            && record[1 + k..] == content
  {
    var e := EncodeLength(contentLength);
    var record := [Chr(typeTag)] + e + content;
    var k := LengthOctetCount(contentLength);
    assert record[1..1 + k] == e;
    LengthRoundTrip(contentLength, record, 1);
    assert record[1 + k..] == content;
  }

  /** The state of one `ASN_Object`: the subtype's hooks and the two caches. */
  class AsnObject {
    /** `getType()`. */
    const typeTag: int
    /** `calculateContentLength()`. */
    const calculatedLength: nat
    /** `getEncodedValue()`. */
    const encodedValue: seq<byte>

    /** The private field `contentLength`, unset until first queried. */
    var contentLength: Option<nat>
    /** The private field `nrOfLengthOctets`, unset until first queried. */
    var nrOfLengthOctets: Option<nat>

    /** The count of length octets is only ever cached after the content length. */
    ghost predicate Valid()
      reads this
    {
      nrOfLengthOctets.Some? ==> contentLength.Some? && nrOfLengthOctets.value >= 1
    }

    /** The cached count of length octets belongs to the cached content length. */
    ghost predicate Consistent()
      reads this
    {
      Valid() && (nrOfLengthOctets.Some? ==> nrOfLengthOctets.value == LengthOctetCount(contentLength.value))
    }

    /** The content length a query returns from this state. */
    ghost function NextContentLength(): nat
      reads this
    {
      if contentLength.Some? then contentLength.value else calculatedLength
    }

    /** The count of length octets a query returns from this state. */
    ghost function NextNrOfLengthOctets(): nat
      reads this
    {
      if nrOfLengthOctets.Some? then nrOfLengthOctets.value else LengthOctetCount(NextContentLength())
    }

    /** The record `getBinary` writes once both caches are set. */
    ghost function Binary(): seq<byte>
      reads this
      requires Valid() && nrOfLengthOctets.Some?
    {
      [Chr(typeTag)] + LengthPart(nrOfLengthOctets.value, contentLength.value) + encodedValue
    }

    constructor (typeTag: int, calculatedLength: nat, encodedValue: seq<byte>)
      ensures this.typeTag == typeTag && this.calculatedLength == calculatedLength
      ensures this.encodedValue == encodedValue
      ensures contentLength == None && nrOfLengthOctets == None
      ensures Consistent()
    {
      this.typeTag := typeTag;
      this.calculatedLength := calculatedLength;
      this.encodedValue := encodedValue;
      contentLength := None;
      nrOfLengthOctets := None;
    }

    /** `getContentLength`: ask the subtype on first use only, then answer from the cache. */
    method GetContentLength() returns (n: nat)
      requires Valid()
      modifies this
      ensures Valid()
      ensures n == old(NextContentLength()) && contentLength == Some(n)
      ensures nrOfLengthOctets == old(nrOfLengthOctets)
      ensures old(Consistent()) ==> Consistent()
    {
      if contentLength.None? {
        contentLength := Some(calculatedLength);
      }
      n := contentLength.value;
    }

    /**
     * `getNumberOfLengthOctets($contentLength)`: on first use count the octets
     * for the given length (for 0, which PHP's `== null` confuses with a
     * missing argument, for the cached length), then answer from the cache.
     */
    method GetNumberOfLengthOctets(n: nat) returns (k: nat)
      requires Valid() && contentLength.Some?
      modifies this
      ensures Valid() && contentLength == old(contentLength)
      ensures nrOfLengthOctets == Some(k)
      ensures k == if old(nrOfLengthOctets).Some? then old(nrOfLengthOctets).value
                   else LengthOctetCount(if n == 0 then contentLength.value else n)
      ensures old(Consistent()) && n == contentLength.value ==> Consistent()
    {
      if nrOfLengthOctets.None? {
        var length: nat := n;
        if length == 0 {
          length := GetContentLength();
        }
        var count: nat := 1;
        if length > 127 {
          // long form: one more octet per eight bits of the length
          var rest: nat := length;
          count := count + 1;
          rest := rest / 256;
          while rest > 0
            invariant count + ByteLength(rest) == 1 + ByteLength(length)
          {
            count := count + 1;
            rest := rest / 256;
          }
        }
        nrOfLengthOctets := Some(count);
      }
      k := nrOfLengthOctets.value;
    }

    /**
     * `setContentLength`: overwrite the cached content length; the count of
     * length octets is fixed for the new length only if it was not cached yet.
     */
    method SetContentLength(n: nat)
      requires Valid()
      modifies this
      ensures Valid() && contentLength == Some(n)
      ensures nrOfLengthOctets == Some(if old(nrOfLengthOctets).Some? then old(nrOfLengthOctets).value
                                       else LengthOctetCount(n))
      ensures Consistent() <==> old(nrOfLengthOctets).None? || old(nrOfLengthOctets).value == LengthOctetCount(n)
    {
      contentLength := Some(n);
      var k := GetNumberOfLengthOctets(n);
    }

    /**
     * `setContentLength` as its documentation intends: the count of length
     * octets is recomputed for the new length, so the caches always agree.
     */
    method SetContentLengthRecounted(n: nat)
      requires Valid()
      modifies this
      ensures contentLength == Some(n) && nrOfLengthOctets == Some(LengthOctetCount(n))
      ensures Consistent()
    {
      contentLength := Some(n);
      nrOfLengthOctets := None;
      var k := GetNumberOfLengthOctets(n);
    }

    /** `createLengthPart`: exactly as many octets as the cached count says. */
    method CreateLengthPart() returns (octets: seq<byte>)
      requires Valid()
      modifies this
      ensures Valid()
      ensures contentLength == Some(old(NextContentLength()))
      ensures nrOfLengthOctets == Some(old(NextNrOfLengthOctets()))
      ensures octets == LengthPart(nrOfLengthOctets.value, contentLength.value)
      ensures |octets| == nrOfLengthOctets.value
      ensures old(Consistent()) ==> Consistent()
    {
      var n := GetContentLength();
      var k := GetNumberOfLengthOctets(n);
      if k == 1 {
        octets := [Chr(n)];
      } else {
        octets := [LongFormMarker(k - 1)];
        var shiftLength: int := 8 * (k - 2);
        // the octets of bytes `remaining - 1` down to 0 are still to be written
        ghost var remaining: nat := k - 1;
        while shiftLength >= 0
          invariant remaining <= k - 1 && shiftLength == 8 * (remaining - 1)
          invariant octets == [LongFormMarker(k - 1)] + ShiftedOctets(n, k - 1, remaining)
        {
          assert shiftLength / 8 == remaining - 1;
          octets := octets + [Chr(Shr(n, shiftLength / 8))];
          shiftLength := shiftLength - 8;
          remaining := remaining - 1;
        }
      }
    }

    /** `getBinary`: the identifier octet, the length octets, the encoded content. */
    method GetBinary() returns (binary: seq<byte>)
      requires Valid()
      modifies this
      ensures Valid()
      ensures contentLength == Some(old(NextContentLength()))
      ensures nrOfLengthOctets == Some(old(NextNrOfLengthOctets()))
      ensures binary == Binary()
      ensures |binary| == 1 + nrOfLengthOctets.value + |encodedValue|
      ensures binary[0] as int == typeTag % 256
      ensures old(Consistent()) ==> Consistent()
      ensures Consistent() && contentLength.value <= PhpIntMax ==>
                && LengthFieldSize(binary[1]) == nrOfLengthOctets.value
                && DecodedLength(binary, 1) == contentLength.value
                && binary[1 + nrOfLengthOctets.value..] == encodedValue
    {
      binary := [Chr(typeTag)];
      var lengthPart := CreateLengthPart();
      binary := binary + lengthPart;
      binary := binary + encodedValue;
      if Consistent() && contentLength.value <= PhpIntMax {
        RecordRoundTrip(typeTag, contentLength.value, encodedValue);
      }
    }

    /** `getObjectLength`: one identifier octet, the length octets and the content. */
    method GetObjectLength() returns (length: nat)
      requires Valid()
      modifies this
      ensures Valid()
      ensures contentLength == Some(old(NextContentLength()))
      ensures nrOfLengthOctets == Some(old(NextNrOfLengthOctets()))
      ensures length == 1 + nrOfLengthOctets.value + contentLength.value
      ensures |encodedValue| == contentLength.value ==> length == |Binary()|
      ensures old(Consistent()) ==> Consistent()
    {
      var nrOfIdentifierOctets := 1;
      var n := GetContentLength();
      var k := GetNumberOfLengthOctets(n);
      length := nrOfIdentifierOctets + k + n;
    }
  }

  /**
   * Once `getObjectLength` has cached a one-octet count for an empty content,
   * `setContentLength(300)` leaves that count in place, so `getBinary` writes
   * the single length octet `chr(300)`, which reads back as 44.
   */
  method StaleLengthOctetCount() returns (binary: seq<byte>)
    ensures binary == [0x04, 44]
    ensures DecodedLength(binary, 1) == 44
  {
    var o := new AsnObject(0x04, 0, []);
    var length := o.GetObjectLength();
    o.SetContentLength(300);
    binary := o.GetBinary();
  }

  /**
   * The same calls with the count recomputed: `getBinary` writes the long
   * form 0x82 0x01 0x2C, which reads back as 300.
   */
  method RecountedLengthOctetCount() returns (binary: seq<byte>)
    ensures binary == [0x04, 0x82, 0x01, 0x2C]
    ensures DecodedLength(binary, 1) == 300
  {
    Encode300();
    var o := new AsnObject(0x04, 0, []);
    var length := o.GetObjectLength();
    o.SetContentLengthRecounted(300);
    binary := o.GetBinary();
    assert binary == [Chr(0x04)] + EncodeLength(300) + [];
  }
}
