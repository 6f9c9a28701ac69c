# PHPASN1 core: decimal big integers and BER length octets

This project models two parts of the PHPASN1 library and proves properties
about them.

The first part is `BigIntegerPhp`, the pure-PHP arbitrary-precision signed
integer. A number is stored in sign-magnitude form: a decimal digit string
`_str`, its length `_len` and a negative flag `_neg`. The model covers:

- reading a number from a numeral, where "-0" becomes non-negative;
- printing it, with leading zeros stripped;
- the schoolbook routines: equalise, digit compare, add with carry,
  subtract with borrow;
- the signed `compare`, `add` and `subtract`, which choose a routine by
  sign and magnitude;
- `isNegative` and `absoluteValue`.

An instance is never changed after it is built, so it is a datatype value,
`BigIntegerPhp.BigInt`. `Decimal.Value` gives a digit string's meaning as a
natural number. The raw routines are methods with the source's loops:

- `_raw_compare` stops at the first differing digit;
- `_raw_add` and `_raw_sub` write `$ret[$i]` from the least significant
  digit, and keep the inner `while` that normalises a column.

Each raw routine is proved against `Value`.

The second part is `ASN_Object`, the base class of every ASN.1 type. It
writes a record in the Basic Encoding Rules (ITU-T X.690):

- one identifier octet, low-tag-number form only (section 8.1.2);
- definite-form length octets, short form (section 8.1.3.4) or minimal
  long form (section 8.1.3.5);
- the encoded content.

It caches the content length and the number of length octets in two lazily
set private fields. That makes it a class, `AsnObject.AsnObject`, whose
caches are `Option` fields. The three abstract hooks of a subtype are
constructor parameters kept as constant fields:

- `getType` is `typeTag`;
- `calculateContentLength` is `calculatedLength`;
- `getEncodedValue` is `encodedValue`.

The pure module `BerLength` defines the length encoding and decoding as
functions. It proves the round trip and the minimal-length bounds. The
methods of the class are proved against those functions.

The two static parse helpers are modelled as well:

- `parseIdentifier` is a function that returns an `Outcome`;
- `parseContentLength` is a method. It returns a `Result` together with the
  advanced offset, because the source passes the offset cursor by
  reference.

The files are `wrappers.dfy` (Option, Result, Outcome), `decimal.dfy` (digit
strings), `biginteger_php.dfy`, `ber_length.dfy` and `asn_object.dfy`.

Where the design intent and the code differ, the model follows the code.
The intent is that `setContentLength` recomputes the number of length
octets for the new length. The code recomputes it only when that number has
not been cached yet, since `getNumberOfLengthOctets` returns early once its
field is set. The model keeps that behaviour. `AsnObject.AsnObject.SetContentLength`
states when the caches stay consistent, and `AsnObject.StaleLengthOctetCount`
shows the stale case. "## Findings" records it, next to
`AsnObject.AsnObject.SetContentLengthRecounted`, a version that recomputes
the count.

## Model

| member | source | states |
|---|---|---|
| BigIntegerPhp.FromString | lib/Utility/BigIntegerPhp.php:29-41 | the result is a valid number whose digits are the numeral's digits after the optional '-', `_len` is their count, its signed value is the numeral's value, and it is negative exactly when the numeral starts with '-' and some digit is not '0' |
| BigIntegerPhp.NegativeZeroIsZero | lib/Utility/BigIntegerPhp.php:29-53 | "-0", "-00", … read as a non-negative number that prints as "0" |
| BigIntegerPhp.ToString | lib/Utility/BigIntegerPhp.php:43-53 | the printed numeral is canonical (no leading zero except "0", no "-0"), denotes the number's signed value, and starts with '-' exactly when the number is negative |
| BigIntegerPhp.ToStringDeterminedByValue | lib/Utility/BigIntegerPhp.php:43-53 | two numbers with the same signed value print identically, whatever leading zeros their digit strings carry |
| BigIntegerPhp.CanonicalUnique | lib/Utility/BigIntegerPhp.php:43-53 | two canonical numerals that denote the same integer are the same string |
| BigIntegerPhp.ToStringFromStringRoundTrip | lib/Utility/BigIntegerPhp.php:29-53 | reading back a printed number gives the same value, and printing that gives the same numeral |
| BigIntegerPhp.IsNegative | lib/Utility/BigIntegerPhp.php:64-67 | true exactly when the signed value is below zero |
| BigIntegerPhp.Equalize | lib/Utility/BigIntegerPhp.php:79-87 | the common length is the larger digit count; both strings have that length, keep their values, and end with the original digits (left-padded with '0') |
| BigIntegerPhp.RawCompare | lib/Utility/BigIntegerPhp.php:89-103 | for equal-length digit strings the result is -1, 0 or 1 exactly when the first value is below, equal to or above the second |
| Decimal.FirstDifferenceDecides | lib/Utility/BigIntegerPhp.php:91-94 | equal-length digit strings that agree up to position k are ordered by their digits at k, which is why the compare loop may stop at the first difference |
| BigIntegerPhp.RawAdd | lib/Utility/BigIntegerPhp.php:105-123 | the digits denote the sum; the length is `sl`, or `sl + 1` with a leading '1', and it is `sl + 1` exactly when the sum needs more than `sl` digits; the loop keeps the carry at 0 or 1 |
| BigIntegerPhp.RawSub | lib/Utility/BigIntegerPhp.php:125-153 | for `a >= b` the digits denote `a - b`, there are between 1 and `sl` of them, and there is no leading zero unless the result is "0"; the loop keeps the borrow at 0 or 1 |
| Decimal.TrimLeadingZeros | lib/Utility/BigIntegerPhp.php:45-47 | `ltrim($s, '0')` is the suffix of `s` after its leading zeros; it has the same value, no leading zero, and is empty exactly when `s` is all zeros |
| Decimal.LeftPad | lib/Utility/BigIntegerPhp.php:81-84 | `str_pad(…, '0', STR_PAD_LEFT)` has length max(n, length of `s`), ends with `s` and keeps its value |
| BigIntegerPhp.Compare | lib/Utility/BigIntegerPhp.php:155-170 | -1, 0 or 1 exactly when the first signed value is below, equal to or above the second, for all sign and length combinations |
| BigIntegerPhp.CompareNineTen | lib/Utility/BigIntegerPhp.php:155-170 | comparing 9 with 10 (different digit counts) gives -1 |
| BigIntegerPhp.CompareMinusFiveThree | lib/Utility/BigIntegerPhp.php:155-170 | comparing -5 with 3 (different signs) gives -1 |
| BigIntegerPhp.Add | lib/Utility/BigIntegerPhp.php:172-209 | the result is valid (so a zero result is never negative) and its signed value is the sum |
| BigIntegerPhp.Subtract | lib/Utility/BigIntegerPhp.php:211-248 | the result is valid and its signed value is the difference |
| BigIntegerPhp.AddThenSubtract | lib/Utility/BigIntegerPhp.php:172-248 | `x.add(y).subtract(y)` has the value of x and prints as x |
| BigIntegerPhp.AbsoluteValue | lib/Utility/BigIntegerPhp.php:291-296 | a copy with the same digits and length whose flag is cleared, whose value is the absolute value of the receiver's |
| BerLength.LengthOctetCount | classes/asn1/ASN_Object.class.php:76-83 | at least one octet, and exactly one when the length is at most 127 |
| BerLength.ByteLengthMinimal | classes/asn1/ASN_Object.class.php:77-82 | counting the `>> 8` steps until the length reaches 0 gives the minimal number of octets: 256^(k-1) <= n < 256^k |
| BerLength.LengthOctetCountBoundaries | classes/asn1/ASN_Object.class.php:76-83 | 127 takes one octet, 128 and 255 two, 256 and 65535 three, 65536 four |
| BerLength.LengthPart | classes/asn1/ASN_Object.class.php:52-68 | the length part has as many octets as the cached count says |
| BerLength.EncodeLengthShortForm | classes/asn1/ASN_Object.class.php:56-57 | a length up to 127 is the single octet holding it, which reads as short form |
| BerLength.EncodeLengthLongForm | classes/asn1/ASN_Object.class.php:59-65 | a longer length is the octet 0x80 + k followed by k octets that spell the length most significant first, with k minimal |
| BerLength.Encode300 | classes/asn1/ASN_Object.class.php:52-68 | 300 is written as 0x82 0x01 0x2C |
| BerLength.LengthRoundTrip | classes/asn1/ASN_Object.class.php:127-137 | the length field written for n, placed anywhere in a buffer, spans the computed number of octets and reads back as n |
| BerLength.LongFormMarker | classes/asn1/ASN_Object.class.php:61 | `chr` of the bitwise or of 0x80 and m always reads as long form, and its low seven bits announce m mod 128 octets |
| BerLength.LongFormCount | classes/asn1/ASN_Object.class.php:130-132 | `& 0x7F` gives a count below 128, and a first octet with bit 8 set (`& 0x80`) is 0x80 plus that count |
| BerLength.DecodedLength | classes/asn1/ASN_Object.class.php:128-137 | the decoded length is the first octet, below 128, in short form, and in long form the value of the k announced octets, below 256^k |
| BerLength.BigEndianValueBound | classes/asn1/ASN_Object.class.php:134-136 | the `<< 8` accumulation of k octets stays below 256^k |
| BerLength.BigEndianOctetsValue | classes/asn1/ASN_Object.class.php:61-63 | accumulating `chr($n >> 8*(k-1))` … `chr($n >> 0)` most significant first gives back n |
| BerLength.PhpIntByteLength | classes/asn1/ASN_Object.class.php:76-83 | a PHP integer takes at most eight length octets after the first |
| BerLength.BigEndianPrefixBound | classes/asn1/ASN_Object.class.php:134-136 | each partial accumulation of the long-form octets is at most the final value, so it stays within PHP's integer range |
| AsnObject.ParseIdentifier | classes/asn1/ASN_Object.class.php:116-125 | corrected: fails, at the given offset, exactly when the identifier (by `ord` for a raw octet) differs from the expected one, and otherwise has no effect |
| AsnObject.ParseIdentifierAsWritten | classes/asn1/ASN_Object.class.php:116-125 | as written: any error is reported at the given offset, and for every input other than a raw digit octet it fails exactly when the identifier differs |
| AsnObject.ParseIdentifierDiscrepancy | classes/asn1/ASN_Object.class.php:117-119 | the two versions disagree exactly on a raw octet '0'..'9' compared with its own code or with the digit it spells |
| AsnObject.SequenceOctetRejected | classes/asn1/ASN_Object.class.php:117-119 | the raw SEQUENCE octet 0x30 is rejected as written when 0x30 is expected, and accepted by the corrected version |
| AsnObject.ParseContentLength | classes/asn1/ASN_Object.class.php:127-144 | the cursor advances past the whole length field, even when the check fails; the call fails exactly when the decoded length is below the minimum, reporting the advanced offset, and otherwise returns the decoded length |
| AsnObject.ParseLength300 | classes/asn1/ASN_Object.class.php:127-144 | [0x82, 0x01, 0x2C] decodes to 300 with the cursor advanced by 3 |
| AsnObject.RecordRoundTrip | classes/asn1/ASN_Object.class.php:44-50 | a record written as identifier, length field and content is accepted for its type, its length field reads back as the content length, and the content follows the length octets |
| AsnObject.AsnObject.constructor | classes/asn1/ASN_Object.class.php:23-42 | a fresh object has the subtype's hooks and both caches unset |
| AsnObject.AsnObject.GetContentLength | classes/asn1/ASN_Object.class.php:88-93 | `calculateContentLength` is used only while the cache is unset; afterwards the cached value is returned, and the count of length octets is untouched |
| AsnObject.AsnObject.GetNumberOfLengthOctets | classes/asn1/ASN_Object.class.php:70-86 | once cached, the count is returned unchanged; otherwise it becomes the octet count of the given length, or of the cached content length when the argument is 0 (PHP's `0 == null`) |
| AsnObject.AsnObject.SetContentLength | classes/asn1/ASN_Object.class.php:95-98 | the content length is overwritten, the octet count is set only if it was not cached, and the caches agree afterwards exactly when the old count was unset or already right for the new length |
| AsnObject.AsnObject.SetContentLengthRecounted | classes/asn1/ASN_Object.class.php:95-98 | corrected: the content length is overwritten and the count of length octets is recomputed for it, so the caches always agree |
| AsnObject.AsnObject.CreateLengthPart | classes/asn1/ASN_Object.class.php:52-68 | the octets are the length part for the cached count and content length, as many as the count says, filling both caches as the source does |
| AsnObject.AsnObject.GetBinary | classes/asn1/ASN_Object.class.php:44-50 | identifier octet (`getType() mod 256`), length part, encoded value; with consistent caches the length field reads back as the content length and the content follows it |
| AsnObject.AsnObject.GetObjectLength | classes/asn1/ASN_Object.class.php:100-106 | 1 + the octet count + the content length, which equals the size of `getBinary()` when the encoded value has exactly the content length |
| AsnObject.StaleLengthOctetCount | classes/asn1/ASN_Object.class.php:95-98 | after `getObjectLength` has cached one length octet for empty content, `setContentLength(300)` keeps that count, so `getBinary` writes the single octet `chr(300)`, read back as 44 |
| AsnObject.RecountedLengthOctetCount | classes/asn1/ASN_Object.class.php:95-98 | with the count recomputed, the same calls write [0x04, 0x82, 0x01, 0x2C], whose length field reads back as 300 |

## Left out

- `multiply`, `modulus`, `toPower`, `shiftRight` and `shiftLeft` are thin wrappers over the bcmath extension, a foreign library, and do not set `_neg` or `_len`.
- `toInteger` is a PHP `(int)` cast with platform-width truncation.
- `_wrap` of anything but a numeral string, `_unwrap`, and `__clone` are PHP dynamic casts and copies. `_wrap` of a string is `BigIntegerPhp.FromString`. `compare`, `add` and `subtract` take an already wrapped number.
- BigIntegerPhp.FromString: only well-formed numerals are modelled, that is one or more digits after an optional '-'. An empty string, a lone '-' or other characters give PHP-specific results.
- BigIntegerPhp.RawSub: `a >= b` is the documented assumption of `_raw_sub` ("$a is larger than $b"). `sl >= 1` is what the read of `$ret[0]` needs. `add` and `subtract` meet both.
- The 64-bit integer range of `_len` is not modelled, because integers are unbounded.
- `ASN_Object::getContent` and `__toString` return a subtype's opaque value.
- `Identifier::getName` and the exception message text are an external lookup used only in messages. An error is its offset.
- AsnObject.ParseContentLength: reading past the end of the buffer and a long-form length above PHP_INT_MAX (2^63 - 1) are preconditions. PHP would read missing octets as 0 and overflow the shift.
- AsnObject.AsnObject.GetNumberOfLengthOctets: requires the content length to be cached. The source calls it only once the content length is set: after `getContentLength` in `createLengthPart` and `getObjectLength`, and after the assignment in `setContentLength`.
- AsnObject.AsnObject.GetBinary: the round trip of the length field is stated only for content lengths up to PHP_INT_MAX, the largest PHP integer, and only when the cached count belongs to the cached length. `AsnObject.StaleLengthOctetCount` shows what happens otherwise.
- The indefinite-length octet 0x80 (section 8.1.3.6 of X.690) is not supported by the code. It decodes as length 0 and is not given a meaning here.
- tests/Utility/BigIntegerPhpTest.php only selects a mode for a base test class and holds no logic.

## Findings

| source | as written | input that shows it | evidently intended | confidence | as-written member | corrected member |
|---|---|---|---|---|---|---|
| classes/asn1/ASN_Object.class.php:117-119 | `is_numeric` also accepts a one-character string '0'..'9', so a raw octet 0x30..0x39 is compared as the digit it spells instead of by `ord` | the raw octet 0x30 (a SEQUENCE) with expected identifier 0x30 raises a parser error | a raw octet is always compared by its `ord`, so the call fails exactly when the identifier differs | not executed | AsnObject.ParseIdentifierAsWritten, AsnObject.SequenceOctetRejected | AsnObject.ParseIdentifier |
| classes/asn1/ASN_Object.class.php:95-98 | `setContentLength` hands the new length to `getNumberOfLengthOctets`, which returns the cached count unchanged once it is set | `getObjectLength()` on an object with empty content, then `setContentLength(300)`: `getBinary()` writes [0x04, 44], whose length field reads back as 44 | the count of length octets is recomputed for the new length, giving [0x04, 0x82, 0x01, 0x2C] | not executed | AsnObject.AsnObject.SetContentLength, AsnObject.StaleLengthOctetCount | AsnObject.AsnObject.SetContentLengthRecounted, AsnObject.RecountedLengthOctetCount |
