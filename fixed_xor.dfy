/**
  The `fixed_xor_2` crate: the XOR of two hex strings of the same length, and
  the lowercase hex encoder that is the inverse of the decoder of
  `crypto_utilities`.
*/
module FixedXor {
  import opened Common
  import opened Bits
  import Utf8
  import opened CryptoUtilities

  /** The `String` errors of `hexadecimal_xor`, one constructor per message. */
  datatype XorError =
    | InvalidHex
    | LengthMismatch(len1: nat, len2: nat)
    | Decode(error: HexError)

  /** The `String` error of `buffer_to_hex_string`. */
  datatype EncodeError = NotEncodable

  // ---------------------------------------------------------------------------
  // The XOR of two buffers

  /** `zip(buf1, buf2)` mapped through `^`: stops at the end of the shorter buffer. */
  function XorBuffers(buf1: seq<byte>, buf2: seq<byte>): (r: seq<byte>)
    ensures |r| == if |buf1| <= |buf2| then |buf1| else |buf2|
    ensures forall i :: 0 <= i < |r| ==> r[i] == Xor(buf1[i], buf2[i])
  {
    if buf1 == [] || buf2 == [] then []
    else [XorByte(buf1[0], buf2[0])] + XorBuffers(buf1[1..], buf2[1..])
  }

  /** The order of the operands does not matter. */
  lemma XorBuffersComm(buf1: seq<byte>, buf2: seq<byte>)
    ensures XorBuffers(buf1, buf2) == XorBuffers(buf2, buf1)
  {
    var r, s := XorBuffers(buf1, buf2), XorBuffers(buf2, buf1);
    forall i | 0 <= i < |r| ensures r[i] == s[i] {
      XorComm(buf1[i], buf2[i]);
    }
  }

  /** XOR with the same buffer twice gives back the first one. */
  lemma XorBuffersCancel(buf1: seq<byte>, buf2: seq<byte>)
    requires |buf1| == |buf2|
    ensures XorBuffers(XorBuffers(buf1, buf2), buf2) == buf1
  {
    var r := XorBuffers(XorBuffers(buf1, buf2), buf2);
    forall i | 0 <= i < |buf1| ensures r[i] == buf1[i] {
      XorCancel(buf1[i], buf2[i]);
    }
  }

  // ---------------------------------------------------------------------------
  // hexadecimal_xor

  /**
    `hexadecimal_xor`: both strings are checked to be hex, then their byte
    lengths are compared, then both are decoded and XORed. It rejects non-hex
    input first and strings of different lengths second; it never reports a
    decoding error; otherwise byte `i` of its result is the XOR of byte `i` of
    both decodings, which have the same length as the result.
  */
  function HexXor(hexStr1: seq<char>, hexStr2: seq<char>): (r: Result<seq<byte>, XorError>)
    ensures r == Err(InvalidHex) <==> !IsHex(hexStr1) || !IsHex(hexStr2)
    ensures r.Err? && r.error.LengthMismatch? <==> IsHex(hexStr1) && IsHex(hexStr2) && |hexStr1| != |hexStr2|
    ensures !(r.Err? && r.error.Decode?)
    ensures r.Ok? <==> IsHex(hexStr1) && IsHex(hexStr2) && |hexStr1| == |hexStr2|
    ensures r.Ok? ==>
              var buf1, buf2 := DecodeHex(hexStr1).value, DecodeHex(hexStr2).value;
              |r.value| == |buf1| == |buf2| == (|hexStr1| + 1) / 2 &&
              forall i :: 0 <= i < |r.value| ==> r.value[i] == Xor(buf1[i], buf2[i])
  {
    if !IsHex(hexStr1) || !IsHex(hexStr2) then Err(InvalidHex)
    else
      HexIsAscii(hexStr1);
      HexIsAscii(hexStr2);
      DecodeHexValid(hexStr1);
      DecodeHexValid(hexStr2);
      if |Utf8.Encode(hexStr1)| != |Utf8.Encode(hexStr2)| then
        Err(LengthMismatch(|Utf8.Encode(hexStr1)|, |Utf8.Encode(hexStr2)|))
      else match DecodeHex(hexStr1)
        case Err(err) => Err(Decode(err))
        case Ok(buf1) =>
          match DecodeHex(hexStr2)
            case Err(err) => Err(Decode(err))
            case Ok(buf2) => Ok(XorBuffers(buf1, buf2))
  }

  /** Swapping the operands gives the same bytes. */
  lemma HexXorComm(hexStr1: seq<char>, hexStr2: seq<char>)
    requires IsHex(hexStr1) && IsHex(hexStr2) && |hexStr1| == |hexStr2|
    ensures HexXor(hexStr2, hexStr1) == HexXor(hexStr1, hexStr2)
  {
    XorBuffersComm(DecodeHex(hexStr1).value, DecodeHex(hexStr2).value);
  }

  /** The test vectors on invalid, unequal and empty input. */
  lemma HexXorVectors()
    ensures HexXor("57cd", "92ag").Err? && HexXor("p297", "62ca").Err? && HexXor("8dcr", "l591").Err?
    ensures HexXor("67c72", "8361cd").Err?
    ensures HexXor("", "") == Ok([])
  {
    InvalidVector1();
    InvalidVector2();
    InvalidVector3();
    UnevenVector();
  }

  lemma InvalidVector1()
    ensures HexXor("57cd", "92ag").Err?
  {
    RejectsNonHex("57cd", "92ag", 3);
  }

  lemma InvalidVector2()
    ensures HexXor("p297", "62ca").Err?
  {
    RejectsNonHex("p297", "62ca", 0);
  }

  lemma InvalidVector3()
    ensures HexXor("8dcr", "l591").Err?
  {
    RejectsNonHex("8dcr", "l591", 3);
  }

  lemma UnevenVector()
    ensures HexXor("67c72", "8361cd").Err?
  {
    assert IsHex("67c72") && IsHex("8361cd");
  }

  /** A character that is not a hex digit, in either string, makes the XOR fail. */
  lemma RejectsNonHex(hexStr1: seq<char>, hexStr2: seq<char>, i: nat)
    requires (i < |hexStr1| && !IsHexDigit(hexStr1[i])) || (i < |hexStr2| && !IsHexDigit(hexStr2[i]))
    ensures HexXor(hexStr1, hexStr2) == Err(InvalidHex)
  {
  }

  /** One more byte of each buffer adds the XOR of the two to the output. */
  lemma XorBuffersExtend(buf1: seq<byte>, buf2: seq<byte>, i: nat)
    requires i < |buf1| && i < |buf2|
    ensures XorBuffers(buf1[..i + 1], buf2[..i + 1]) == XorBuffers(buf1[..i], buf2[..i]) + [XorByte(buf1[i], buf2[i])]
  {
    var longer, shorter := XorBuffers(buf1[..i + 1], buf2[..i + 1]), XorBuffers(buf1[..i], buf2[..i]);
    assert longer == shorter + [XorByte(buf1[i], buf2[i])];
  }

  /** The prefixes as long as the shorter buffer give the whole output. */
  lemma XorBuffersPrefix(buf1: seq<byte>, buf2: seq<byte>, n: nat)
    requires n == if |buf1| <= |buf2| then |buf1| else |buf2|
    ensures XorBuffers(buf1[..n], buf2[..n]) == XorBuffers(buf1, buf2)
  {
  }

  /**
    `hexadecimal_xor`: validates both strings, compares their lengths, decodes
    both (an error there is passed on) and pushes the XOR of each pair of
    bytes.
  */
  method HexadecimalXor(hexStr1: seq<char>, hexStr2: seq<char>) returns (r: Result<seq<byte>, XorError>)
    ensures r == HexXor(hexStr1, hexStr2)
  {
    var valid1 := IsValidHex(hexStr1);
    var valid2 := IsValidHex(hexStr2);
    if !valid1 || !valid2 {
      return Err(InvalidHex);
    }
    if |Utf8.Encode(hexStr1)| != |Utf8.Encode(hexStr2)| {
      return Err(LengthMismatch(|Utf8.Encode(hexStr1)|, |Utf8.Encode(hexStr2)|));
    }
    var hexBuf1: seq<byte>;
    var decoded1 := HexToBinaryBuffer(hexStr1);
    match decoded1 {
      case Ok(buf) => hexBuf1 := buf;
      case Err(err) => return Err(Decode(err));
    }
    var hexBuf2: seq<byte>;
    var decoded2 := HexToBinaryBuffer(hexStr2);
    match decoded2 {
      case Ok(buf) => hexBuf2 := buf;
      case Err(err) => return Err(Decode(err));
    }
    var n := if |hexBuf1| <= |hexBuf2| then |hexBuf1| else |hexBuf2|;
    var result: seq<byte> := [];
    for i := 0 to n
      invariant result == XorBuffers(hexBuf1[..i], hexBuf2[..i])
    {
      XorBuffersExtend(hexBuf1, hexBuf2, i);
      result := result + [XorByte(hexBuf1[i], hexBuf2[i])];
    }
    XorBuffersPrefix(hexBuf1, hexBuf2, n);
    return Ok(result);
  }

  // ---------------------------------------------------------------------------
  // buffer_to_hex_string

  /** A hex digit that `char::from_digit` can produce in radix 16: a decimal digit or `a`-`f`. */
  predicate IsLowerHexDigit(c: char) {
    '0' <= c <= '9' || 'a' <= c <= 'f'
  }

  /** `char::from_digit(num, 16)`: lowercase letters from 10, nothing from 16 on. */
  function FromDigit(num: nat): (c: Option<char>)
    ensures c.Some? <==> num < 16
    ensures c.Some? ==> IsLowerHexDigit(c.value) && ToDigit(c.value) == Some(num)
  {
    if num < 10 then Some(('0' as int + num) as char)
    else if num < 16 then Some(('a' as int + num - 10) as char)
    else None
  }

  /** The hex digit of a nibble. */
  function HexChar(nibble: nat): (c: char)
    requires nibble < 16
    ensures IsLowerHexDigit(c) && IsHexDigit(c) && Digit(c) == nibble
  {
    FromDigit(nibble).value
  }

  /** Nibble `i` of `buf`, counting the high nibble of each byte first. */
  function Nibble(buf: seq<byte>, i: nat): (n: nat)
    requires i < 2 * |buf|
    ensures n < 16
  {
    if i % 2 == 0 then buf[i / 2] / 16 else buf[i / 2] % 16
  }

  /**
    The lowercase hex encoding of `buf`: two digits per byte, high nibble
    first.
  */
  function EncodeHex(buf: seq<byte>): (r: seq<char>)
    ensures |r| == 2 * |buf|
    ensures forall i :: 0 <= i < |r| ==> r[i] == HexChar(Nibble(buf, i))
  {
    if buf == [] then []
    else
      var r := [HexChar(buf[0] / 16), HexChar(buf[0] % 16)] + EncodeHex(buf[1..]);
      assert forall i :: 2 <= i < |r| ==> Nibble(buf, i) == Nibble(buf[1..], i - 2);
      r
  }

  /** Every character of the encoding is a lowercase hex digit. */
  lemma EncodeHexIsLowerHex(buf: seq<byte>)
    ensures IsLowerHex(EncodeHex(buf))
  {
  }

  /** A byte is the packing of its two nibbles. */
  lemma PackNibbles(b: byte)
    ensures Pack(b / 16, b % 16) == b
  {
    assert b == 16 * (b / 16) + b % 16;
  }

  /** Decoding the encoding of any buffer gives the buffer back. */
  lemma DecodeEncodeHex(buf: seq<byte>)
    ensures DecodeHex(EncodeHex(buf)) == Ok(buf)
  {
    var hex := EncodeHex(buf);
    assert IsHex(hex);
    DecodeHexValid(hex);
    var r := DecodeHex(hex).value;
    DigitAndRest(|hex| + 1, |buf|, 1);
    forall k | 0 <= k < |buf| ensures r[k] == buf[k] {
      DigitAndRest(2 * k, k, 0);
      DigitAndRest(2 * k + 1, k, 1);
      var hi, lo := hex[2 * k], hex[2 * k + 1];
      assert hi == HexChar(buf[k] / 16);
      assert lo == HexChar(buf[k] % 16);
      assert LowDigit(hex, k) == Digit(lo);
      assert r[k] == Pack(Digit(hi), Digit(lo));
      PackNibbles(buf[k]);
    }
    assert |r| == |buf|;
    assert r == buf;
  }

  /** The two digits of byte `k` are the same in `e` and `p`. */
  predicate DigitsAgree(e: seq<char>, p: seq<char>, k: nat)
    requires 2 * k + 1 < |e| && |e| == |p|
  {
    e[2 * k] == p[2 * k] && e[2 * k + 1] == p[2 * k + 1]
  }

  /** Two strings of whole bytes are equal when the digits of every byte agree. */
  lemma SameWhereDigitsAgree(e: seq<char>, p: seq<char>, bytes: nat)
    requires |e| == |p| == 2 * bytes
    requires forall k :: 0 <= k < bytes ==> DigitsAgree(e, p, k)
    ensures e == p
  {
    forall i | 0 <= i < |e| ensures e[i] == p[i] {
      var k := i / 2;
      DigitAndRest(i, k, i % 2);
      assert DigitsAgree(e, p, k);
    }
  }

  /** A lowercase hex digit is the digit of its own value. */
  lemma LowerHexDigitRoundTrip(c: char)
    requires IsLowerHexDigit(c)
    ensures HexChar(Digit(c)) == c
  {
  }

  /** A string of lowercase hex digits. */
  predicate IsLowerHex(hex: seq<char>) {
    forall i :: 0 <= i < |hex| ==> IsLowerHexDigit(hex[i])
  }

  /**
    Encoding the decoding of a lowercase hex string gives the string back,
    with one `0` added after an odd-length input (its last byte has a zero
    low nibble).
  */
  lemma EncodeDecodeHex(hex: seq<char>)
    requires IsLowerHex(hex)
    ensures DecodeHex(hex).Ok?
    ensures EncodeHex(DecodeHex(hex).value) == hex + (if |hex| % 2 == 1 then "0" else "")
  {
    DecodeHexLength(hex);
    var r := DecodeHex(hex).value;
    var e, padded := EncodeHex(r), hex + (if |hex| % 2 == 1 then "0" else "");
    var n, m := |hex| / 2, |hex| % 2;
    DigitAndRest(|hex|, n, m);
    DigitAndRest(|hex| + 1, n + m, 1 - m);
    assert |r| == n + m && |e| == |padded| == 2 * n + 2 * m;
    forall k | 0 <= k < |r| ensures DigitsAgree(e, padded, k) {
      EncodeDecodeByte(hex, k);
    }
    SameWhereDigitsAgree(e, padded, |r|);
    assert e == padded;
  }

  /**
    A hex string of either case survives decoding and re-encoding up to case:
    the encoding is its lowercase, with a `0` appended after an odd length.
  */
  lemma EncodeDecodeAnyCase(hex: seq<char>)
    requires IsHex(hex)
    ensures DecodeHex(hex).Ok?
    ensures EncodeHex(DecodeHex(hex).value) == Lower(hex) + (if |hex| % 2 == 1 then "0" else "")
  {
    DecodeHexIgnoresCase(hex);
    LowerOfHex(hex);
    EncodeDecodeHex(Lower(hex));
  }

  /** Lowering the letters of a hex string leaves only lowercase hex digits. */
  lemma LowerOfHex(hex: seq<char>)
    requires IsHex(hex)
    ensures IsLowerHex(Lower(hex))
  {
    forall i | 0 <= i < |hex| ensures IsLowerHexDigit(Lower(hex)[i]) {
      assert Lower(hex)[i] == LowerChar(hex[i]);
    }
  }

  lemma DecodeHexLength(hex: seq<char>)
    requires IsLowerHex(hex)
    ensures DecodeHex(hex).Ok? && |DecodeHex(hex).value| == (|hex| + 1) / 2
  {
    DecodeHexValid(hex);
  }

  /** The two digits the encoding gives for byte `k` of the decoding: those of the input, or `0` past its end. */
  lemma EncodeDecodeByte(hex: seq<char>, k: nat)
    requires IsLowerHex(hex) && 2 * k < |hex|
    ensures DecodeHex(hex).Ok? && 2 * k + 1 < 2 * |DecodeHex(hex).value|
    ensures EncodeHex(DecodeHex(hex).value)[2 * k] == hex[2 * k]
    ensures EncodeHex(DecodeHex(hex).value)[2 * k + 1] == if 2 * k + 1 < |hex| then hex[2 * k + 1] else '0'
  {
    DecodeHexValid(hex);
    var r := DecodeHex(hex).value;
    var q := (|hex| + 1) / 2;
    DigitAndRest(|hex| + 1, q, (|hex| + 1) % 2);
    assert k < |r|;
    NibblesOfByte(r, k);
    var b := r[k];
    assert b == Pack(Digit(hex[2 * k]), LowDigit(hex, k));
    LowerHexDigitRoundTrip(hex[2 * k]);
    if 2 * k + 1 < |hex| {
      LowerHexDigitRoundTrip(hex[2 * k + 1]);
    }
  }

  /** Digits `2k` and `2k + 1` of the encoding are the high and low nibble of byte `k`. */
  lemma NibblesOfByte(r: seq<byte>, k: nat)
    requires k < |r|
    ensures EncodeHex(r)[2 * k] == HexChar(r[k] / 16)
    ensures EncodeHex(r)[2 * k + 1] == HexChar(r[k] % 16)
  {
    DigitAndRest(2 * k, k, 0);
    DigitAndRest(2 * k + 1, k, 1);
    assert Nibble(r, 2 * k) == r[k] / 16;
    assert Nibble(r, 2 * k + 1) == r[k] % 16;
  }

  /** The test vectors of the round trip through bytes. */
  lemma EncodeHexVectors()
    ensures EncodeHex([]) == ""
    ensures DecodeHex("1234567890abcdef").Ok? && EncodeHex(DecodeHex("1234567890abcdef").value) == "1234567890abcdef"
    ensures DecodeHex("fedcba0987654321").Ok? && EncodeHex(DecodeHex("fedcba0987654321").value) == "fedcba0987654321"
    ensures DecodeHex("000030fedcba").Ok? && EncodeHex(DecodeHex("000030fedcba").value) == "000030fedcba"
  {
    RoundTripAscending();
    RoundTripDescending();
    RoundTripLeadingZeros();
  }

  lemma RoundTripAscending()
    ensures DecodeHex("1234567890abcdef").Ok? && EncodeHex(DecodeHex("1234567890abcdef").value) == "1234567890abcdef"
  {
    var hex := "1234567890abcdef";
    assert IsLowerHex(hex);
    EncodeDecodeHex(hex);
  }

  lemma RoundTripDescending()
    ensures DecodeHex("fedcba0987654321").Ok? && EncodeHex(DecodeHex("fedcba0987654321").value) == "fedcba0987654321"
  {
    var hex := "fedcba0987654321";
    assert IsLowerHex(hex);
    EncodeDecodeHex(hex);
  }

  lemma RoundTripLeadingZeros()
    ensures DecodeHex("000030fedcba").Ok? && EncodeHex(DecodeHex("000030fedcba").value) == "000030fedcba"
  {
    var hex := "000030fedcba";
    assert IsLowerHex(hex);
    EncodeDecodeHex(hex);
  }

  /**
    `buffer_to_hex_string`: for every byte, pushes the digits of the high and
    the low nibble. The error branch, a nibble `from_digit` refuses, is never
    taken.
  */
  method BufferToHexString(buf: seq<byte>) returns (r: Result<seq<char>, EncodeError>)
    ensures r == Ok(EncodeHex(buf))
  {
    var result: seq<char> := [];
    for i := 0 to |buf|
      invariant result == EncodeHex(buf)[..2 * i]
    {
      var byte := buf[i];
      // `byte >> 4` and `byte & 0xf`
      var msb, lsb := byte / 16, byte % 16;
      var portions := [msb, lsb];
      for j := 0 to 2
        invariant result == EncodeHex(buf)[..2 * i + j]
      {
        NextDigit(buf, i, j, portions);
        match FromDigit(portions[j]) {
          case Some(hexDigit) => result := result + [hexDigit];
          case None => return Err(NotEncodable);
        }
      }
    }
    assert result == EncodeHex(buf);
    return Ok(result);
  }

  /** Digit `2i + j` of the encoding is the digit of nibble `j` of byte `i`. */
  lemma NextDigit(buf: seq<byte>, i: nat, j: nat, portions: seq<nat>)
    requires i < |buf| && j < 2 && portions == [buf[i] / 16, buf[i] % 16]
    ensures portions[j] < 16
    ensures EncodeHex(buf)[..2 * i + j + 1] == EncodeHex(buf)[..2 * i + j] + [HexChar(portions[j])]
  {
    var e, k := EncodeHex(buf), 2 * i + j;
    DigitAndRest(k, i, j);
    assert Nibble(buf, k) == portions[j];
    var c := HexChar(portions[j]);
    assert e[k] == c;
    PrefixStep(e, k);
    assert [e[k]] == [c];
  }
}
