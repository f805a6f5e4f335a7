/**
  The `crypto_utilities` crate: the hexadecimal validator and the
  nibble-packing hex decoder shared by the other crates. This is Base16
  (section 8 of RFC 4648) with one deviation: an odd-length input is accepted
  and its last digit becomes the high half of a final byte.
*/
module CryptoUtilities {
  import opened Common
  import Utf8
  import Bits

  /** The error of `hex_to_binary_buffer`: the first character that is not a hex digit. */
  datatype HexError = NotHexDigit(c: char)

  /** `char::is_ascii_hexdigit` */
  predicate IsHexDigit(c: char) {
    '0' <= c <= '9' || 'a' <= c <= 'f' || 'A' <= c <= 'F'
  }

  /** Every character of `s` is an ASCII hex digit. */
  predicate IsHex(s: seq<char>) {
    forall i :: 0 <= i < |s| ==> IsHexDigit(s[i])
  }

  /**
    `char::to_digit(16)`: decimal digits, then letters of either case counted
    from 10, accepted only when the value is below the radix.
  */
  function ToDigit(c: char): (d: Option<nat>)
    ensures d.Some? <==> IsHexDigit(c)
    ensures d.Some? ==> d.value < 16
    ensures '0' <= c <= '9' ==> d == Some(c as int - '0' as int)
    ensures 'a' <= c <= 'f' ==> d == Some(c as int - 'a' as int + 10)
    ensures 'A' <= c <= 'F' ==> d == Some(c as int - 'A' as int + 10)
  {
    var v :=
      if '0' <= c <= '9' then c as int - '0' as int
      else if 'a' <= c <= 'z' then c as int - 'a' as int + 10
      else if 'A' <= c <= 'Z' then c as int - 'A' as int + 10
      else 16;
    if v < 16 then Some(v) else None
  }

  /** The value of a hex digit. */
  function Digit(c: char): (d: nat)
    requires IsHexDigit(c)
    ensures d < 16
  {
    ToDigit(c).value
  }

  /** The ASCII lowercase of a character (`char::to_ascii_lowercase`). */
  function LowerChar(c: char): char {
    if 'A' <= c <= 'Z' then (c as int + 32) as char else c
  }

  /** The ASCII lowercase of a string. */
  function Lower(s: seq<char>): seq<char> {
    seq(|s|, i requires 0 <= i < |s| => LowerChar(s[i]))
  }

  /** `to_digit(16)` does not tell the cases of the letters apart. */
  lemma ToDigitIgnoresCase(c: char)
    ensures ToDigit(LowerChar(c)) == ToDigit(c)
  {
  }

  /** The byte whose high nibble is `hi` and low nibble is `lo`. */
  function Pack(hi: nat, lo: nat): (b: byte)
    requires hi < 16 && lo < 16
    ensures b / 16 == hi && b % 16 == lo
  {
    16 * hi + lo
  }

  /** An ASCII hex string is as long in bytes (`str::len`) as in characters. */
  lemma HexIsAscii(s: seq<char>)
    requires IsHex(s)
    ensures |Utf8.Encode(s)| == |s|
  {
    assert Utf8.IsAscii(s);
    Utf8.EncodeAscii(s);
  }

  // ---------------------------------------------------------------------------
  // is_valid_hex

  /** `is_valid_hex`: true exactly when every character is a hex digit (so "" is valid). */
  method IsValidHex(buf: seq<char>) returns (valid: bool)
    ensures valid <==> IsHex(buf)
  {
    for i := 0 to |buf|
      invariant IsHex(buf[..i])
    {
      if !IsHexDigit(buf[i]) {
        return false;
      }
      assert buf[..i + 1] == buf[..i] + [buf[i]];
    }
    assert buf[..|buf|] == buf;
    return true;
  }

  /** The test vectors of the validator: the characters just outside the digit ranges are refused. */
  lemma ValidHexVectors()
    ensures IsHex("9087654321abcdefABCDEF")
    ensures forall c :: c in "`@/:Gg" ==> !IsHex("9087654321abcdefABCDEF" + [c])
  {
    var base := "9087654321abcdefABCDEF";
    forall c | c in "`@/:Gg"
      ensures !IsHex(base + [c])
    {
      assert (base + [c])[|base|] == c;
    }
  }

  // ---------------------------------------------------------------------------
  // hex_to_binary_buffer

  /**
    The decoding of a hex string, two digits per byte with the high nibble
    first; a trailing single digit fills the high nibble of a last byte.
    Fails on the first character that is not a hex digit: decoding fails
    exactly when `is_valid_hex` is false, the error names a character of the
    input that is not a digit, and a success has ceil(|hex| / 2) bytes.
  */
  function DecodeHex(hex: seq<char>): (r: Result<seq<byte>, HexError>)
    ensures r.Err? <==> !IsHex(hex)
    ensures r.Err? ==> r.error.c in hex && !IsHexDigit(r.error.c)
    ensures r.Ok? ==> |r.value| == (|hex| + 1) / 2
    decreases |hex|
  {
    if hex == [] then Ok([])
    else if !IsHexDigit(hex[0]) then Err(NotHexDigit(hex[0]))
    else if |hex| == 1 then Ok([Pack(Digit(hex[0]), 0)])
    else if !IsHexDigit(hex[1]) then Err(NotHexDigit(hex[1]))
    else
      var tail := hex[2..];
      assert IsHex(hex) <==> IsHex(tail) by {
        assert forall i :: 0 <= i < |tail| ==> tail[i] == hex[i + 2];
        if IsHex(tail) {
          forall i | 2 <= i < |hex| ensures IsHexDigit(hex[i]) { assert hex[i] == tail[i - 2]; }
        }
      }
      match DecodeHex(tail)
        case Err(e) => Err(e)
        case Ok(rest) => Ok([Pack(Digit(hex[0]), Digit(hex[1]))] + rest)
  }

  /** The value of the low nibble of output byte `k`: 0 past the end of an odd-length input. */
  function LowDigit(hex: seq<char>, k: nat): (d: nat)
    requires IsHex(hex) && 2 * k < |hex|
    ensures d < 16
  {
    if 2 * k + 1 < |hex| then Digit(hex[2 * k + 1]) else 0
  }

  /**
    A valid hex string decodes to ceil(|hex| / 2) bytes, byte `k` holding
    digit `2k` in its high nibble and digit `2k + 1` (or 0) in its low one.
  */
  lemma {:induction false} DecodeHexValid(hex: seq<char>)
    requires IsHex(hex)
    ensures DecodeHex(hex).Ok?
    ensures |DecodeHex(hex).value| == (|hex| + 1) / 2
    ensures forall k :: 0 <= k < (|hex| + 1) / 2 ==>
              DecodeHex(hex).value[k] == Pack(Digit(hex[2 * k]), LowDigit(hex, k))
    decreases |hex|
  {
    if |hex| >= 2 {
      var tail := hex[2..];
      assert IsHex(tail) by {
        forall i | 0 <= i < |tail| ensures IsHexDigit(tail[i]) { assert tail[i] == hex[i + 2]; }
      }
      DecodeHexValid(tail);
      var r := DecodeHex(hex).value;
      forall k | 1 <= k < (|hex| + 1) / 2
        ensures r[k] == Pack(Digit(hex[2 * k]), LowDigit(hex, k))
      {
        assert r[k] == DecodeHex(tail).value[k - 1];
        assert tail[2 * (k - 1)] == hex[2 * k];
        assert LowDigit(tail, k - 1) == LowDigit(hex, k);
      }
    }
  }

  /** Decoding fails, naming `hex[i]`, when `hex[i]` is the first non-digit. */
  lemma {:induction false} DecodeHexFirstError(hex: seq<char>, i: nat)
    requires i < |hex| && !IsHexDigit(hex[i])
    requires forall j :: 0 <= j < i ==> IsHexDigit(hex[j])
    ensures DecodeHex(hex) == Err(NotHexDigit(hex[i]))
    decreases |hex|
  {
    if i >= 2 {
      var tail := hex[2..];
      assert forall j :: 0 <= j < i - 2 ==> IsHexDigit(tail[j]) by {
        forall j | 0 <= j < i - 2 ensures IsHexDigit(tail[j]) { assert tail[j] == hex[j + 2]; }
      }
      DecodeHexFirstError(tail, i - 2);
    }
  }

  /**
    Decoding does not tell the cases of the letters apart: the lowercase of a
    string decodes to the same bytes, or fails on the lowercase of the same
    character.
  */
  lemma {:induction false} DecodeHexIgnoresCase(hex: seq<char>)
    ensures DecodeHex(Lower(hex)) ==
              match DecodeHex(hex)
                case Ok(v) => Ok(v)
                case Err(NotHexDigit(c)) => Err(NotHexDigit(LowerChar(c)))
    decreases |hex|
  {
    if hex != [] {
      var low := Lower(hex);
      ToDigitIgnoresCase(hex[0]);
      assert low[0] == LowerChar(hex[0]);
      if |hex| >= 2 {
        ToDigitIgnoresCase(hex[1]);
        assert low[1] == LowerChar(hex[1]);
        assert low[2..] == Lower(hex[2..]);
        DecodeHexIgnoresCase(hex[2..]);
      }
    }
  }

  /** The test vectors of `hex_to_binary_buffer`. */
  lemma DecodeHexVectors()
    ensures DecodeHex("") == Ok([])
    ensures DecodeHex("4cd2") == Ok([76, 210])
    ensures DecodeHex("8f61c") == Ok([143, 97, 192])
    ensures DecodeHex("invalid_hex") == Err(NotHexDigit('i'))
  {
    DecodeHexValid("4cd2");
    assert Digit('4') == 4 && Digit('c') == 12 && Digit('d') == 13 && Digit('2') == 2;
    assert DecodeHex("4cd2").value == [76, 210];
    DecodeHexValid("8f61c");
    assert Digit('8') == 8 && Digit('f') == 15 && Digit('6') == 6 && Digit('1') == 1;
    assert LowDigit("8f61c", 2) == 0;
    assert DecodeHex("8f61c").value == [143, 97, 192];
  }

  /**
    `hex_to_binary_buffer`: returns early with `[]` on an empty string, packs
    each pair of digits into a byte, pushes a half-filled byte for a trailing
    digit, and stops at the first character that is not a hex digit.
  */
  method HexToBinaryBuffer(hex: seq<char>) returns (r: Result<seq<byte>, HexError>)
    ensures r == DecodeHex(hex)
  {
    var result: seq<byte> := [];
    if |Utf8.Encode(hex)| == 0 {
      return Ok(result);
    }
    var curByte: byte := 0;
    for idx := 0 to |hex|
      invariant Gathered(hex, result, curByte, idx)
    {
      var c := hex[idx];
      var hexMask: byte;
      match ToDigit(c) {
        case Some(val) =>
          hexMask := val;
        case None =>
          DecodeHexFirstError(hex, idx);
          return Err(NotHexDigit(c));
      }
      if idx % 2 == 0 {
        OpenByte(hex, result, curByte, idx);
        // `hex_mask << 4`: the digit moves to the high nibble.
        curByte := hexMask * 16;
      } else {
        CloseByte(hex, result, curByte, idx);
        // `cur_byte |= hex_mask`: the low nibble of `cur_byte` is still clear.
        curByte := curByte + hexMask;
        result := result + [curByte];
        curByte := 0;
      }
    }
    DecodeHexOfPairs(hex, result, curByte);
    HexIsAscii(hex);
    if |Utf8.Encode(hex)| % 2 == 1 {
      result := result + [curByte];
    } else {
      assert result + [] == result;
    }
    return Ok(result);
  }

  /**
    The state of `hex_to_binary_buffer` after the first `idx` characters: all
    are digits, every full pair is packed into a byte, and after an odd count
    the last digit waits in the high nibble of `pending`.
  */
  predicate Gathered(hex: seq<char>, pairs: seq<byte>, pending: byte, idx: nat)
  {
    && idx <= |hex|
    && (forall j :: 0 <= j < idx ==> IsHexDigit(hex[j]))
    && |pairs| == idx / 2
    && (forall k :: 0 <= k < idx / 2 ==> pairs[k] == Pack(Digit(hex[2 * k]), Digit(hex[2 * k + 1])))
    && (idx % 2 == 1 ==> pending == Pack(Digit(hex[idx - 1]), 0))
  }

  /** A digit at an even position opens a byte, its value in the high nibble. */
  lemma OpenByte(hex: seq<char>, pairs: seq<byte>, pending: byte, idx: nat)
    requires Gathered(hex, pairs, pending, idx) && idx < |hex| && idx % 2 == 0 && IsHexDigit(hex[idx])
    ensures Digit(hex[idx]) * 16 < 0x100
    ensures Gathered(hex, pairs, Digit(hex[idx]) * 16, idx + 1)
  {
    Bits.DigitAndRest(idx, idx / 2, 0);
    Bits.DigitAndRest(idx + 1, idx / 2, 1);
  }

  /** A digit at an odd position fills the low nibble and completes the byte. */
  lemma CloseByte(hex: seq<char>, pairs: seq<byte>, pending: byte, idx: nat)
    requires Gathered(hex, pairs, pending, idx) && idx < |hex| && idx % 2 == 1 && IsHexDigit(hex[idx])
    ensures pending + Digit(hex[idx]) < 0x100
    ensures Gathered(hex, pairs + [pending + Digit(hex[idx])], 0, idx + 1)
  {
    Bits.DigitAndRest(idx, idx / 2, 1);
    Bits.DigitAndRest(idx + 1, idx / 2 + 1, 0);
    assert pending + Digit(hex[idx]) == Pack(Digit(hex[idx - 1]), Digit(hex[idx]));
  }

  /**
    The bytes `hex_to_binary_buffer` has gathered after the last digit, the
    full pairs and, for an odd length, the pending half byte, make up the
    decoding.
  */
  lemma DecodeHexOfPairs(hex: seq<char>, pairs: seq<byte>, pending: byte)
    requires Gathered(hex, pairs, pending, |hex|)
    ensures DecodeHex(hex) == Ok(pairs + if |hex| % 2 == 1 then [pending] else [])
  {
    DecodeHexValid(hex);
    var n, m := |hex| / 2, |hex| % 2;
    Bits.DigitAndRest(|hex|, n, m);
    Bits.DigitAndRest(|hex| + 1, n + m, 1 - m);
    var r, full := DecodeHex(hex).value, pairs + if m == 1 then [pending] else [];
    assert |r| == |full| == n + m;
    forall k | 0 <= k < n + m ensures r[k] == full[k] {
      PairOrPending(hex, pairs, pending, k);
    }
    assert r == full;
  }

  /** Byte `k` of the gathered bytes is the packing of digits `2k` and `2k + 1` (or 0). */
  lemma PairOrPending(hex: seq<char>, pairs: seq<byte>, pending: byte, k: nat)
    requires IsHex(hex) && |pairs| == |hex| / 2 && 2 * k < |hex|
    requires forall j :: 0 <= j < |hex| / 2 ==> pairs[j] == Pack(Digit(hex[2 * j]), Digit(hex[2 * j + 1]))
    requires |hex| % 2 == 1 ==> pending == Pack(Digit(hex[|hex| - 1]), 0)
    ensures (pairs + if |hex| % 2 == 1 then [pending] else [])[k] == Pack(Digit(hex[2 * k]), LowDigit(hex, k))
  {
    if k < |pairs| {
      assert LowDigit(hex, k) == Digit(hex[2 * k + 1]);
    } else {
      Bits.DigitAndRest(|hex|, |hex| / 2, |hex| % 2);
      assert 2 * k == |hex| - 1 && LowDigit(hex, k) == 0;
    }
  }
}
