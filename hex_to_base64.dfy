/**
  The `hex_to_base64_1` crate, which holds only its own copy of the hex
  validator; the character classes are those of `crypto_utilities`.
*/
module HexToBase64 {
  import CryptoUtilities

  /**
    `is_valid_hex`: stops at the first character that is not an ASCII hex
    digit. It accepts exactly the strings `crypto_utilities` accepts.
  */
  method IsValidHex(buf: seq<char>) returns (valid: bool)
    ensures valid <==> CryptoUtilities.IsHex(buf)
  {
    var i := 0;
    while i < |buf|
      invariant 0 <= i <= |buf|
      invariant CryptoUtilities.IsHex(buf[..i])
    {
      if !CryptoUtilities.IsHexDigit(buf[i]) {
        return false;
      }
      assert buf[..i + 1] == buf[..i] + [buf[i]];
      i := i + 1;
    }
    assert buf[..i] == buf;
    return true;
  }
}
