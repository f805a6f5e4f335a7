/**
  The `break_repeating_key_xor_6` crate: the Hamming distance between the
  UTF-8 bytes of two strings, the number of bit positions in which they
  differ.
*/
module BreakRepeatingKeyXor {
  import opened Common
  import opened Bits
  import Utf8

  /** The `String` error of `get_hamming_distance`: the strings differ in byte length. */
  datatype HammingError = LengthMismatch

  /**
    The number of differing bits of two byte strings of the same length: the
    bits set in the XOR of each pair of bytes, at most 8 per pair.
  */
  function Hamming(a: seq<byte>, b: seq<byte>): (d: nat)
    requires |a| == |b|
    ensures d <= 8 * |a|
  {
    if a == [] then 0
    else
      var n := |a| - 1;
      XorBound(a[n], b[n], 8);
      PopCountBound(Xor(a[n], b[n]), 8);
      Hamming(a[..n], b[..n]) + PopCount(Xor(a[n], b[n]))
  }

  /**
    `get_hamming_distance`: an error when the byte lengths differ; otherwise,
    for each pair of bytes, Kernighan's loop adds one for every set bit of
    their XOR, clearing the lowest one each time.
  */
  method GetHammingDistance(str1: seq<char>, str2: seq<char>) returns (r: Result<int, HammingError>)
    ensures r.Err? <==> |Utf8.Encode(str1)| != |Utf8.Encode(str2)|
    ensures r.Ok? ==> r.value == Hamming(Utf8.Encode(str1), Utf8.Encode(str2))
  {
    var bytes1, bytes2 := Utf8.Encode(str1), Utf8.Encode(str2);
    if |bytes1| != |bytes2| {
      return Err(LengthMismatch);
    }
    var hamming := 0;
    for i := 0 to |bytes1|
      invariant hamming == Hamming(bytes1[..i], bytes2[..i])
    {
      var xor: byte := XorByte(bytes1[i], bytes2[i]);
      while xor != 0
        invariant hamming + PopCount(xor) == Hamming(bytes1[..i], bytes2[..i]) + PopCount(Xor(bytes1[i], bytes2[i]))
        decreases xor
      {
        hamming := hamming + 1;
        ClearLowestBit(xor);
        AndAtMost(xor, xor - 1);
        xor := And(xor, xor - 1);
      }
      PopCountZero(xor);
      assert bytes1[..i + 1][..i] == bytes1[..i] && bytes2[..i + 1][..i] == bytes2[..i];
    }
    assert bytes1[..|bytes1|] == bytes1 && bytes2[..|bytes2|] == bytes2;
    return Ok(hamming);
  }

  /** The distance does not depend on the order of the operands. */
  lemma {:induction false} HammingSymmetric(a: seq<byte>, b: seq<byte>)
    requires |a| == |b|
    ensures Hamming(a, b) == Hamming(b, a)
    decreases |a|
  {
    if a != [] {
      var n := |a| - 1;
      HammingSymmetric(a[..n], b[..n]);
      XorComm(a[n], b[n]);
    }
  }

  /** The distance is zero exactly between equal strings. */
  lemma {:induction false} HammingZeroIffEqual(a: seq<byte>, b: seq<byte>)
    requires |a| == |b|
    ensures Hamming(a, b) == 0 <==> a == b
    decreases |a|
  {
    if a != [] {
      var n := |a| - 1;
      HammingZeroIffEqual(a[..n], b[..n]);
      XorZeroIffEqual(a[n], b[n]);
      PopCountZero(Xor(a[n], b[n]));
      assert a == a[..n] + [a[n]] && b == b[..n] + [b[n]];
    }
  }

  /** The triangle inequality: going through `b` never makes the distance from `a` to `c` shorter. */
  lemma {:induction false} HammingTriangle(a: seq<byte>, b: seq<byte>, c: seq<byte>)
    requires |a| == |b| == |c|
    ensures Hamming(a, c) <= Hamming(a, b) + Hamming(b, c)
    decreases |a|
  {
    if a != [] {
      var n := |a| - 1;
      HammingTriangle(a[..n], b[..n], c[..n]);
      XorTriangle(a[n], b[n], c[n]);
    }
  }

  /** The test vector on empty strings. */
  lemma HammingEmptyVector()
    ensures Hamming(Utf8.Encode(""), Utf8.Encode("")) == 0
  {
  }

  /** One more pair of bytes adds the bits set in their XOR. */
  lemma HammingAppend(a: seq<byte>, b: seq<byte>, k: nat)
    requires |a| == |b| && k < |a|
    ensures Hamming(a[..k + 1], b[..k + 1]) == Hamming(a[..k], b[..k]) + PopCount(Xor(a[k], b[k]))
  {
    assert a[..k + 1][..k] == a[..k] && b[..k + 1][..k] == b[..k];
  }

  /** The texts of the distance test and their bytes. */
  const ThisIsATestText: seq<char> := "this is a test"
  const WokkaWokkaText: seq<char> := "wokka wokka!!!"
  const ThisIsATest: seq<byte> := [0x74, 0x68, 0x69, 0x73, 0x20, 0x69, 0x73, 0x20, 0x61, 0x20, 0x74, 0x65, 0x73, 0x74]
  const WokkaWokka: seq<byte> := [0x77, 0x6F, 0x6B, 0x6B, 0x61, 0x20, 0x77, 0x6F, 0x6B, 0x6B, 0x61, 0x21, 0x21, 0x21]

  /** The test vector: "this is a test" and "wokka wokka!!!" differ in 37 bits. */
  lemma HammingVector()
    ensures |Utf8.Encode(ThisIsATestText)| == |Utf8.Encode(WokkaWokkaText)|
    ensures Hamming(Utf8.Encode(ThisIsATestText), Utf8.Encode(WokkaWokkaText)) == 37
  {
    TextBytes();
    WokkaBytesOfTexts();
    HammingOfWokka(Utf8.Encode(ThisIsATestText), Utf8.Encode(WokkaWokkaText));
  }

  lemma WokkaBytesOfTexts()
    ensures WokkaBytes(ThisIsATest, WokkaWokka)
  {
  }

  /**
    The uneven test: the longer text has more bytes, so `get_hamming_distance`
    fails on it.
  */
  lemma HammingUnevenVector()
    ensures |Utf8.Encode("this is a test for uneven strings")| != |Utf8.Encode(WokkaWokkaText)|
  {
    WokkaWokkaBytes();
  }

  lemma TextBytes()
    ensures Utf8.Encode(ThisIsATestText) == ThisIsATest && Utf8.Encode(WokkaWokkaText) == WokkaWokka
  {
    ThisIsATestBytes();
    WokkaWokkaBytes();
  }

  lemma ThisIsATestBytes()
    ensures Utf8.Encode(ThisIsATestText) == ThisIsATest
  {
    var s := ThisIsATestText;
    assert s[0] == 't' && s[1] == 'h' && s[2] == 'i' && s[3] == 's' && s[4] == ' ' && s[5] == 'i' && s[6] == 's';
    assert s[7] == ' ' && s[8] == 'a' && s[9] == ' ' && s[10] == 't' && s[11] == 'e' && s[12] == 's' && s[13] == 't';
    Utf8.AsciiBytes(s, ThisIsATest);
  }

  lemma WokkaWokkaBytes()
    ensures Utf8.Encode(WokkaWokkaText) == WokkaWokka
  {
    var t := WokkaWokkaText;
    assert t[0] == 'w' && t[1] == 'o' && t[2] == 'k' && t[3] == 'k' && t[4] == 'a' && t[5] == ' ' && t[6] == 'w';
    assert t[7] == 'o' && t[8] == 'k' && t[9] == 'k' && t[10] == 'a' && t[11] == '!' && t[12] == '!' && t[13] == '!';
    Utf8.AsciiBytes(t, WokkaWokka);
  }

  /** Byte by byte, `a` and `b` are the two texts of the distance test. */
  predicate WokkaBytes(a: seq<byte>, b: seq<byte>)
  {
    && |a| == 14 && |b| == 14
    && a[0] == 0x74 && b[0] == 0x77 && a[1] == 0x68 && b[1] == 0x6F
    && a[2] == 0x69 && b[2] == 0x6B && a[3] == 0x73 && b[3] == 0x6B
    && a[4] == 0x20 && b[4] == 0x61 && a[5] == 0x69 && b[5] == 0x20
    && a[6] == 0x73 && b[6] == 0x77 && a[7] == 0x20 && b[7] == 0x6F
    && a[8] == 0x61 && b[8] == 0x6B && a[9] == 0x20 && b[9] == 0x6B
    && a[10] == 0x74 && b[10] == 0x61 && a[11] == 0x65 && b[11] == 0x21
    && a[12] == 0x73 && b[12] == 0x21 && a[13] == 0x74 && b[13] == 0x21
  }

  /** The distance adds up, byte pair by byte pair, to 37. */
  lemma HammingOfWokka(a: seq<byte>, b: seq<byte>)
    requires WokkaBytes(a, b)
    ensures Hamming(a, b) == 37
  {
    HammingOfWokkaFront(a, b);
    HammingOfWokkaBack(a, b);
    assert a[..14] == a && b[..14] == b;
  }

  lemma HammingOfWokkaFront(a: seq<byte>, b: seq<byte>)
    requires WokkaBytes(a, b)
    ensures Hamming(a[..7], b[..7]) == 14
  {
    assert a[..0] == [] && b[..0] == [];
    WokkaPair0();
    HammingAppend(a, b, 0);
    WokkaPair1();
    HammingAppend(a, b, 1);
    WokkaPair2();
    HammingAppend(a, b, 2);
    WokkaPair3();
    HammingAppend(a, b, 3);
    WokkaPair4();
    HammingAppend(a, b, 4);
    WokkaPair5();
    HammingAppend(a, b, 5);
    WokkaPair6();
    HammingAppend(a, b, 6);
  }


  lemma HammingOfWokkaBack(a: seq<byte>, b: seq<byte>)
    requires WokkaBytes(a, b)
    requires Hamming(a[..7], b[..7]) == 14
    ensures Hamming(a[..14], b[..14]) == 37
  {
    WokkaPair7();
    HammingAppend(a, b, 7);
    WokkaPair8();
    HammingAppend(a, b, 8);
    WokkaPair9();
    HammingAppend(a, b, 9);
    WokkaPair10();
    HammingAppend(a, b, 10);
    WokkaPair11();
    HammingAppend(a, b, 11);
    WokkaPair12();
    HammingAppend(a, b, 12);
    WokkaPair13();
    HammingAppend(a, b, 13);
  }

  // Each byte pair of the distance test: its XOR, then the bits set in it,
  // both evaluated from the highest binary digits down.

  lemma WokkaPair0()
    ensures Xor(0x74, 0x77) == 3 && PopCount(3) == 2
  {
    assert Xor(0, 0) == 0;
    assert Xor(1, 1) == 0;
    assert Xor(3, 3) == 0;
    assert Xor(7, 7) == 0;
    assert Xor(14, 14) == 0;
    assert Xor(29, 29) == 0;
    assert Xor(58, 59) == 1;
    assert Xor(116, 119) == 3;
    assert PopCount(1) == 1;
    assert PopCount(3) == 2;
  }

  lemma WokkaPair1()
    ensures Xor(0x68, 0x6F) == 7 && PopCount(7) == 3
  {
    assert Xor(0, 0) == 0;
    assert Xor(1, 1) == 0;
    assert Xor(3, 3) == 0;
    assert Xor(6, 6) == 0;
    assert Xor(13, 13) == 0;
    assert Xor(26, 27) == 1;
    assert Xor(52, 55) == 3;
    assert Xor(104, 111) == 7;
    assert PopCount(1) == 1;
    assert PopCount(3) == 2;
    assert PopCount(7) == 3;
  }

  lemma WokkaPair2()
    ensures Xor(0x69, 0x6B) == 2 && PopCount(2) == 1
  {
    assert Xor(0, 0) == 0;
    assert Xor(1, 1) == 0;
    assert Xor(3, 3) == 0;
    assert Xor(6, 6) == 0;
    assert Xor(13, 13) == 0;
    assert Xor(26, 26) == 0;
    assert Xor(52, 53) == 1;
    assert Xor(105, 107) == 2;
    assert PopCount(1) == 1;
    assert PopCount(2) == 1;
  }

  lemma WokkaPair3()
    ensures Xor(0x73, 0x6B) == 24 && PopCount(24) == 2
  {
    assert Xor(0, 0) == 0;
    assert Xor(1, 1) == 0;
    assert Xor(3, 3) == 0;
    assert Xor(7, 6) == 1;
    assert Xor(14, 13) == 3;
    assert Xor(28, 26) == 6;
    assert Xor(57, 53) == 12;
    assert Xor(115, 107) == 24;
    assert PopCount(1) == 1;
    assert PopCount(3) == 2;
    assert PopCount(6) == 2;
    assert PopCount(12) == 2;
    assert PopCount(24) == 2;
  }

  lemma WokkaPair4()
    ensures Xor(0x20, 0x61) == 65 && PopCount(65) == 2
  {
    assert Xor(0, 0) == 0;
    assert Xor(0, 1) == 1;
    assert Xor(1, 3) == 2;
    assert Xor(2, 6) == 4;
    assert Xor(4, 12) == 8;
    assert Xor(8, 24) == 16;
    assert Xor(16, 48) == 32;
    assert Xor(32, 97) == 65;
    assert PopCount(1) == 1;
    assert PopCount(2) == 1;
    assert PopCount(4) == 1;
    assert PopCount(8) == 1;
    assert PopCount(16) == 1;
    assert PopCount(32) == 1;
    assert PopCount(65) == 2;
  }

  lemma WokkaPair5()
    ensures Xor(0x69, 0x20) == 73 && PopCount(73) == 3
  {
    assert Xor(0, 0) == 0;
    assert Xor(1, 0) == 1;
    assert Xor(3, 1) == 2;
    assert Xor(6, 2) == 4;
    assert Xor(13, 4) == 9;
    assert Xor(26, 8) == 18;
    assert Xor(52, 16) == 36;
    assert Xor(105, 32) == 73;
    assert PopCount(1) == 1;
    assert PopCount(2) == 1;
    assert PopCount(4) == 1;
    assert PopCount(9) == 2;
    assert PopCount(18) == 2;
    assert PopCount(36) == 2;
    assert PopCount(73) == 3;
  }

  lemma WokkaPair6()
    ensures Xor(0x73, 0x77) == 4 && PopCount(4) == 1
  {
    assert Xor(0, 0) == 0;
    assert Xor(1, 1) == 0;
    assert Xor(3, 3) == 0;
    assert Xor(7, 7) == 0;
    assert Xor(14, 14) == 0;
    assert Xor(28, 29) == 1;
    assert Xor(57, 59) == 2;
    assert Xor(115, 119) == 4;
    assert PopCount(1) == 1;
    assert PopCount(2) == 1;
    assert PopCount(4) == 1;
  }

  lemma WokkaPair7()
    ensures Xor(0x20, 0x6F) == 79 && PopCount(79) == 5
  {
    assert Xor(0, 0) == 0;
    assert Xor(0, 1) == 1;
    assert Xor(1, 3) == 2;
    assert Xor(2, 6) == 4;
    assert Xor(4, 13) == 9;
    assert Xor(8, 27) == 19;
    assert Xor(16, 55) == 39;
    assert Xor(32, 111) == 79;
    assert PopCount(1) == 1;
    assert PopCount(2) == 1;
    assert PopCount(4) == 1;
    assert PopCount(9) == 2;
    assert PopCount(19) == 3;
    assert PopCount(39) == 4;
    assert PopCount(79) == 5;
  }

  lemma WokkaPair8()
    ensures Xor(0x61, 0x6B) == 10 && PopCount(10) == 2
  {
    assert Xor(0, 0) == 0;
    assert Xor(1, 1) == 0;
    assert Xor(3, 3) == 0;
    assert Xor(6, 6) == 0;
    assert Xor(12, 13) == 1;
    assert Xor(24, 26) == 2;
    assert Xor(48, 53) == 5;
    assert Xor(97, 107) == 10;
    assert PopCount(1) == 1;
    assert PopCount(2) == 1;
    assert PopCount(5) == 2;
    assert PopCount(10) == 2;
  }

  lemma WokkaPair9()
    ensures Xor(0x20, 0x6B) == 75 && PopCount(75) == 4
  {
    assert Xor(0, 0) == 0;
    assert Xor(0, 1) == 1;
    assert Xor(1, 3) == 2;
    assert Xor(2, 6) == 4;
    assert Xor(4, 13) == 9;
    assert Xor(8, 26) == 18;
    assert Xor(16, 53) == 37;
    assert Xor(32, 107) == 75;
    assert PopCount(1) == 1;
    assert PopCount(2) == 1;
    assert PopCount(4) == 1;
    assert PopCount(9) == 2;
    assert PopCount(18) == 2;
    assert PopCount(37) == 3;
    assert PopCount(75) == 4;
  }

  lemma WokkaPair10()
    ensures Xor(0x74, 0x61) == 21 && PopCount(21) == 3
  {
    assert Xor(0, 0) == 0;
    assert Xor(1, 1) == 0;
    assert Xor(3, 3) == 0;
    assert Xor(7, 6) == 1;
    assert Xor(14, 12) == 2;
    assert Xor(29, 24) == 5;
    assert Xor(58, 48) == 10;
    assert Xor(116, 97) == 21;
    assert PopCount(1) == 1;
    assert PopCount(2) == 1;
    assert PopCount(5) == 2;
    assert PopCount(10) == 2;
    assert PopCount(21) == 3;
  }

  lemma WokkaPair11()
    ensures Xor(0x65, 0x21) == 68 && PopCount(68) == 2
  {
    assert Xor(0, 0) == 0;
    assert Xor(1, 0) == 1;
    assert Xor(3, 1) == 2;
    assert Xor(6, 2) == 4;
    assert Xor(12, 4) == 8;
    assert Xor(25, 8) == 17;
    assert Xor(50, 16) == 34;
    assert Xor(101, 33) == 68;
    assert PopCount(1) == 1;
    assert PopCount(2) == 1;
    assert PopCount(4) == 1;
    assert PopCount(8) == 1;
    assert PopCount(17) == 2;
    assert PopCount(34) == 2;
    assert PopCount(68) == 2;
  }

  lemma WokkaPair12()
    ensures Xor(0x73, 0x21) == 82 && PopCount(82) == 3
  {
    assert Xor(0, 0) == 0;
    assert Xor(1, 0) == 1;
    assert Xor(3, 1) == 2;
    assert Xor(7, 2) == 5;
    assert Xor(14, 4) == 10;
    assert Xor(28, 8) == 20;
    assert Xor(57, 16) == 41;
    assert Xor(115, 33) == 82;
    assert PopCount(1) == 1;
    assert PopCount(2) == 1;
    assert PopCount(5) == 2;
    assert PopCount(10) == 2;
    assert PopCount(20) == 2;
    assert PopCount(41) == 3;
    assert PopCount(82) == 3;
  }

  lemma WokkaPair13()
    ensures Xor(0x74, 0x21) == 85 && PopCount(85) == 4
  {
    assert Xor(0, 0) == 0;
    assert Xor(1, 0) == 1;
    assert Xor(3, 1) == 2;
    assert Xor(7, 2) == 5;
    assert Xor(14, 4) == 10;
    assert Xor(29, 8) == 21;
    assert Xor(58, 16) == 42;
    assert Xor(116, 33) == 85;
    assert PopCount(1) == 1;
    assert PopCount(2) == 1;
    assert PopCount(5) == 2;
    assert PopCount(10) == 2;
    assert PopCount(21) == 3;
    assert PopCount(42) == 3;
    assert PopCount(85) == 4;
  }
}
