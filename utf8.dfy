/**
  The byte view of Rust strings: `str::bytes`/`as_bytes` (Encode) and
  `str::from_utf8` (Decode), following the UTF-8 byte-sequence syntax of
  section 4 of RFC 3629. A Dafny `char` is a Unicode scalar value, as a Rust
  `char` is.
*/
module Utf8 {
  import opened Common

  /** UTF8-tail = %x80-BF */
  predicate IsTail(b: byte) {
    0x80 <= b <= 0xBF
  }

  /**
    The length of the well-formed UTF-8 character that starts `b`
    (UTF8-1 .. UTF8-4 of RFC 3629, section 4), or 0 if none does.
  */
  function SequenceWidth(b: seq<byte>): (w: nat)
    requires |b| > 0
    ensures w <= 4 && w <= |b|
  {
    var b0 := b[0];
    if b0 <= 0x7F then 1
    else if 0xC2 <= b0 <= 0xDF then
      if |b| >= 2 && IsTail(b[1]) then 2 else 0
    else if b0 == 0xE0 then
      if |b| >= 3 && 0xA0 <= b[1] <= 0xBF && IsTail(b[2]) then 3 else 0
    else if 0xE1 <= b0 <= 0xEC || 0xEE <= b0 <= 0xEF then
      if |b| >= 3 && IsTail(b[1]) && IsTail(b[2]) then 3 else 0
    else if b0 == 0xED then
      if |b| >= 3 && 0x80 <= b[1] <= 0x9F && IsTail(b[2]) then 3 else 0
    else if b0 == 0xF0 then
      if |b| >= 4 && 0x90 <= b[1] <= 0xBF && IsTail(b[2]) && IsTail(b[3]) then 4 else 0
    else if 0xF1 <= b0 <= 0xF3 then
      if |b| >= 4 && IsTail(b[1]) && IsTail(b[2]) && IsTail(b[3]) then 4 else 0
    else if b0 == 0xF4 then
      if |b| >= 4 && 0x80 <= b[1] <= 0x8F && IsTail(b[2]) && IsTail(b[3]) then 4 else 0
    else 0
  }

  /** UTF8-octets = *( UTF8-char ) */
  predicate IsWellFormed(b: seq<byte>)
    decreases |b|
  {
    b == [] || (SequenceWidth(b) > 0 && IsWellFormed(b[SequenceWidth(b)..]))
  }

  /** The scalar value encoded by the well-formed character that starts `b`. */
  function DecodeChar(b: seq<byte>): (c: char)
    requires |b| > 0 && SequenceWidth(b) > 0
  {
    var v0 := b[0];
    if v0 < 0x80 then
      v0 as char
    else if v0 < 0xE0 then
      CodePoint2(v0, b[1]) as char
    else if v0 < 0xF0 then
      CodePoint3(v0, b[1], b[2]) as char
    else
      CodePoint4(v0, b[1], b[2], b[3]) as char
  }

  function CodePoint2(v0: int, v1: int): int {
    (v0 - 0xC0) * 0x40 + (v1 - 0x80)
  }

  function CodePoint3(v0: int, v1: int, v2: int): int {
    (v0 - 0xE0) * 0x1000 + (v1 - 0x80) * 0x40 + (v2 - 0x80)
  }

  function CodePoint4(v0: int, v1: int, v2: int, v3: int): int {
    (v0 - 0xF0) * 0x4_0000 + (v1 - 0x80) * 0x1000 + (v2 - 0x80) * 0x40 + (v3 - 0x80)
  }

  /**
    `str::from_utf8`: the characters of `b`, or None when `b` is not well
    formed. Decoding succeeds exactly on well-formed input and loses
    nothing: the decoded string's bytes are `b` again.
  */
  function Decode(b: seq<byte>): (r: Option<seq<char>>)
    ensures r.Some? <==> IsWellFormed(b)
    ensures r.Some? ==> Encode(r.value) == b
    decreases |b|
  {
    if b == [] then Some([])
    else
      var w := SequenceWidth(b);
      if w == 0 then None
      else match Decode(b[w..])
        case None => None
        case Some(rest) =>
          EncodeOfDecodeStep(b, [DecodeChar(b)] + rest, rest);
          Some([DecodeChar(b)] + rest)
  }

  /** The UTF-8 encoding of one character (`char::encode_utf8`). */
  function EncodeChar(c: char): (r: seq<byte>)
    ensures 1 <= |r| <= 4
    ensures (|r| == 1) == (c as int < 0x80)
  {
    var n := c as int;
    if n < 0x80 then
      [n]
    else if n < 0x800 then
      [0xC0 + n / 0x40, 0x80 + n % 0x40]
    else if n < 0x1_0000 then
      [0xE0 + n / 0x1000, 0x80 + n / 0x40 % 0x40, 0x80 + n % 0x40]
    else
      [0xF0 + n / 0x4_0000, 0x80 + n / 0x1000 % 0x40, 0x80 + n / 0x40 % 0x40, 0x80 + n % 0x40]
  }

  /**
    `str::as_bytes`: the UTF-8 encoding of a string, one to four bytes per
    character (so only the empty string has no bytes).
  */
  function Encode(s: seq<char>): (r: seq<byte>)
    ensures |s| <= |r| <= 4 * |s|
  {
    if s == [] then []
    else
      EncodeChar(s[0]) + Encode(s[1..])
  }

  predicate IsAscii(s: seq<char>) {
    forall i :: 0 <= i < |s| ==> s[i] as int < 0x80
  }

  // ---------------------------------------------------------------------------
  // One character


  // The code point split into 6-bit groups, as the encoder does, and joined back.

  lemma Split2(n: int)
    requires 0 <= n
    ensures n == (n / 0x40) * 0x40 + n % 0x40 && 0 <= n % 0x40 < 0x40
  {
  }

  lemma Join2(n: int, x0: int, x1: int)
    requires 0 <= x0 && 0 <= x1 < 0x40 && n == x0 * 0x40 + x1
    ensures n / 0x40 == x0 && n % 0x40 == x1
  {
  }

  lemma Split3(n: int)
    requires 0 <= n
    ensures n == (n / 0x1000) * 0x1000 + (n / 0x40 % 0x40) * 0x40 + n % 0x40
    ensures 0 <= n / 0x40 % 0x40 < 0x40 && 0 <= n % 0x40 < 0x40
  {
  }

  /** The lead and second byte of a 3-byte character stay clear of overlong forms and surrogates. */
  lemma Split3Scalar(n: int)
    requires 0x800 <= n < 0xD800 || 0xE000 <= n < 0x1_0000
    ensures n / 0x1000 == 0 ==> n / 0x40 % 0x40 >= 0x20
    ensures n / 0x1000 == 0xD ==> n / 0x40 % 0x40 < 0x20
  {
  }

  lemma Join3(n: int, x0: int, x1: int, x2: int)
    requires 0 <= x0 && 0 <= x1 < 0x40 && 0 <= x2 < 0x40
    requires n == x0 * 0x1000 + x1 * 0x40 + x2
    ensures n / 0x1000 == x0 && n / 0x40 % 0x40 == x1 && n % 0x40 == x2
  {
    var low := x1 * 0x40 + x2;
    assert 0 <= low < 0x1000 && n == x0 * 0x1000 + low;
    Join2(n, x0 * 0x40 + x1, x2);
    Join2(n / 0x40, x0, x1);
  }

  lemma Split4(n: int)
    requires 0 <= n
    ensures n == (n / 0x4_0000) * 0x4_0000 + (n / 0x1000 % 0x40) * 0x1000
                 + (n / 0x40 % 0x40) * 0x40 + n % 0x40
    ensures 0 <= n / 0x1000 % 0x40 < 0x40 && 0 <= n / 0x40 % 0x40 < 0x40 && 0 <= n % 0x40 < 0x40
  {
    Split3(n);
    var a, low := n / 0x1000, (n / 0x40 % 0x40) * 0x40 + n % 0x40;
    assert n == a * 0x1000 + low && 0 <= low < 0x1000;
    Split2(a);
    var q, mid := a / 0x40, a % 0x40;
    assert a == q * 0x40 + mid && 0 <= mid < 0x40;
    var r := mid * 0x1000 + low;
    assert 0 <= r < 0x4_0000 && n == q * 0x4_0000 + r;
    assert n / 0x4_0000 == q;
  }

  lemma Join4(n: int, x0: int, x1: int, x2: int, x3: int)
    requires 0 <= x0 && 0 <= x1 < 0x40 && 0 <= x2 < 0x40 && 0 <= x3 < 0x40
    requires n == x0 * 0x4_0000 + x1 * 0x1000 + x2 * 0x40 + x3
    ensures n / 0x4_0000 == x0 && n / 0x1000 % 0x40 == x1 && n / 0x40 % 0x40 == x2 && n % 0x40 == x3
  {
    var m := x2 * 0x40 + x3;
    assert 0 <= m < 0x1000;
    Join2(n / 0x1000, x0, x1) by {
      assert n == (x0 * 0x40 + x1) * 0x1000 + m;
    }
  }

  // Which lead and continuation bytes make up a character of each width.

  lemma Width2Intro(b: seq<byte>)
    requires |b| >= 2 && 0xC2 <= b[0] <= 0xDF && IsTail(b[1])
    ensures SequenceWidth(b) == 2
  {
  }

  lemma Width2Elim(b: seq<byte>)
    requires |b| >= 2 && SequenceWidth(b) == 2
    ensures 0xC2 <= b[0] <= 0xDF && IsTail(b[1])
  {
  }

  lemma Width3Intro(b: seq<byte>)
    requires |b| >= 3 && 0xE0 <= b[0] <= 0xEF && IsTail(b[1]) && IsTail(b[2])
    requires b[0] == 0xE0 ==> 0xA0 <= b[1]
    requires b[0] == 0xED ==> b[1] <= 0x9F
    ensures SequenceWidth(b) == 3
  {
  }

  lemma Width3Elim(b: seq<byte>)
    requires |b| >= 3 && SequenceWidth(b) == 3
    ensures 0xE0 <= b[0] <= 0xEF && IsTail(b[1]) && IsTail(b[2])
    ensures b[0] == 0xE0 ==> 0xA0 <= b[1]
    ensures b[0] == 0xED ==> b[1] <= 0x9F
  {
  }

  lemma Width4Intro(b: seq<byte>)
    requires |b| >= 4 && 0xF0 <= b[0] <= 0xF4 && IsTail(b[1]) && IsTail(b[2]) && IsTail(b[3])
    requires b[0] == 0xF0 ==> 0x90 <= b[1]
    requires b[0] == 0xF4 ==> b[1] <= 0x8F
    ensures SequenceWidth(b) == 4
  {
  }

  lemma Width4Elim(b: seq<byte>)
    requires |b| >= 4 && SequenceWidth(b) == 4
    ensures 0xF0 <= b[0] <= 0xF4 && IsTail(b[1]) && IsTail(b[2]) && IsTail(b[3])
    ensures b[0] == 0xF0 ==> 0x90 <= b[1]
    ensures b[0] == 0xF4 ==> b[1] <= 0x8F
  {
  }

  /** The bytes of a character read back as that character. */
  lemma DecodeEncodeChar(c: char, rest: seq<byte>)
    ensures var e := EncodeChar(c) + rest;
            SequenceWidth(e) == |EncodeChar(c)| && DecodeChar(e) == c
  {
    var n := c as int;
    if n < 0x80 {
    } else if n < 0x800 {
      DecodeEncodeChar2(c, rest);
    } else if n < 0x1_0000 {
      DecodeEncodeChar3(c, rest);
    } else {
      DecodeEncodeChar4(c, rest);
    }
  }

  // The byte values the encoder produces, one width at a time.

  lemma EncodeChar2Bytes(c: char)
    requires 0x80 <= c as int < 0x800
    ensures var e, n := EncodeChar(c), c as int;
            |e| == 2 && e[0] == 0xC0 + n / 0x40 && e[1] == 0x80 + n % 0x40
  {
    var n := c as int;
  }

  lemma EncodeChar3Bytes(c: char)
    requires 0x800 <= c as int < 0x1_0000
    ensures var e, n := EncodeChar(c), c as int;
            && |e| == 3 && e[0] == 0xE0 + n / 0x1000
            && e[1] == 0x80 + n / 0x40 % 0x40 && e[2] == 0x80 + n % 0x40
  {
    var n := c as int;
    Split3(n);
  }

  lemma EncodeChar4Bytes(c: char)
    requires 0x1_0000 <= c as int
    ensures var e, n := EncodeChar(c), c as int;
            && |e| == 4 && e[0] == 0xF0 + n / 0x4_0000
            && e[1] == 0x80 + n / 0x1000 % 0x40
            && e[2] == 0x80 + n / 0x40 % 0x40 && e[3] == 0x80 + n % 0x40
  {
    var n := c as int;
    Split4(n);
  }

  // The value DecodeChar reads, one width at a time.

  lemma DecodeChar2Value(b: seq<byte>)
    requires |b| >= 2 && SequenceWidth(b) == 2
    ensures DecodeChar(b) as int == CodePoint2(b[0], b[1])
  {
  }

  lemma DecodeChar3Value(b: seq<byte>)
    requires |b| >= 3 && SequenceWidth(b) == 3
    ensures DecodeChar(b) as int == CodePoint3(b[0], b[1], b[2])
  {
  }

  lemma DecodeChar4Value(b: seq<byte>)
    requires |b| >= 4 && SequenceWidth(b) == 4
    ensures DecodeChar(b) as int == CodePoint4(b[0], b[1], b[2], b[3])
  {
  }

  lemma DecodeEncodeChar2(c: char, rest: seq<byte>)
    requires 0x80 <= c as int < 0x800
    ensures var e := EncodeChar(c) + rest;
            SequenceWidth(e) == 2 && DecodeChar(e) == c
  {
    var n := c as int;
    Split2(n);
    EncodeChar2Bytes(c);
    var e := EncodeChar(c) + rest;
    assert e[0] == EncodeChar(c)[0] && e[1] == EncodeChar(c)[1];
    Width2Intro(e);
    DecodeChar2Value(e);
  }

  lemma DecodeEncodeChar3(c: char, rest: seq<byte>)
    requires 0x800 <= c as int < 0x1_0000
    ensures var e := EncodeChar(c) + rest;
            SequenceWidth(e) == 3 && DecodeChar(e) == c
  {
    EncodeChar3Bytes(c);
    var e := EncodeChar(c) + rest;
    assert e[0] == EncodeChar(c)[0] && e[1] == EncodeChar(c)[1] && e[2] == EncodeChar(c)[2];
    ReadBack3(e, c as int);
  }

  lemma ReadBack3(e: seq<byte>, n: int)
    requires 0x800 <= n < 0xD800 || 0xE000 <= n < 0x1_0000
    requires |e| >= 3 && e[0] == 0xE0 + n / 0x1000
    requires e[1] == 0x80 + n / 0x40 % 0x40 && e[2] == 0x80 + n % 0x40
    ensures SequenceWidth(e) == 3 && DecodeChar(e) as int == n
  {
    Split3(n);
    Split3Scalar(n);
    Width3Intro(e);
    DecodeChar3Value(e);
  }

  lemma DecodeEncodeChar4(c: char, rest: seq<byte>)
    requires 0x1_0000 <= c as int
    ensures var e := EncodeChar(c) + rest;
            SequenceWidth(e) == 4 && DecodeChar(e) == c
  {
    var n := c as int;
    Split4(n);
    EncodeChar4Bytes(c);
    var e := EncodeChar(c) + rest;
    assert e[0] == EncodeChar(c)[0] && e[1] == EncodeChar(c)[1]
      && e[2] == EncodeChar(c)[2] && e[3] == EncodeChar(c)[3];
    assert n / 0x4_0000 == 0 ==> n / 0x1000 % 0x40 >= 0x10;
    assert n / 0x4_0000 == 4 ==> n / 0x1000 % 0x40 < 0x10;
    Width4Intro(e);
    DecodeChar4Value(e);
  }

  /** A well-formed character is re-encoded to the very bytes it was read from. */
  lemma EncodeDecodeChar(b: seq<byte>)
    requires |b| > 0 && SequenceWidth(b) > 0
    ensures EncodeChar(DecodeChar(b)) == b[..SequenceWidth(b)]
  {
    var w := SequenceWidth(b);
    if w == 1 {
    } else if w == 2 {
      EncodeDecodeChar2(b);
    } else if w == 3 {
      EncodeDecodeChar3(b);
    } else {
      EncodeDecodeChar4(b);
    }
  }

  lemma EncodeDecodeChar2(b: seq<byte>)
    requires |b| >= 2 && SequenceWidth(b) == 2
    ensures EncodeChar(DecodeChar(b)) == b[..2]
  {
    Width2Elim(b);
    DecodeChar2Value(b);
    var c := DecodeChar(b);
    Join2(c as int, b[0] - 0xC0, b[1] - 0x80);
    EncodeChar2Bytes(c);
    assert EncodeChar(c) == b[..2];
  }

  lemma EncodeDecodeChar3(b: seq<byte>)
    requires |b| >= 3 && SequenceWidth(b) == 3
    ensures EncodeChar(DecodeChar(b)) == b[..3]
  {
    var c := DecodeChar(b);
    Width3Elim(b);
    DecodeChar3Value(b);
    EncodeChar3Bytes(c);
    Rebuild3(b, EncodeChar(c), c as int);
  }

  lemma Rebuild3(b: seq<byte>, e: seq<byte>, n: int)
    requires |b| >= 3 && 0xE0 <= b[0] <= 0xEF && IsTail(b[1]) && IsTail(b[2])
    requires n == CodePoint3(b[0], b[1], b[2])
    requires |e| == 3 && e[0] == 0xE0 + n / 0x1000
    requires e[1] == 0x80 + n / 0x40 % 0x40 && e[2] == 0x80 + n % 0x40
    ensures e == b[..3]
  {
    Join3(n, b[0] - 0xE0, b[1] - 0x80, b[2] - 0x80);
    assert e[0] == b[0] && e[1] == b[1] && e[2] == b[2];
  }

  lemma EncodeDecodeChar4(b: seq<byte>)
    requires |b| >= 4 && SequenceWidth(b) == 4
    ensures EncodeChar(DecodeChar(b)) == b[..4]
  {
    var c := DecodeChar(b);
    Width4Elim(b);
    DecodeChar4Value(b);
    EncodeChar4Bytes(c);
    Rebuild4(b, EncodeChar(c), c as int);
  }

  lemma Rebuild4(b: seq<byte>, e: seq<byte>, n: int)
    requires |b| >= 4 && 0xF0 <= b[0] <= 0xF4 && IsTail(b[1]) && IsTail(b[2]) && IsTail(b[3])
    requires n == CodePoint4(b[0], b[1], b[2], b[3])
    requires |e| == 4 && e[0] == 0xF0 + n / 0x4_0000 && e[1] == 0x80 + n / 0x1000 % 0x40
    requires e[2] == 0x80 + n / 0x40 % 0x40 && e[3] == 0x80 + n % 0x40
    ensures e == b[..4]
  {
    Join4(n, b[0] - 0xF0, b[1] - 0x80, b[2] - 0x80, b[3] - 0x80);
    assert e[0] == b[0] && e[1] == b[1] && e[2] == b[2] && e[3] == b[3];
  }

  // ---------------------------------------------------------------------------
  // Strings

  /** Every string decodes back from its encoding. */
  lemma {:induction false} DecodeOfEncode(s: seq<char>)
    ensures Decode(Encode(s)) == Some(s)
  {
    if s != [] {
      DecodeEncodeChar(s[0], Encode(s[1..]));
      var e := Encode(s);
      assert e[|EncodeChar(s[0])|..] == Encode(s[1..]);
      DecodeOfEncode(s[1..]);
      assert Decode(e) == Some([s[0]] + s[1..]);
      assert [s[0]] + s[1..] == s;
    }
  }

  /** The encoding of every string is well formed. */
  lemma EncodeIsWellFormed(s: seq<char>)
    ensures IsWellFormed(Encode(s))
  {
    DecodeOfEncode(s);
  }

  /** One character read from the front of `b` and the re-encoded rest give back `b`. */
  lemma EncodeOfDecodeStep(b: seq<byte>, s: seq<char>, rest: seq<char>)
    requires |b| > 0 && SequenceWidth(b) > 0
    requires s == [DecodeChar(b)] + rest && Encode(rest) == b[SequenceWidth(b)..]
    ensures Encode(s) == b
  {
    var w := SequenceWidth(b);
    EncodeDecodeChar(b);
    assert s[0] == DecodeChar(b) && s[1..] == rest;
    assert Encode(s) == b[..w] + b[w..];
    assert b[..w] + b[w..] == b;
  }

  /** An ASCII string is encoded one byte per character, each byte the character's code. */
  lemma {:induction false} EncodeAscii(s: seq<char>)
    requires IsAscii(s)
    ensures |Encode(s)| == |s|
    ensures forall i :: 0 <= i < |s| ==> Encode(s)[i] == s[i] as int
  {
    if s != [] {
      EncodeAscii(s[1..]);
      assert forall i :: 1 <= i < |s| ==> Encode(s)[i] == Encode(s[1..])[i - 1];
    }
  }

  /** An ASCII string's bytes are its character codes, given as `b`. */
  lemma AsciiBytes(s: seq<char>, b: seq<byte>)
    requires |s| == |b| && forall i :: 0 <= i < |s| ==> s[i] as int < 0x80 && b[i] == s[i] as int
    ensures Encode(s) == b
  {
    EncodeAscii(s);
  }
}
