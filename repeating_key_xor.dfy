/**
  The `repeating_key_xor_5` crate: every byte of the message is XORed with
  the next byte of the key, the key starting over when it runs out.
*/
module RepeatingKeyXor {
  import opened Common
  import opened Bits
  import Utf8
  import SingleXorCipher

  // ---------------------------------------------------------------------------
  // Remainders

  lemma {:induction false} MulAtLeast(a: int, n: int)
    requires a >= 1 && n > 0
    ensures a * n >= n
    decreases a
  {
    if a > 1 {
      MulAtLeast(a - 1, n);
      assert a * n == (a - 1) * n + n;
    }
  }

  /** The remainder of `x` by `n` is the `r` of any `x == q * n + r` with `0 <= r < n`. */
  lemma ModUnique(x: int, n: int, q: int, r: int)
    requires n > 0 && x == q * n + r && 0 <= r < n
    ensures x % n == r
  {
    var q', r' := x / n, x % n;
    assert x == q' * n + r';
    if q > q' {
      MulAtLeast(q - q', n);
    } else if q < q' {
      MulAtLeast(q' - q, n);
    }
  }

  /** The remainder of `j + 1` is one more than that of `j`, or 0 after `n - 1`. */
  lemma ModSucc(j: nat, n: nat)
    requires n > 0
    ensures (j + 1) % n == if j % n + 1 == n then 0 else j % n + 1
  {
    var q, r := j / n, j % n;
    assert j == q * n + r;
    if r + 1 == n {
      assert j + 1 == (q + 1) * n + 0;
      ModUnique(j + 1, n, q + 1, 0);
    } else {
      ModUnique(j + 1, n, q, r + 1);
    }
  }

  // ---------------------------------------------------------------------------
  // The cycling key

  /** `key.bytes().cycle()` after one call of `next`: the first byte moves to the end. */
  function Rotate(key: seq<byte>): (r: seq<byte>)
    requires key != []
    ensures |r| == |key|
  {
    key[1..] + [key[0]]
  }

  /**
    The message bytes XORed with the bytes the cycling key iterator yields:
    the first with `key[0]`, the rest with the rotated key. `unwrap` on the
    iterator of an empty key panics, so a non-empty message needs a
    non-empty key.
  */
  function CycleXor(msg: seq<byte>, key: seq<byte>): (r: seq<byte>)
    requires key != [] || msg == []
    ensures |r| == |msg|
  {
    if msg == [] then [] else [XorByte(msg[0], key[0])] + CycleXor(msg[1..], Rotate(key))
  }

  /** Rotating the key shifts the position it is read at by one. */
  lemma RotateAt(key: seq<byte>, j: nat)
    requires key != []
    ensures Rotate(key)[j % |key|] == key[(j + 1) % |key|]
  {
    ModSucc(j, |key|);
  }

  /** Byte `i` of the output is `msg[i] ^ key[i mod |key|]`. */
  lemma {:induction false} CycleXorAt(msg: seq<byte>, key: seq<byte>)
    requires key != []
    ensures forall i :: 0 <= i < |msg| ==> CycleXor(msg, key)[i] == Xor(msg[i], key[i % |key|])
    decreases |msg|
  {
    if msg != [] {
      var r, rot := CycleXor(msg, key), Rotate(key);
      CycleXorAt(msg[1..], rot);
      forall i | 1 <= i < |msg| ensures r[i] == Xor(msg[i], key[i % |key|]) {
        assert r[i] == CycleXor(msg[1..], rot)[i - 1];
        RotateAt(key, i - 1);
      }
    }
  }

  /** XOR with the same cycling key twice gives back the message. */
  lemma CycleXorTwice(msg: seq<byte>, key: seq<byte>)
    requires key != [] || msg == []
    ensures CycleXor(CycleXor(msg, key), key) == msg
  {
    if key != [] {
      var r := CycleXor(msg, key);
      var twice := CycleXor(r, key);
      CycleXorAt(msg, key);
      CycleXorAt(r, key);
      forall i | 0 <= i < |msg| ensures twice[i] == msg[i] {
        XorCancel(msg[i], key[i % |key|]);
      }
    }
  }

  /** A one-byte key is single-byte XOR with that byte. */
  lemma CycleXorSingleByte(msg: seq<byte>, k: byte)
    ensures CycleXor(msg, [k]) == SingleXorCipher.XorWithKey(k, msg)
  {
    CycleXorAt(msg, [k]);
  }

  // ---------------------------------------------------------------------------
  // multi_key_xor_encode

  /**
    `multi_key_xor_encode`: the UTF-8 bytes of `msg` XORed with the cycling
    UTF-8 bytes of `key`. The output is as long as `msg` in bytes, and byte
    `i` is byte `i` of `msg` XORed with byte `i mod |key|` of `key`.
  */
  function MultiKeyXorEncode(msg: seq<char>, key: seq<char>): (r: seq<byte>)
    requires key != [] || msg == []
    ensures |r| == |Utf8.Encode(msg)|
    ensures key != [] ==>
              var m, k := Utf8.Encode(msg), Utf8.Encode(key);
              |k| > 0 && forall i :: 0 <= i < |m| ==> r[i] == Xor(m[i], k[i % |k|])
  {
    var m, k := Utf8.Encode(msg), Utf8.Encode(key);
    if k == [] then CycleXor(m, k)
    else
      CycleXorAt(m, k);
      CycleXor(m, k)
  }

  /** The empty message encodes to nothing under every key. */
  lemma MultiKeyXorEncodeEmpty(key: seq<char>)
    ensures MultiKeyXorEncode([], key) == []
  {
  }

  /**
    Encoding is its own inverse: the output XORed again with the key gives
    the bytes of `msg`, and when the output is itself a string, encoding
    that string with the key gives the bytes of `msg`.
  */
  lemma MultiKeyXorEncodeInvolution(msg: seq<char>, key: seq<char>)
    requires key != [] || msg == []
    ensures CycleXor(MultiKeyXorEncode(msg, key), Utf8.Encode(key)) == Utf8.Encode(msg)
    ensures Utf8.Decode(MultiKeyXorEncode(msg, key)).Some? ==>
              var s := Utf8.Decode(MultiKeyXorEncode(msg, key)).value;
              (key != [] || s == []) && MultiKeyXorEncode(s, key) == Utf8.Encode(msg)
  {
    var r := MultiKeyXorEncode(msg, key);
    CycleXorTwice(Utf8.Encode(msg), Utf8.Encode(key));
    if Utf8.Decode(r).Some? {
      var s := Utf8.Decode(r).value;
    }
  }

  /** With a key of one byte (an ASCII character) this is the single-byte XOR of `apply_xor_cipher`. */
  lemma MultiKeyXorEncodeSingleByte(msg: seq<char>, key: seq<char>)
    requires |Utf8.Encode(key)| == 1
    ensures key != []
    ensures MultiKeyXorEncode(msg, key) == SingleXorCipher.XorWithKey(Utf8.Encode(key)[0], Utf8.Encode(msg))
  {
    var k := Utf8.Encode(key);
    assert k == [k[0]];
    CycleXorSingleByte(Utf8.Encode(msg), k[0]);
  }
}
