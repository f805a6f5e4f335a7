/**
  The `single_xor_cipher_3` crate: decryption under a one-byte XOR key, the
  character counter used for frequency analysis, and the brute-force search
  that keeps the key whose decryption scores lowest.

  The chi-squared score compares character percentages in `f32`; here it is
  an abstract function `score` from a candidate message to a real number.
  The reference table read from `sample-text.txt` is the value that fixes
  that function, and an unreadable file is `None`.
*/
module SingleXorCipher {
  import opened Common
  import opened Bits
  import Utf8
  import CryptoUtilities

  /** `str::Utf8Error`: the decrypted bytes are not UTF-8. */
  datatype Utf8Error = InvalidUtf8

  /** The bytes `msg[i] ^ key`. */
  function XorWithKey(key: byte, msg: seq<byte>): (r: seq<byte>)
    ensures |r| == |msg|
    ensures forall i :: 0 <= i < |msg| ==> r[i] == Xor(msg[i], key)
  {
    if msg == [] then [] else [XorByte(msg[0], key)] + XorWithKey(key, msg[1..])
  }

  /** A message whose every byte XORs with the key to the byte of `r` at the same place. */
  lemma XorOfBytes(key: byte, msg: seq<byte>, r: seq<byte>)
    requires |r| == |msg| && forall i :: 0 <= i < |msg| ==> Xor(msg[i], key) == r[i]
    ensures XorWithKey(key, msg) == r
  {
  }

  /** XOR with the same key twice gives back the message. */
  lemma XorWithKeyTwice(key: byte, msg: seq<byte>)
    ensures XorWithKey(key, XorWithKey(key, msg)) == msg
  {
    var twice := XorWithKey(key, XorWithKey(key, msg));
    forall i | 0 <= i < |msg| ensures twice[i] == msg[i] {
      XorCancel(msg[i], key);
    }
  }

  // ---------------------------------------------------------------------------
  // apply_xor_cipher

  /**
    `apply_xor_cipher`: the string whose UTF-8 bytes are `encodedMsg[i] ^ key`.
    It fails exactly when those bytes are not UTF-8.
  */
  function ApplyXorCipher(key: byte, encodedMsg: seq<byte>): (r: Result<seq<char>, Utf8Error>)
    ensures r.Ok? <==> Utf8.IsWellFormed(XorWithKey(key, encodedMsg))
    ensures r.Ok? ==> Utf8.Encode(r.value) == XorWithKey(key, encodedMsg)
  {
    match Utf8.Decode(XorWithKey(key, encodedMsg))
      case Some(decodedStr) => Ok(decodedStr)
      case None => Err(InvalidUtf8)
  }

  /** Decrypting a decrypted message with the same key gives back the encrypted bytes. */
  lemma ApplyXorCipherInvolution(key: byte, encodedMsg: seq<byte>)
    requires ApplyXorCipher(key, encodedMsg).Ok?
    ensures XorWithKey(key, Utf8.Encode(ApplyXorCipher(key, encodedMsg).value)) == encodedMsg
  {
    XorWithKeyTwice(key, encodedMsg);
  }

  /** Any string encrypted under `key` is recovered by `apply_xor_cipher` with that key. */
  lemma ApplyXorCipherRecovers(key: byte, plain: seq<char>)
    ensures ApplyXorCipher(key, XorWithKey(key, Utf8.Encode(plain))) == Ok(plain)
  {
    XorWithKeyTwice(key, Utf8.Encode(plain));
    Utf8.DecodeOfEncode(plain);
  }

  /** The empty message decrypts to the empty string under every key. */
  lemma ApplyXorCipherEmpty(key: byte)
    ensures ApplyXorCipher(key, []) == Ok([])
  {
  }

  /** The bytes of "asdf" and of "yk|~". */
  const AsdfBytes: seq<byte> := [0x61, 0x73, 0x64, 0x66]
  const YkBytes: seq<byte> := [0x79, 0x6B, 0x7C, 0x7E]

  /** The test vector of `apply_xor_cipher` on valid UTF-8: "asdf" under key 24. */
  lemma ApplyXorCipherValidVector()
    ensures ApplyXorCipher(24, Utf8.Encode("asdf")) == Ok("yk|~")
  {
    Utf8.AsciiBytes("asdf", AsdfBytes);
    Utf8.AsciiBytes("yk|~", YkBytes);
    XorAsdf();
    ApplyXorCipherRecovers(24, "yk|~");
  }

  /** "yk|~" under key 24 is "asdf". */
  lemma XorAsdf()
    ensures XorWithKey(24, YkBytes) == AsdfBytes
  {
    XorAsdfBytes();
    var r := XorWithKey(24, YkBytes);
    assert YkBytes[0] == 0x79 && YkBytes[1] == 0x6B && YkBytes[2] == 0x7C && YkBytes[3] == 0x7E;
    assert r[0] == 0x61 && r[1] == 0x73 && r[2] == 0x64 && r[3] == 0x66;
    assert r == AsdfBytes;
  }

  lemma XorAsdfBytes()
    ensures Xor(0x79, 24) == 0x61 && Xor(0x6B, 24) == 0x73 && Xor(0x7C, 24) == 0x64 && Xor(0x7E, 24) == 0x66
  {
    // each XOR evaluated from its highest binary digits down
    assert Xor(0, 0) == 0;
    assert Xor(1, 0) == 1;
    assert Xor(3, 0) == 3;
    assert Xor(7, 1) == 6;
    assert Xor(15, 3) == 12;
    assert Xor(30, 6) == 24;
    assert Xor(60, 12) == 48;
    assert Xor(121, 24) == 97;
    assert Xor(6, 1) == 7;
    assert Xor(13, 3) == 14;
    assert Xor(26, 6) == 28;
    assert Xor(53, 12) == 57;
    assert Xor(107, 24) == 115;
    assert Xor(31, 6) == 25;
    assert Xor(62, 12) == 50;
    assert Xor(124, 24) == 100;
    assert Xor(63, 12) == 51;
    assert Xor(126, 24) == 102;
  }

  /** The test vectors of `apply_xor_cipher` whose decryption is not UTF-8. */
  lemma ApplyXorCipherInvalidVectors()
    ensures ApplyXorCipher(24, InvalidShortBytes).Err?
    ensures ApplyXorCipher(12, InvalidLongBytes).Err?
  {
    XorInvalidShort();
    DecodeInvalidShort();
    XorInvalidLong(InvalidLongBytes);
    DecodeInvalidLong();
  }

  /** 255 ^ 24 = 0xE7 opens a three-byte character that has only one byte after it. */
  lemma DecodeInvalidShort()
    ensures Utf8.Decode([0xE7, 0x19]).None?
  {
    assert Utf8.SequenceWidth([0xE7, 0x19]) == 0;
  }

  /** 143 ^ 12 = 0x83 is a continuation byte where a character must start. */
  lemma DecodeInvalidLong()
    ensures Utf8.Decode([0x0C, 0x25, 0x83, 0x05, 0x05]).None?
  {
    assert Utf8.SequenceWidth([0x83, 0x05, 0x05]) == 0;
    assert [0x0C, 0x25, 0x83, 0x05, 0x05][1..] == [0x25, 0x83, 0x05, 0x05];
    assert [0x25, 0x83, 0x05, 0x05][1..] == [0x83, 0x05, 0x05];
  }

  /** The first invalid vector after the XOR. */
  const InvalidShortBytes: seq<byte> := [0xFF, 0x01]

  lemma XorInvalidShort()
    ensures XorWithKey(24, InvalidShortBytes) == [0xE7, 0x19]
  {
    XorInvalidShortBytes();
    var r := XorWithKey(24, InvalidShortBytes);
    assert InvalidShortBytes[0] == 0xFF && InvalidShortBytes[1] == 0x01;
    assert r[0] == 0xE7 && r[1] == 0x19;
  }

  lemma XorInvalidShortBytes()
    ensures Xor(0xFF, 24) == 0xE7 && Xor(0x01, 24) == 0x19
  {
    // each XOR evaluated from its highest binary digits down
    assert Xor(0, 0) == 0;
    assert Xor(1, 0) == 1;
    assert Xor(3, 0) == 3;
    assert Xor(7, 0) == 7;
    assert Xor(15, 1) == 14;
    assert Xor(31, 3) == 28;
    assert Xor(63, 6) == 57;
    assert Xor(127, 12) == 115;
    assert Xor(255, 24) == 231;
    assert Xor(0, 1) == 1;
    assert Xor(0, 3) == 3;
    assert Xor(0, 6) == 6;
    assert Xor(0, 12) == 12;
    assert Xor(1, 24) == 25;
  }

  /** The second invalid vector after the XOR. */
  const InvalidLongBytes: seq<byte> := [0x00, 0x29, 0x8F, 0x09, 0x09]

  lemma XorInvalidLong(m: seq<byte>)
    requires |m| == 5 && m[0] == 0x00 && m[1] == 0x29 && m[2] == 0x8F && m[3] == 0x09 && m[4] == 0x09
    ensures XorWithKey(12, m) == [0x0C, 0x25, 0x83, 0x05, 0x05]
  {
    XorInvalidLongBytes();
    var r: seq<byte> := [0x0C, 0x25, 0x83, 0x05, 0x05];
    assert Xor(m[0], 12) == r[0] && Xor(m[1], 12) == r[1] && Xor(m[2], 12) == r[2];
    assert Xor(m[3], 12) == r[3] && Xor(m[4], 12) == r[4];
    XorOfBytes(12, m, r);
  }

  lemma XorInvalidLongBytes()
    ensures Xor(0x00, 12) == 0x0C && Xor(0x29, 12) == 0x25 && Xor(0x8F, 12) == 0x83 && Xor(0x09, 12) == 0x05
  {
    // each XOR evaluated from its highest binary digits down
    assert Xor(0, 0) == 0;
    assert Xor(0, 1) == 1;
    assert Xor(0, 3) == 3;
    assert Xor(0, 6) == 6;
    assert Xor(0, 12) == 12;
    assert Xor(1, 0) == 1;
    assert Xor(2, 0) == 2;
    assert Xor(5, 1) == 4;
    assert Xor(10, 3) == 9;
    assert Xor(20, 6) == 18;
    assert Xor(41, 12) == 37;
    assert Xor(4, 0) == 4;
    assert Xor(8, 0) == 8;
    assert Xor(17, 1) == 16;
    assert Xor(35, 3) == 32;
    assert Xor(71, 6) == 65;
    assert Xor(143, 12) == 131;
    assert Xor(1, 1) == 0;
    assert Xor(2, 3) == 1;
    assert Xor(4, 6) == 2;
    assert Xor(9, 12) == 5;
  }

  // ---------------------------------------------------------------------------
  // get_character_frequencies

  /**
    The occurrence table of `text`: a character has an entry exactly when it
    occurs, and its entry is the number of positions that hold it.
  */
  function Frequencies(text: seq<char>): (counts: map<char, nat>)
    ensures forall c :: c in counts <==> c in text
    ensures forall c :: c in counts ==> counts[c] == |Occurrences(text, c)|
    ensures forall c :: c in counts ==> 0 < counts[c] <= |text|
  {
    var m := multiset(text);
    assert forall c :: c in m ==> m[c] == |Occurrences(text, c)| <= |text| by {
      forall c | c in m ensures m[c] == |Occurrences(text, c)| <= |text| {
        OccurrencesCount(text, c);
      }
    }
    map c | c in m :: m[c]
  }

  /**
    `get_character_frequencies`: one pass over the characters, adding 1 to
    the entry of each (inserting 1 for a new character).
  */
  method GetCharacterFrequencies(text: seq<char>) returns (counts: map<char, nat>)
    ensures counts == Frequencies(text)
  {
    counts := map[];
    for i := 0 to |text|
      invariant counts == Frequencies(text[..i])
    {
      var c := text[i];
      assert text[..i + 1] == text[..i] + [c];
      FrequenciesAppend(text[..i], c);
      if c in counts {
        counts := counts[c := counts[c] + 1];
      } else {
        counts := counts[c := 1];
      }
    }
    assert text[..|text|] == text;
  }

  /** One more character adds one to its entry, or gives it the entry 1. */
  lemma FrequenciesAppend(text: seq<char>, c: char)
    ensures var f := Frequencies(text);
            Frequencies(text + [c]) == if c in f then f[c := f[c] + 1] else f[c := 1]
  {
    var f, m := Frequencies(text), multiset(text);
    assert multiset(text + [c]) == m + multiset{c};
    assert c in f <==> c in m;
  }

  /** The positions of `text` that hold `c`. */
  function Occurrences(text: seq<char>, c: char): set<nat>
  {
    set i: nat | i < |text| && text[i] == c
  }

  lemma {:induction false} OccurrencesCount(text: seq<char>, c: char)
    ensures multiset(text)[c] == |Occurrences(text, c)| <= |text|
  {
    if text != [] {
      var n := |text| - 1;
      var front := text[..n];
      assert text == front + [text[n]];
      OccurrencesCount(front, c);
      if text[n] == c {
        assert Occurrences(text, c) == Occurrences(front, c) + {n};
      } else {
        assert Occurrences(text, c) == Occurrences(front, c);
      }
    }
  }

  /** The sum of the counts of a table. */
  ghost function Total(counts: map<char, nat>): nat
    decreases |counts|
  {
    if counts == map[] then 0
    else
      var c :| c in counts;
      counts[c] + Total(counts - {c})
  }

  /** The counts sum to the number of characters of the text. */
  lemma FrequenciesTotal(text: seq<char>)
    ensures Total(Frequencies(text)) == |text|
  {
    TotalOfMultiset(multiset(text));
  }

  lemma {:induction false} TotalOfMultiset(m: multiset<char>)
    ensures Total(map c | c in m :: m[c]) == |m|
    decreases |m|
  {
    var counts := map c | c in m :: m[c];
    if counts != map[] {
      var c :| c in counts && Total(counts) == counts[c] + Total(counts - {c});
      var rest := m[c := 0];
      assert counts - {c} == map x | x in rest :: rest[x];
      RemoveAll(m, c, m[c]);
      TotalOfMultiset(rest);
    } else {
      assert forall x :: x in m <==> x in counts;
      assert m == multiset{};
    }
  }

  /** A multiset holding `c` exactly `n` times has `n` more elements than it has without `c`. */
  lemma {:induction false} RemoveAll(m: multiset<char>, c: char, n: nat)
    ensures |m[c := n]| == |m[c := 0]| + n
  {
    if n > 0 {
      RemoveAll(m, c, n - 1);
      assert m[c := n] == m[c := n - 1] + multiset{c};
    }
  }

  /** The test vectors of `get_character_frequencies`. */
  lemma FrequenciesVectors()
    ensures Frequencies("") == map[]
    ensures Frequencies("aaaabbcc") == map['a' := 4, 'b' := 2, 'c' := 2]
  {
    SampleMultiset();
    var f := Frequencies("aaaabbcc");
    assert f.Keys == {'a', 'b', 'c'};
    assert f['a'] == 4 && f['b'] == 2 && f['c'] == 2;
  }

  /** The sample text holds four `a`, two `b`, two `c` and nothing else. */
  lemma SampleMultiset()
    ensures multiset("aaaabbcc") == multiset{'a', 'a', 'a', 'a', 'b', 'b', 'c', 'c'}
    ensures forall x :: x in multiset("aaaabbcc") ==> x == 'a' || x == 'b' || x == 'c'
  {
    var m := multiset("aaaabbcc");
    assert m == multiset{'a', 'a', 'a', 'a', 'b', 'b', 'c', 'c'};
    forall x | x in m ensures x == 'a' || x == 'b' || x == 'c' { }
  }

  // ---------------------------------------------------------------------------
  // single_xor_cipher_crack

  /** The errors of `single_xor_cipher_crack`. */
  datatype CrackError =
    | InvalidHex(encodedMsg: seq<char>)           // the input is not hexadecimal
    | HexDecode(error: CryptoUtilities.HexError)  // propagated from `hex_to_binary_buffer`
    | ReferenceUnavailable                        // `sample-text.txt` could not be read
    | NoValidKey                                  // no key gives a UTF-8 decryption

  /** The best key found so far, the message it decrypts to and that message's score. */
  datatype Candidate = Candidate(key: byte, message: seq<char>, chi: real)

  /** The number of keys the search tries: the range `0..255` holds 0 to 254. */
  const KeysTried: nat := 255

  /** The decryption under every key: `apply_xor_cipher(key, bytes)` as a function of the key. */
  function Decryptions(bytes: seq<byte>): byte -> Result<seq<char>, Utf8Error>
  {
    (key: byte) => ApplyXorCipher(key, bytes)
  }

  /**
    The candidate the search holds after trying keys `0 .. n - 1` in order: a
    key whose decryption is UTF-8 replaces the current one when there is none
    yet or when its score is strictly smaller.
  */
  function BestCandidate(decrypt: byte -> Result<seq<char>, Utf8Error>, score: seq<char> -> real, n: nat)
    : (r: Option<Candidate>)
    requires n <= 0x100
    ensures r.Some? ==> r.value.key < n && decrypt(r.value.key) == Ok(r.value.message) &&
                        r.value.chi == score(r.value.message)
  {
    if n == 0 then None
    else
      var prev := BestCandidate(decrypt, score, n - 1);
      match decrypt(n - 1)
        case Err(_) => prev
        case Ok(attempt) =>
          if prev.None? || score(attempt) < prev.value.chi then Some(Candidate(n - 1, attempt, score(attempt)))
          else prev
  }

  /** The search finds nothing exactly when no tried key gives a UTF-8 decryption. */
  lemma {:induction false} BestCandidateNone(decrypt: byte -> Result<seq<char>, Utf8Error>,
                                             score: seq<char> -> real, n: nat)
    requires n <= 0x100
    ensures BestCandidate(decrypt, score, n).None? <==> forall k: byte :: k < n ==> decrypt(k).Err?
  {
    if n > 0 {
      BestCandidateNone(decrypt, score, n - 1);
    }
  }

  /** The candidate's score is minimal among the tried keys whose decryption is UTF-8. */
  lemma {:induction false} BestCandidateMinimal(decrypt: byte -> Result<seq<char>, Utf8Error>,
                                                score: seq<char> -> real, n: nat)
    requires n <= 0x100 && BestCandidate(decrypt, score, n).Some?
    ensures forall k: byte :: k < n && decrypt(k).Ok? ==>
              BestCandidate(decrypt, score, n).value.chi <= score(decrypt(k).value)
  {
    if BestCandidate(decrypt, score, n - 1).Some? {
      BestCandidateMinimal(decrypt, score, n - 1);
    } else {
      BestCandidateNone(decrypt, score, n - 1);
    }
  }

  /** Every key before the candidate's scores strictly higher: the first minimum wins. */
  lemma {:induction false} BestCandidateFirst(decrypt: byte -> Result<seq<char>, Utf8Error>,
                                              score: seq<char> -> real, n: nat)
    requires n <= 0x100 && BestCandidate(decrypt, score, n).Some?
    ensures forall k: byte :: k < BestCandidate(decrypt, score, n).value.key && decrypt(k).Ok? ==>
              BestCandidate(decrypt, score, n).value.chi < score(decrypt(k).value)
  {
    var prev := BestCandidate(decrypt, score, n - 1);
    if BestCandidate(decrypt, score, n) == prev {
      BestCandidateFirst(decrypt, score, n - 1);
    } else if prev.Some? {
      BestCandidateMinimal(decrypt, score, n - 1);
    } else {
      BestCandidateNone(decrypt, score, n - 1);
    }
  }

  /** The three variables of the search hold the candidate `best`, or all three are `None`. */
  predicate Holds(best: Option<Candidate>, smallestChi: Option<real>,
                  decodedMessage: Option<seq<char>>, bestKey: Option<byte>)
  {
    match best
      case None => smallestChi.None? && decodedMessage.None? && bestKey.None?
      case Some(c) =>
        smallestChi == Some(c.chi) && decodedMessage == Some(c.message) && bestKey == Some(c.key)
  }

  /**
    One step of the search: the variables that hold the candidate for keys
    below `key` hold, once `key` is tried and the variables updated as the
    loop does, the candidate for keys below `key + 1`.
  */
  lemma SearchStep(decrypt: byte -> Result<seq<char>, Utf8Error>, score: seq<char> -> real, key: byte,
                   smallestChi: Option<real>, decodedMessage: Option<seq<char>>, bestKey: Option<byte>)
    requires Holds(BestCandidate(decrypt, score, key), smallestChi, decodedMessage, bestKey)
    ensures decrypt(key).Err? ==>
              Holds(BestCandidate(decrypt, score, key + 1), smallestChi, decodedMessage, bestKey)
    ensures decrypt(key).Ok? && (smallestChi.None? || score(decrypt(key).value) < smallestChi.value) ==>
              Holds(BestCandidate(decrypt, score, key + 1),
                    Some(score(decrypt(key).value)), Some(decrypt(key).value), Some(key))
    ensures decrypt(key).Ok? && !(smallestChi.None? || score(decrypt(key).value) < smallestChi.value) ==>
              Holds(BestCandidate(decrypt, score, key + 1), smallestChi, decodedMessage, bestKey)
  {
  }

  /**
    `single_xor_cipher_crack`: validates the hex, decodes it, obtains the
    reference table, then tries the keys 0 to 254 (the range `0..255`) and
    returns the best candidate's key and message.
  */
  method SingleXorCipherCrack(encodedMsg: seq<char>, reference: Option<seq<char> -> real>)
    returns (r: Result<(byte, seq<char>), CrackError>)
    ensures !CryptoUtilities.IsHex(encodedMsg) ==> r == Err(InvalidHex(encodedMsg))
    ensures CryptoUtilities.IsHex(encodedMsg) && reference.None? ==> r == Err(ReferenceUnavailable)
    ensures CryptoUtilities.IsHex(encodedMsg) && reference.Some? ==>
              CryptoUtilities.DecodeHex(encodedMsg).Ok? &&
              var best := BestCandidate(Decryptions(CryptoUtilities.DecodeHex(encodedMsg).value), reference.value, KeysTried);
              r == if best.None? then Err(NoValidKey) else Ok((best.value.key, best.value.message))
  {
    var valid := CryptoUtilities.IsValidHex(encodedMsg);
    if !valid {
      return Err(InvalidHex(encodedMsg));
    }
    var decoded := CryptoUtilities.HexToBinaryBuffer(encodedMsg);
    CryptoUtilities.DecodeHexValid(encodedMsg);
    var encodedBytes;
    match decoded {
      case Ok(buf) => encodedBytes := buf;
      case Err(e) => return Err(HexDecode(e));
    }

    var smallestChi: Option<real> := None;
    var decodedMessage: Option<seq<char>> := None;
    var bestKey: Option<byte> := None;

    var score;
    match reference {
      case Some(percentages) => score := percentages;
      case None => return Err(ReferenceUnavailable);
    }

    ghost var decrypt := Decryptions(encodedBytes);
    for key := 0 to KeysTried
      invariant Holds(BestCandidate(decrypt, score, key), smallestChi, decodedMessage, bestKey)
    {
      var decryption := ApplyXorCipher(key, encodedBytes);
      assert decrypt(key) == decryption;
      SearchStep(decrypt, score, key, smallestChi, decodedMessage, bestKey);
      var decodeAttempt;
      match decryption {
        case Ok(attempt) => decodeAttempt := attempt;
        case Err(_) => continue;
      }
      var newChi := score(decodeAttempt);
      if smallestChi.None? || newChi < smallestChi.value {
        smallestChi := Some(newChi);
        decodedMessage := Some(decodeAttempt);
        bestKey := Some(key);
      }
    }

    if smallestChi.None? {
      return Err(NoValidKey);
    } else {
      return Ok((bestKey.value, decodedMessage.value));
    }
  }

  /**
    What the crack returns, in the terms of `apply_xor_cipher`: a key below 255
    whose decryption of the bytes is the returned message, whose score is the
    smallest of all keys tried, and before which no key reaches that score.
  */
  lemma CrackResult(bytes: seq<byte>, score: seq<char> -> real)
    requires BestCandidate(Decryptions(bytes), score, KeysTried).Some?
    ensures var c := BestCandidate(Decryptions(bytes), score, KeysTried).value;
            && c.key != 255
            && ApplyXorCipher(c.key, bytes) == Ok(c.message)
            && (forall k: byte :: k < KeysTried && ApplyXorCipher(k, bytes).Ok? ==>
                  score(c.message) <= score(ApplyXorCipher(k, bytes).value))
            && (forall k: byte :: k < c.key && ApplyXorCipher(k, bytes).Ok? ==>
                  score(c.message) < score(ApplyXorCipher(k, bytes).value))
  {
    var decrypt := Decryptions(bytes);
    BestCandidateMinimal(decrypt, score, KeysTried);
    BestCandidateFirst(decrypt, score, KeysTried);
    assert forall k: byte :: decrypt(k) == ApplyXorCipher(k, bytes);
  }

  /** The crack fails with `NoValidKey` exactly when no key below 255 decrypts the bytes to UTF-8. */
  lemma CrackFails(bytes: seq<byte>, score: seq<char> -> real)
    ensures BestCandidate(Decryptions(bytes), score, KeysTried).None? <==>
            forall k: byte :: k < KeysTried ==> ApplyXorCipher(k, bytes).Err?
  {
    var decrypt := Decryptions(bytes);
    BestCandidateNone(decrypt, score, KeysTried);
    assert forall k: byte :: decrypt(k) == ApplyXorCipher(k, bytes);
  }

  // ---------------------------------------------------------------------------
  // The key range

  /** Every byte value: the keys the crate's documentation promises to try. */
  const AllKeys: nat := 0x100

  /** A score that prefers "A" to every other message. */
  function PreferA(message: seq<char>): (chi: real)
    ensures chi == 0.0 <==> message == "A"
  {
    if message == "A" then 0.0 else 1.0
  }

  /** The one-byte message "A" encrypted under key 255. */
  const AUnder255: seq<byte> := [0xBE]

  lemma AUnder255Bytes()
    ensures Xor(0xBE, 0xFF) == 0x41 && Xor(0xBE, 0xFE) == 0x40 && Xor(0x41, 0xBE) == 0xFF
  {
    // each XOR evaluated from its highest binary digits down
    assert Xor(0, 0) == 0;
    assert Xor(1, 1) == 0;
    assert Xor(2, 3) == 1;
    assert Xor(5, 7) == 2;
    assert Xor(11, 15) == 4;
    assert Xor(23, 31) == 8;
    assert Xor(47, 63) == 16;
    assert Xor(95, 127) == 32;
    assert Xor(190, 255) == 65;
    assert Xor(190, 254) == 64;
    assert Xor(0, 1) == 1;
    assert Xor(1, 2) == 3;
    assert Xor(2, 5) == 7;
    assert Xor(4, 11) == 15;
    assert Xor(8, 23) == 31;
    assert Xor(16, 47) == 63;
    assert Xor(32, 95) == 127;
    assert Xor(65, 190) == 255;
  }

  /** The only key that decrypts `AUnder255` to "A" is 255. */
  lemma OnlyKey255GivesA(key: byte)
    ensures ApplyXorCipher(key, AUnder255) == Ok("A") <==> key == 255
  {
    AUnder255Bytes();
    var d := XorWithKey(key, AUnder255);
    assert d == [Xor(0xBE, key)];
    if ApplyXorCipher(key, AUnder255) == Ok("A") {
      assert Utf8.Encode("A") == [0x41] by { Utf8.EncodeAscii("A"); }
      XorCancel(key, 0xBE);
      XorComm(key, 0xBE);
    }
    if key == 255 {
      assert Utf8.Encode("A") == [0x41] by { Utf8.EncodeAscii("A"); }
      ApplyXorCipherRecovers(255, "A");
      XorWithKeyTwice(255, AUnder255);
    }
  }

  /**
    As written, the search stops at key 254: for the message "A" encrypted
    under key 255 it settles on another key and another message, although a
    score that prefers "A" ranks the plaintext first.
  */
  lemma Key255NeverTried()
    ensures ApplyXorCipher(255, AUnder255) == Ok("A")
    ensures BestCandidate(Decryptions(AUnder255), PreferA, KeysTried).Some?
    ensures BestCandidate(Decryptions(AUnder255), PreferA, KeysTried).value.message != "A"
  {
    var decrypt := Decryptions(AUnder255);
    OnlyKey255GivesA(255);
    OnlyKey255GivesA(254);
    AUnder255Bytes();
    assert ApplyXorCipher(254, AUnder255).Ok? by {
      assert XorWithKey(254, AUnder255) == [0x40];
      assert Utf8.SequenceWidth([0x40]) == 1;
    }
    assert decrypt(254).Ok?;
    BestCandidateNone(decrypt, PreferA, KeysTried);
    var c := BestCandidate(decrypt, PreferA, KeysTried).value;
    OnlyKey255GivesA(c.key);
  }

  /**
    Trying every byte value, as intended: the candidate's score is the
    smallest over all 256 keys, and for the message above the search returns
    key 255 and the plaintext.
  */
  lemma CrackAllKeysResult(bytes: seq<byte>, score: seq<char> -> real)
    requires BestCandidate(Decryptions(bytes), score, AllKeys).Some?
    ensures var c := BestCandidate(Decryptions(bytes), score, AllKeys).value;
            && ApplyXorCipher(c.key, bytes) == Ok(c.message)
            && forall k: byte :: ApplyXorCipher(k, bytes).Ok? ==> score(c.message) <= score(ApplyXorCipher(k, bytes).value)
    ensures BestCandidate(Decryptions(AUnder255), PreferA, AllKeys) == Some(Candidate(255, "A", 0.0))
  {
    var decrypt := Decryptions(bytes);
    BestCandidateMinimal(decrypt, score, AllKeys);
    assert forall k: byte :: decrypt(k) == ApplyXorCipher(k, bytes);
    var d := Decryptions(AUnder255);
    OnlyKey255GivesA(255);
    assert d(255) == Ok("A");
    BestCandidateNone(d, PreferA, AllKeys);
    BestCandidateMinimal(d, PreferA, AllKeys);
    var c := BestCandidate(d, PreferA, AllKeys).value;
    assert c.chi == 0.0;
    OnlyKey255GivesA(c.key);
  }
}
