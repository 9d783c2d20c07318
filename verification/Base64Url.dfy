/** Unpadded base64url (RFC 4648, section 5) as the bridge writes and reads it. */
module Base64Url {
  import opened Options
  import opened Text

  function Letter(n: int): char
    requires 0 <= n < 64
  {
    if n < 26 then 'A' + n as char
    else if n < 52 then 'a' + (n - 26) as char
    else if n < 62 then '0' + (n - 52) as char
    else if n == 62 then '-' else '_'
  }

  /** The six bits of a letter; None outside the alphabet. */
  function Bits(c: char): (r: Option<int>)
    ensures r.Some? ==> 0 <= r.value < 64
  {
    if 'A' <= c <= 'Z' then Some((c - 'A') as int)
    else if 'a' <= c <= 'z' then Some((c - 'a') as int + 26)
    else if '0' <= c <= '9' then Some((c - '0') as int + 52)
    else if c == '-' then Some(62)
    else if c == '_' then Some(63)
    else None
  }

  lemma LetterBits(n: int)
    requires 0 <= n < 64
    ensures Bits(Letter(n)) == Some(n)
  {
  }

  // ----- encoding -----

  function Quad(a: Byte, b: Byte, c: Byte): string {
    [Letter(a / 4), Letter(a % 4 * 16 + b / 16), Letter(b % 16 * 4 + c / 64), Letter(c % 64)]
  }

  /** The library's encoder, padding included. */
  function Padded(raw: Bytes): string {
    if raw == [] then ""
    else if |raw| == 1 then [Letter(raw[0] / 4), Letter(raw[0] % 4 * 16), '=', '=']
    else if |raw| == 2 then
      [Letter(raw[0] / 4), Letter(raw[0] % 4 * 16 + raw[1] / 16), Letter(raw[1] % 16 * 4), '=']
    else Quad(raw[0], raw[1], raw[2]) + Padded(raw[3..])
  }

  function StripPad(s: string): string {
    if s != [] && s[|s| - 1] == '=' then StripPad(s[..|s| - 1]) else s
  }

  /** What the bridge sends: the padded form with its padding stripped. */
  function Encode(raw: Bytes): string {
    StripPad(Padded(raw))
  }

  /** The same without the detour. */
  function Unpadded(raw: Bytes): string {
    if raw == [] then ""
    else if |raw| == 1 then [Letter(raw[0] / 4), Letter(raw[0] % 4 * 16)]
    else if |raw| == 2 then [Letter(raw[0] / 4), Letter(raw[0] % 4 * 16 + raw[1] / 16), Letter(raw[1] % 16 * 4)]
    else Quad(raw[0], raw[1], raw[2]) + Unpadded(raw[3..])
  }

  predicate Letters(s: string) {
    forall i :: 0 <= i < |s| ==> Bits(s[i]).Some?
  }

  lemma {:induction false} StripPadBehind(prefix: string, s: string)
    requires Letters(prefix)
    ensures StripPad(prefix + s) == prefix + StripPad(s)
    decreases |s|
  {
    if s == [] {
      assert prefix + s == prefix;
      assert prefix == [] || Bits(prefix[|prefix| - 1]).Some?;
    } else if s[|s| - 1] == '=' {
      StripPadBehind(prefix, s[..|s| - 1]);
      assert (prefix + s)[..|prefix + s| - 1] == prefix + s[..|s| - 1];
    }
  }

  lemma LetterIsLetter(n: int)
    requires 0 <= n < 64
    ensures Bits(Letter(n)).Some? && Letter(n) != '=' && Letter(n) != '.'
  {
  }

  lemma QuadLetters(a: Byte, b: Byte, c: Byte)
    ensures Letters(Quad(a, b, c))
  {
    LetterIsLetter(a / 4);
    LetterIsLetter(a % 4 * 16 + b / 16);
    LetterIsLetter(b % 16 * 4 + c / 64);
    LetterIsLetter(c % 64);
    hide Letter, Bits;
  }

  /** Stripping the padding leaves exactly the letters. */
  lemma {:induction false} EncodeIsUnpadded(raw: Bytes)
    ensures Encode(raw) == Unpadded(raw)
    ensures Letters(Unpadded(raw))
    decreases |raw|
  {
    hide Letter, Bits;
    if |raw| == 1 {
      LetterIsLetter(raw[0] / 4);
      LetterIsLetter(raw[0] % 4 * 16);
      StripTwo(Unpadded(raw));
      assert Padded(raw) == Unpadded(raw) + ['=', '='];
    } else if |raw| == 2 {
      LetterIsLetter(raw[0] / 4);
      LetterIsLetter(raw[0] % 4 * 16 + raw[1] / 16);
      LetterIsLetter(raw[1] % 16 * 4);
      StripTwo(Unpadded(raw));
      assert Padded(raw) == Unpadded(raw) + ['='];
    } else if |raw| >= 3 {
      QuadLetters(raw[0], raw[1], raw[2]);
      EncodeIsUnpadded(raw[3..]);
      StripPadBehind(Quad(raw[0], raw[1], raw[2]), Padded(raw[3..]));
      assert forall i :: 0 <= i < |Unpadded(raw[3..])| ==> Unpadded(raw)[i + 4] == Unpadded(raw[3..])[i];
    }
  }

  lemma StripTwo(s: string)
    requires Letters(s)
    ensures StripPad(s + ['=', '=']) == s && StripPad(s + ['=']) == s
  {
    StripPadBehind(s, ['=', '=']);
    StripPadBehind(s, ['=']);
    assert StripPad(['=']) == [];
    assert ['=', '='][..1] == ['='];
  }

  // ----- decoding -----

  /** Three bytes out of four letters. */
  function Triple(a: int, b: int, c: int, d: int): Bytes
    requires 0 <= a < 64 && 0 <= b < 64 && 0 <= c < 64 && 0 <= d < 64
  {
    [a * 4 + b / 16, b % 16 * 16 + c / 4, c % 4 * 64 + d]
  }

  /** The lenient library decoder on re-padded text: refuses a lone final letter and
      drops the unused low bits of the last one. */
  function DecodeLetters(s: string): Option<Bytes>
    requires Letters(s)
    decreases |s|
  {
    if s == [] then Some([])
    else if |s| == 1 then None
    else
      var a, b := Bits(s[0]).value, Bits(s[1]).value;
      if |s| == 2 then Some([a * 4 + b / 16])
      else
        var c := Bits(s[2]).value;
        if |s| == 3 then Some([a * 4 + b / 16, b % 16 * 16 + c / 4])
        else
          var rest := DecodeLetters(s[4..]);
          if rest.None? then None else Some(Triple(a, b, c, Bits(s[3]).value) + rest.value)
  }

  /** Anything outside the alphabet is refused before decoding. */
  function Decode(s: string): Option<Bytes> {
    if Letters(s) then DecodeLetters(s) else None
  }

  lemma TripleOfQuad(a: Byte, b: Byte, c: Byte)
    ensures Triple(a / 4, a % 4 * 16 + b / 16, b % 16 * 4 + c / 64, c % 64) == [a, b, c]
  {
    SplitsAt16(a % 4, b / 16);
    SplitsAt4(b % 16, c / 64);
  }

  lemma SplitsAt16(x: int, y: int)
    requires 0 <= y < 16
    ensures (x * 16 + y) / 16 == x && (x * 16 + y) % 16 == y
  {
  }

  lemma SplitsAt4(x: int, y: int)
    requires 0 <= y < 4
    ensures (x * 4 + y) / 4 == x && (x * 4 + y) % 4 == y
  {
  }

  lemma PairOfBytes(a: Byte, b: Byte)
    ensures a / 4 * 4 + (a % 4 * 16 + b / 16) / 16 == a
    ensures (a % 4 * 16 + b / 16) % 16 * 16 + b % 16 * 4 / 4 == b
  {
  }

  /** Decoding inverts encoding, for every byte string. */
  lemma {:induction false} DecodeEncode(raw: Bytes)
    ensures Decode(Encode(raw)) == Some(raw)
    decreases |raw|
  {
    EncodeIsUnpadded(raw);
    DecodeUnpadded(raw);
  }

  /** Four letters in front decode to the three bytes they encode. */
  lemma DecodeQuad(a: Byte, b: Byte, c: Byte, rest: string)
    requires Letters(Quad(a, b, c) + rest) && Letters(rest) && DecodeLetters(rest).Some?
    ensures DecodeLetters(Quad(a, b, c) + rest) == Some([a, b, c] + DecodeLetters(rest).value)
  {
    hide Letter, Bits;
    LetterBits(a / 4);
    LetterBits(a % 4 * 16 + b / 16);
    LetterBits(b % 16 * 4 + c / 64);
    LetterBits(c % 64);
    TripleOfQuad(a, b, c);
    assert (Quad(a, b, c) + rest)[4..] == rest;
  }

  lemma {:induction false} DecodeUnpadded(raw: Bytes)
    requires Letters(Unpadded(raw))
    ensures DecodeLetters(Unpadded(raw)) == Some(raw)
    decreases |raw|
  {
    hide Letter, Bits;
    if |raw| == 1 {
      LetterBits(raw[0] / 4);
      LetterBits(raw[0] % 4 * 16);
      PairOfBytes(raw[0], 0);
      assert DecodeLetters(Unpadded(raw)) == Some([raw[0]]);
      assert raw == [raw[0]];
    } else if |raw| == 2 {
      LetterBits(raw[0] / 4);
      LetterBits(raw[0] % 4 * 16 + raw[1] / 16);
      LetterBits(raw[1] % 16 * 4);
      PairOfBytes(raw[0], raw[1]);
      assert DecodeLetters(Unpadded(raw)) == Some([raw[0], raw[1]]);
      assert raw == [raw[0], raw[1]];
    } else if |raw| >= 3 {
      EncodeIsUnpadded(raw[3..]);
      DecodeUnpadded(raw[3..]);
      DecodeQuad(raw[0], raw[1], raw[2], Unpadded(raw[3..]));
      assert raw == [raw[0], raw[1], raw[2]] + raw[3..];
    }
  }

  lemma {:induction false} LetterCount(raw: Bytes)
    ensures |Unpadded(raw)| == (|raw| * 4 + 2) / 3
    decreases |raw|
  {
    if |raw| >= 3 {
      LetterCount(raw[3..]);
    }
  }

  // ----- the opaque evidence digest -----

  /** The strict decoder of the evidence route also reads the two standard letters. */
  function Standard(c: char): char {
    if c == '+' then '-' else if c == '/' then '_' else c
  }

  function Translate(s: string): (r: string)
    ensures |r| == |s|
  {
    seq(|s|, i requires 0 <= i < |s| => Standard(s[i]))
  }

  /** Accepts one 43-letter reference: decode strictly, then insist on 32 bytes that
      encode back to the very reference. */
  function EvidenceDigest(reference: string): Option<Bytes> {
    if |reference| != 43 then None
    else
      var raw := Decode(Translate(reference));
      if raw.None? then None
      else if |raw.value| != 32 || Encode(raw.value) != reference then None
      else raw
  }

  /** The digest reader accepts exactly the encodings of 32-byte values and inverts them. */
  lemma EvidenceDigestIff(reference: string, raw: Bytes)
    ensures EvidenceDigest(reference) == Some(raw) <==> |raw| == 32 && reference == Encode(raw)
  {
    if |raw| == 32 && reference == Encode(raw) {
      EncodeIsUnpadded(raw);
      LetterCount(raw);
      DecodeEncode(raw);
      forall i | 0 <= i < |reference| ensures Standard(reference[i]) == reference[i] {
        assert Bits(Unpadded(raw)[i]).Some?;
      }
      assert Translate(reference) == reference;
    }
  }
}
