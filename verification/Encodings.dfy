/**
 The two text encodings of signatures: lower-case base16 and unpadded base64url (section 2 of RFC 7515,
 section 5 of RFC 4648), both with a decoder that refuses every text the encoder does not produce.
 */
module Encodings {
  import opened Common

  type Byte = x: int | 0 <= x < 256
  type Nibble = x: int | 0 <= x < 16
  type Sextet = x: int | 0 <= x < 64

  // ---- Digits ----

  /** Place `v` of the alphabet `0-9a-f`. */
  function HexDigit(v: Nibble): char {
    if v < 10 then ('0' as int + v) as char else ('a' as int + v - 10) as char
  }

  function HexValue(c: char): (v: Option<Nibble>)
    ensures forall k: Nibble :: HexDigit(k) == c <==> v == Some(k)
  {
    if '0' <= c <= '9' then Some(c as int - '0' as int)
    else if 'a' <= c <= 'f' then Some(c as int - 'a' as int + 10)
    else None
  }

  /** Place `v` of the alphabet `A-Za-z0-9-_`. */
  function Base64Digit(v: Sextet): char {
    if v < 26 then ('A' as int + v) as char
    else if v < 52 then ('a' as int + v - 26) as char
    else if v < 62 then ('0' as int + v - 52) as char
    else if v == 62 then '-'
    else '_'
  }

  function Base64Value(c: char): (v: Option<Sextet>)
    ensures forall k: Sextet :: Base64Digit(k) == c <==> v == Some(k)
  {
    if 'A' <= c <= 'Z' then Some(c as int - 'A' as int)
    else if 'a' <= c <= 'z' then Some(c as int - 'a' as int + 26)
    else if '0' <= c <= '9' then Some(c as int - '0' as int + 52)
    else if c == '-' then Some(62)
    else if c == '_' then Some(63)
    else None
  }

  // ---- Base16 ----

  function HexByte(high: Nibble, low: Nibble): Byte { high * 16 + low }

  function ToHex(bytes: seq<Byte>): string {
    if bytes == [] then ""
    else [HexDigit(bytes[0] / 16), HexDigit(bytes[0] % 16)] + ToHex(bytes[1..])
  }

  function FromHex(text: string): Option<seq<Byte>> {
    if text == "" then Some([])
    else if |text| == 1 then None
    else
      match (HexValue(text[0]), HexValue(text[1]), FromHex(text[2..]))
      case (Some(high), Some(low), Some(rest)) => Some([HexByte(high, low)] + rest)
      case _ => None
  }

  lemma {:induction false} HexLength(bytes: seq<Byte>)
    ensures |ToHex(bytes)| == 2 * |bytes|
  {
    if bytes != [] {
      HexLength(bytes[1..]);
    }
  }

  lemma {:induction false} HexThere(bytes: seq<Byte>)
    ensures FromHex(ToHex(bytes)) == Some(bytes)
  {
    if bytes != [] {
      HexThere(bytes[1..]);
      var text := ToHex(bytes);
      assert text[0] == HexDigit(bytes[0] / 16) && text[1] == HexDigit(bytes[0] % 16) && text[2..] == ToHex(bytes[1..]);
      assert bytes == [bytes[0]] + bytes[1..];
    }
  }

  lemma {:induction false} HexBack(text: string)
    requires FromHex(text).Some?
    ensures ToHex(FromHex(text).value) == text && |text| == 2 * |FromHex(text).value|
  {
    if text != "" {
      HexBack(text[2..]);
      var bytes := FromHex(text).value;
      assert bytes[1..] == FromHex(text[2..]).value;
      assert text == [text[0], text[1]] + text[2..];
    }
  }

  // ---- Base64url ----

  // The sextets of three bytes, and the bytes of four sextets.
  function S0(a: Byte): Sextet { a / 4 }
  function S1(a: Byte, b: Byte): Sextet { a % 4 * 16 + b / 16 }
  function S1Last(a: Byte): Sextet { a % 4 * 16 }
  function S2(b: Byte, c: Byte): Sextet { b % 16 * 4 + c / 64 }
  function S2Last(b: Byte): Sextet { b % 16 * 4 }
  function S3(c: Byte): Sextet { c % 64 }
  function B0(p: Sextet, q: Sextet): Byte { p * 4 + q / 16 }
  function B1(q: Sextet, r: Sextet): Byte { q % 16 * 16 + r / 4 }
  function B2(r: Sextet, s: Sextet): Byte { r % 4 * 64 + s }

  function ToSextets(b: seq<Byte>): seq<Sextet> {
    if b == [] then []
    else if |b| == 1 then [S0(b[0]), S1Last(b[0])]
    else if |b| == 2 then [S0(b[0]), S1(b[0], b[1]), S2Last(b[1])]
    else [S0(b[0]), S1(b[0], b[1]), S2(b[1], b[2]), S3(b[2])] + ToSextets(b[3..])
  }

  /** A single sextet left over, or unused bits that are not zero, are refused. */
  function FromSextets(s: seq<Sextet>): Option<seq<Byte>> {
    if s == [] then Some([])
    else if |s| == 1 then None
    else if |s| == 2 then if s[1] % 16 == 0 then Some([B0(s[0], s[1])]) else None
    else if |s| == 3 then if s[2] % 4 == 0 then Some([B0(s[0], s[1]), B1(s[1], s[2])]) else None
    else
      var rest := FromSextets(s[4..]);
      if rest.None? then None else Some([B0(s[0], s[1]), B1(s[1], s[2]), B2(s[2], s[3])] + rest.value)
  }

  lemma GroupThere(a: Byte, b: Byte, c: Byte)
    ensures B0(S0(a), S1(a, b)) == a && B1(S1(a, b), S2(b, c)) == b && B2(S2(b, c), S3(c)) == c
  {
  }

  lemma LastThere(a: Byte, b: Byte)
    ensures S1Last(a) % 16 == 0 && B0(S0(a), S1Last(a)) == a
    ensures S2Last(b) % 4 == 0 && B0(S0(a), S1(a, b)) == a && B1(S1(a, b), S2Last(b)) == b
  {
  }

  lemma GroupBack(p: Sextet, q: Sextet, r: Sextet, s: Sextet)
    ensures S0(B0(p, q)) == p && S1(B0(p, q), B1(q, r)) == q && S2(B1(q, r), B2(r, s)) == r && S3(B2(r, s)) == s
    ensures q % 16 == 0 ==> S1Last(B0(p, q)) == q
    ensures r % 4 == 0 ==> S2Last(B1(q, r)) == r
  {
  }

  function Digits(s: seq<Sextet>): string {
    if s == [] then "" else [Base64Digit(s[0])] + Digits(s[1..])
  }

  function Values(text: string): Option<seq<Sextet>> {
    if text == "" then Some([])
    else
      match (Base64Value(text[0]), Values(text[1..]))
      case (Some(v), Some(rest)) => Some([v] + rest)
      case _ => None
  }

  function ToBase64url(bytes: seq<Byte>): string { Digits(ToSextets(bytes)) }

  function FromBase64url(text: string): Option<seq<Byte>> {
    match Values(text)
    case None => None
    case Some(s) => FromSextets(s)
  }

  lemma FourSextets(p: Sextet, q: Sextet, r: Sextet, s: Sextet, more: seq<Sextet>, rest: seq<Byte>)
    requires FromSextets(more) == Some(rest)
    ensures FromSextets([p, q, r, s] + more) == Some([B0(p, q), B1(q, r), B2(r, s)] + rest)
  {
    assert ([p, q, r, s] + more)[4..] == more;
  }

  lemma TwoSextets(p: Sextet, q: Sextet, a: Byte)
    requires q % 16 == 0 && B0(p, q) == a
    ensures FromSextets([p, q]) == Some([a])
  {
  }

  lemma ThreeSextets(p: Sextet, q: Sextet, r: Sextet, a: Byte, b: Byte)
    requires r % 4 == 0 && B0(p, q) == a && B1(q, r) == b
    ensures FromSextets([p, q, r]) == Some([a, b])
  {
  }

  lemma OneThere(b: seq<Byte>)
    requires |b| == 1
    ensures FromSextets(ToSextets(b)) == Some(b)
  {
    LastThere(b[0], b[0]);
    TwoSextets(S0(b[0]), S1Last(b[0]), b[0]);
    assert b == [b[0]];
  }

  lemma TwoThere(b: seq<Byte>)
    requires |b| == 2
    ensures FromSextets(ToSextets(b)) == Some(b)
  {
    LastThere(b[0], b[1]);
    ThreeSextets(S0(b[0]), S1(b[0], b[1]), S2Last(b[1]), b[0], b[1]);
    assert b == [b[0], b[1]];
  }

  lemma GroupOf(a: Byte, b: Byte, c: Byte, more: seq<Sextet>, rest: seq<Byte>)
    requires FromSextets(more) == Some(rest)
    ensures FromSextets([S0(a), S1(a, b), S2(b, c), S3(c)] + more) == Some([a, b, c] + rest)
  {
    GroupThere(a, b, c);
    FourSextets(S0(a), S1(a, b), S2(b, c), S3(c), more, rest);
  }

  lemma SextetsOfMore(b: seq<Byte>)
    requires |b| >= 3
    ensures ToSextets(b) == [S0(b[0]), S1(b[0], b[1]), S2(b[1], b[2]), S3(b[2])] + ToSextets(b[3..])
  {
  }

  lemma FirstThree(b: seq<Byte>, rest: seq<Byte>)
    requires |b| >= 3 && rest == b[3..]
    ensures [b[0], b[1], b[2]] + rest == b
  {
  }

  lemma MoreThere(b: seq<Byte>, more: seq<Sextet>, rest: seq<Byte>)
    requires |b| >= 3 && rest == b[3..] && more == ToSextets(rest) && FromSextets(more) == Some(rest)
    ensures FromSextets([S0(b[0]), S1(b[0], b[1]), S2(b[1], b[2]), S3(b[2])] + more) == Some(b)
  {
    GroupOf(b[0], b[1], b[2], more, rest);
    FirstThree(b, rest);
  }

  lemma {:induction false} SextetsThere(b: seq<Byte>)
    ensures FromSextets(ToSextets(b)) == Some(b)
  {
    if |b| == 1 {
      OneThere(b);
    } else if |b| == 2 {
      TwoThere(b);
    } else if |b| >= 3 {
      SextetsThere(b[3..]);
      MoreThere(b, ToSextets(b[3..]), b[3..]);
      SextetsOfMore(b);
    }
  }

  lemma {:induction false} SextetsBack(s: seq<Sextet>)
    requires FromSextets(s).Some?
    ensures ToSextets(FromSextets(s).value) == s
  {
    if s != [] {
      GroupBack(s[0], s[1], if |s| > 2 then s[2] else 0, if |s| > 3 then s[3] else 0);
      if |s| >= 4 {
        SextetsBack(s[4..]);
        assert FromSextets(s).value[3..] == FromSextets(s[4..]).value;
        assert s == [s[0], s[1], s[2], s[3]] + s[4..];
      }
    }
  }

  lemma {:induction false} DigitsThere(s: seq<Sextet>)
    ensures Values(Digits(s)) == Some(s)
  {
    if s != [] {
      DigitsThere(s[1..]);
      assert Digits(s)[0] == Base64Digit(s[0]) && Digits(s)[1..] == Digits(s[1..]);
      assert s == [s[0]] + s[1..];
    }
  }

  lemma {:induction false} DigitsBack(text: string)
    requires Values(text).Some?
    ensures Digits(Values(text).value) == text
  {
    if text != "" {
      DigitsBack(text[1..]);
      assert Values(text).value[1..] == Values(text[1..]).value;
      assert text == [text[0]] + text[1..];
    }
  }

  /** Decoding undoes encoding on all byte strings, and every accepted text is the encoding of what it
      decodes to: the two are inverse bijections. */
  lemma Base64urlInverse(bytes: seq<Byte>, text: string)
    ensures FromBase64url(ToBase64url(bytes)) == Some(bytes)
    ensures FromBase64url(text) == Some(bytes) <==> text == ToBase64url(bytes)
  {
    SextetsThere(bytes);
    DigitsThere(ToSextets(bytes));
    if FromBase64url(text) == Some(bytes) {
      DigitsBack(text);
      SextetsBack(Values(text).value);
    }
  }

  // ---- The alphabets and the order of the bits ----

  /** The digits of base16, section 8 of RFC 4648, in lower case. */
  const HEX_ALPHABET := "0123456789abcdef"

  /** The digits of base64url, section 5 of RFC 4648. */
  const BASE64_ALPHABET := UPPER + LOWER + "0123456789-_"

  const UPPER := "ABCDEFGHIJKLMNOPQRSTUVWXYZ"
  const LOWER := "abcdefghijklmnopqrstuvwxyz"

  lemma AlphabetsAre(h: Nibble, d: Sextet)
    ensures HexDigit(h) == HEX_ALPHABET[h] && Base64Digit(d) == BASE64_ALPHABET[d]
  {
    if d < 26 {
      assert UPPER[d] == Base64Digit(d);
    } else if d < 52 {
      assert LOWER[d - 26] == Base64Digit(d);
    } else {
      assert "0123456789-_"[d - 52] == Base64Digit(d);
    }
  }

  /** Each byte is written as two digits, the higher half first. */
  lemma {:induction false} HexPlaces(bytes: seq<Byte>, k: nat)
    requires k < |bytes|
    ensures |ToHex(bytes)| == 2 * |bytes|
    ensures ToHex(bytes)[2 * k] == HEX_ALPHABET[bytes[k] / 16] && ToHex(bytes)[2 * k + 1] == HEX_ALPHABET[bytes[k] % 16]
  {
    HexLength(bytes);
    AlphabetsAre(bytes[0] / 16, 0);
    AlphabetsAre(bytes[0] % 16, 0);
    if k > 0 {
      HexPlaces(bytes[1..], k - 1);
      assert ToHex(bytes)[2..] == ToHex(bytes[1..]);
      assert ToHex(bytes)[2 * k] == ToHex(bytes)[2..][2 * (k - 1)];
      assert ToHex(bytes)[2 * k + 1] == ToHex(bytes)[2..][2 * (k - 1) + 1];
    }
  }

  lemma {:induction false} DigitsAre(s: seq<Sextet>, k: nat)
    requires k < |s|
    ensures |Digits(s)| == |s| && Digits(s)[k] == BASE64_ALPHABET[s[k]]
    decreases k
  {
    DigitsLength(s);
    AlphabetsAre(0, s[0]);
    if k > 0 {
      DigitsAre(s[1..], k - 1);
      assert Digits(s)[1..] == Digits(s[1..]);
    }
  }

  lemma {:induction false} DigitsLength(s: seq<Sextet>)
    ensures |Digits(s)| == |s|
  {
    if s != [] {
      DigitsLength(s[1..]);
    }
  }

  /** The bytes and sextets as numbers, the first one highest. */
  function Number24(a: int, b: int, c: int): int { a * 65536 + b * 256 + c }
  function NumberOf(p: int, q: int, r: int, s: int): int { p * 262144 + q * 4096 + r * 64 + s }

  /** From digit `i` and byte `j` on: four digits stand for the number of three bytes; at the end, two digits
      for that of one byte and three for that of two, with zeroes in the bits that are left over. */
  predicate StandFor(s: seq<Sextet>, i: nat, b: seq<Byte>, j: nat)
    requires j < |b|
  {
    if j + 2 < |b| then
      i + 3 < |s| && NumberOf(s[i], s[i + 1], s[i + 2], s[i + 3]) == Number24(b[j], b[j + 1], b[j + 2])
    else if j + 1 < |b| then
      |s| == i + 3 && NumberOf(s[i], s[i + 1], s[i + 2], 0) == Number24(b[j], b[j + 1], 0)
    else
      |s| == i + 2 && NumberOf(s[i], s[i + 1], 0, 0) == Number24(b[j], 0, 0)
  }

  lemma NumbersAgree(a: Byte, b: Byte, c: Byte)
    ensures NumberOf(S0(a), S1(a, b), S2(b, c), S3(c)) == Number24(a, b, c)
    ensures NumberOf(S0(a), S1(a, b), S2Last(b), 0) == Number24(a, b, 0)
    ensures NumberOf(S0(a), S1Last(a), 0, 0) == Number24(a, 0, 0)
  {
  }

  lemma FirstGroup(b: seq<Byte>)
    requires b != []
    ensures StandFor(ToSextets(b), 0, b, 0)
  {
    NumbersAgree(b[0], if |b| > 1 then b[1] else 0, if |b| > 2 then b[2] else 0);
  }

  lemma StandForShifted(s: seq<Sextet>, i: nat, b: seq<Byte>, j: nat)
    requires 4 <= |s| && 3 + j < |b| && StandFor(s[4..], i, b[3..], j)
    ensures StandFor(s, i + 4, b, j + 3)
  {
    assert forall k :: 0 <= k < |b| - 3 ==> b[3..][k] == b[k + 3];
    assert forall k :: 0 <= k < |s| - 4 ==> s[4..][k] == s[k + 4];
  }

  lemma {:induction false} GroupNumbers(b: seq<Byte>, g: nat)
    requires 3 * g < |b|
    ensures StandFor(ToSextets(b), 4 * g, b, 3 * g)
    decreases g
  {
    if g == 0 {
      FirstGroup(b);
    } else {
      GroupNumbers(b[3..], g - 1);
      assert ToSextets(b)[4..] == ToSextets(b[3..]);
      StandForShifted(ToSextets(b), 4 * (g - 1), b, 3 * (g - 1));
    }
  }

  /** The text is the digits of such groups, one after the other. */
  lemma TextStandsFor(bytes: seq<Byte>) returns (s: seq<Sextet>)
    ensures var text := ToBase64url(bytes);
      |s| == |text| && forall k :: 0 <= k < |s| ==> text[k] == BASE64_ALPHABET[s[k]]
    ensures forall g: nat :: 3 * g < |bytes| ==> StandFor(s, 4 * g, bytes, 3 * g)
    ensures bytes == [] ==> s == []
  {
    s := ToSextets(bytes);
    DigitsLength(s);
    forall k | 0 <= k < |s|
      ensures Digits(s)[k] == BASE64_ALPHABET[s[k]]
    {
      DigitsAre(s, k);
    }
    forall g: nat | 3 * g < |bytes|
      ensures StandFor(s, 4 * g, bytes, 3 * g)
    {
      GroupNumbers(bytes, g);
    }
  }
}
