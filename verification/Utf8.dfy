/** The rune decoder against the encoding of section 3 of RFC 3629. */
module Utf8 {
  import opened ByteStrings

  /** Every code point but the surrogates. */
  predicate Scalar(c: int) {
    0 <= c <= 0xD7FF || 0xE000 <= c <= 0x10FFFF
  }

  /** The octets of a character number, by the table of section 3. */
  function Encode(c: int): (s: Bytes)
    requires Scalar(c)
    ensures s != []
  {
    if c <= 0x7F then [c as byte]
    else if c <= 0x7FF then [(0xC0 + c / 64) as byte, (0x80 + c % 64) as byte]
    else if c <= 0xFFFF then
      [(0xE0 + c / 4096) as byte, (0x80 + c / 64 % 64) as byte, (0x80 + c % 64) as byte]
    else
      [(0xF0 + c / 262144) as byte, (0x80 + c / 4096 % 64) as byte, (0x80 + c / 64 % 64) as byte,
       (0x80 + c % 64) as byte]
  }

  /** Six bits at a time. */
  lemma SixBits(high: int, low: int)
    requires 0 <= low < 64
    ensures (high * 64 + low) / 64 == high && (high * 64 + low) % 64 == low
  {
  }

  lemma Groups(c: int)
    requires 0 <= c
    ensures c == c / 64 * 64 + c % 64
    ensures c / 64 == c / 4096 * 64 + c / 64 % 64
    ensures c / 4096 == c / 262144 * 64 + c / 4096 % 64
  {
  }

  /** The decoder reads back every encoded character, whatever follows. */
  lemma DecodesEncoded(c: int, rest: Bytes)
    requires Scalar(c)
    ensures StartsWithRune(Encode(c) + rest)
    ensures DecodeRune(Encode(c) + rest) == Rune(c, |Encode(c)|)
  {
    Groups(c);
    var e := Encode(c);
    var s := e + rest;
    if |e| == 1 { assert s[0] == e[0]; }
    else if |e| == 2 { assert s[0] == e[0] && s[1] == e[1]; }
    else if |e| == 3 { assert s[0] == e[0] && s[1] == e[1] && s[2] == e[2]; }
    else { assert s[0] == e[0] && s[1] == e[1] && s[2] == e[2] && s[3] == e[3]; }
  }

  /** And it accepts nothing else: what it reads is the encoding of a character. */
  lemma DecodedIsEncoded(s: Bytes)
    requires StartsWithRune(s)
    ensures var r := DecodeRune(s); Scalar(r.code) && s[..r.width] == Encode(r.code)
  {
    match LeadWidth(s[0])
    case 1 =>
    case 2 => TwoBytes(s);
    case 3 => ThreeBytes(s);
    case _ => FourBytes(s);
  }

  lemma TwoBytes(s: Bytes)
    requires StartsWithRune(s) && LeadWidth(s[0]) == 2
    ensures var r := DecodeRune(s); Scalar(r.code) && s[..r.width] == Encode(r.code)
  {
    SixBits(s[0] as int - 0xC0, s[1] as int - 0x80);
  }

  lemma ThreeBytes(s: Bytes)
    requires StartsWithRune(s) && LeadWidth(s[0]) == 3
    ensures var r := DecodeRune(s); Scalar(r.code) && s[..r.width] == Encode(r.code)
  {
    var a, b, c := s[0] as int - 0xE0, s[1] as int - 0x80, s[2] as int - 0x80;
    var code := DecodeRune(s).code;
    Groups(code);
    assert code == (a * 64 + b) * 64 + c;
    SixBits(a * 64 + b, c);
    SixBits(a, b);
    assert 0x800 <= code <= 0xFFFF && Scalar(code);
  }

  lemma FourBytes(s: Bytes)
    requires StartsWithRune(s) && LeadWidth(s[0]) == 4
    ensures var r := DecodeRune(s); Scalar(r.code) && s[..r.width] == Encode(r.code)
  {
    var a, b, c, d := s[0] as int - 0xF0, s[1] as int - 0x80, s[2] as int - 0x80, s[3] as int - 0x80;
    var code := DecodeRune(s).code;
    Groups(code);
    assert code == ((a * 64 + b) * 64 + c) * 64 + d;
    SixBits((a * 64 + b) * 64 + c, d);
    SixBits(a * 64 + b, c);
    SixBits(a, b);
    assert 0x1_0000 <= code <= 0x10FFFF;
  }

  lemma StartsExactly(s: Bytes)
    ensures StartsWithRune(s) <==> exists c :: Scalar(c) && Encode(c) <= s
  {
    if StartsWithRune(s) {
      DecodedIsEncoded(s);
      assert Encode(DecodeRune(s).code) <= s;
    }
    if c :| Scalar(c) && Encode(c) <= s {
      DecodesEncoded(c, s[|Encode(c)|..]);
      assert Encode(c) + s[|Encode(c)|..] == s;
    }
  }
}
