/** The hex codec of src/hex.rs. */
module Hex {
  import opened Text

  predicate IsDigit(c: char) {
    '0' <= c <= '9' || 'a' <= c <= 'f'
  }

  /** The two characters that `{b:02x}` writes. */
  function ByteText(b: Byte): (s: string)
    ensures |s| == 2
  {
    [HexDigit(b / 16), HexDigit(b % 16)]
  }

  function Encode(bytes: seq<Byte>): (s: string)
    ensures |s| == 2 * |bytes|
  {
    if bytes == [] then "" else ByteText(bytes[0]) + Encode(bytes[1..])
  }

  method HexEncode(bytes: seq<Byte>) returns (out: string)
    ensures out == Encode(bytes)
  {
    out := "";
    for i := 0 to |bytes|
      invariant out + Encode(bytes[i..]) == Encode(bytes)
    {
      assert bytes[i..][1..] == bytes[i + 1..];
      out := out + ByteText(bytes[i]);
    }
  }

  function Nibble(b: Byte): (n: Option<Byte>)
    ensures n.Some? ==> n.value < 16
  {
    if '0' as int <= b <= '9' as int then Some(b - '0' as int)
    else if 'a' as int <= b <= 'f' as int then Some(b - 'a' as int + 10)
    else if 'A' as int <= b <= 'F' as int then Some(b - 'A' as int + 10)
    else None
  }

  /** What is left after trimming and dropping one `0x` or `0X`. */
  function Body(s: string): string {
    var t := Trim(s);
    if "0x" <= t || "0X" <= t then t[2..] else t
  }

  function Pairs(b: seq<Byte>): Option<seq<Byte>>
    requires |b| % 2 == 0
  {
    if b == [] then Some([])
    else
      var hi :- Nibble(b[0]);
      var lo :- Nibble(b[1]);
      var rest :- Pairs(b[2..]);
      Some([16 * hi + lo] + rest)
  }

  function Decode(s: string): Option<seq<Byte>> {
    var b := Utf8(Body(s));
    if |b| % 2 != 0 then None else Pairs(b)
  }

  function After(out: seq<Byte>, rest: Option<seq<Byte>>): Option<seq<Byte>> {
    if rest.None? then None else Some(out + rest.value)
  }

  lemma NothingYet(rest: Option<seq<Byte>>)
    ensures After([], rest) == rest
  {
    assert rest.Some? ==> [] + rest.value == rest.value;
  }

  lemma PairsStep(b: seq<Byte>, i: nat, out: seq<Byte>)
    requires i < |b| && i % 2 == 0 && |b| % 2 == 0
    ensures var hi, lo := Nibble(b[i]), Nibble(b[i + 1]);
      After(out, Pairs(b[i..]))
      == if hi.None? || lo.None? then None
         else After(out + [16 * hi.value + lo.value], Pairs(b[i + 2..]))
  {
    assert b[i..][2..] == b[i + 2..];
    var rest := Pairs(b[i + 2..]);
    if Nibble(b[i]).Some? && Nibble(b[i + 1]).Some? && rest.Some? {
      var p := [16 * Nibble(b[i]).value + Nibble(b[i + 1]).value];
      assert out + (p + rest.value) == (out + p) + rest.value;
    }
  }

  /** `hex_decode`: the index moves two bytes at a time. */
  method HexDecode(s: string) returns (r: Option<seq<Byte>>)
    ensures r == Decode(s)
  {
    var bytes := Utf8(Body(s));
    if |bytes| % 2 != 0 {
      return None;
    }
    var out: seq<Byte> := [];
    var i := 0;
    NothingYet(Pairs(bytes));
    assert bytes[0..] == bytes;
    while i < |bytes|
      invariant 0 <= i <= |bytes| && i % 2 == 0
      invariant Pairs(bytes) == After(out, Pairs(bytes[i..]))
    {
      PairsStep(bytes, i, out);
      var hi := Nibble(bytes[i]);
      if hi.None? {
        return None;
      }
      var lo := Nibble(bytes[i + 1]);
      if lo.None? {
        return None;
      }
      out := out + [16 * hi.value + lo.value];
      i := i + 2;
    }
    assert bytes[i..] == [] && out + [] == out;
    return Some(out);
  }

  predicate HexText(s: string) {
    forall i :: 0 <= i < |s| ==> IsDigit(s[i])
  }

  lemma {:induction false} EncodeIsHexText(bytes: seq<Byte>)
    ensures HexText(Encode(bytes))
  {
    if bytes != [] {
      EncodeIsHexText(bytes[1..]);
    }
  }

  lemma HexTextHasNoBlank(s: string)
    requires HexText(s)
    ensures Body(s) == s
  {
    assert TrimStart(s) == s;
    assert TrimEnd(s) == s;
    assert |s| > 1 ==> IsDigit(s[1]);
  }

  lemma LowerKeepsNibbles(c: char)
    requires c as int < 128
    ensures var n := Nibble(c as int);
      && (n.Some? ==> HexDigit(n.value) == LowerChar(c))
      && (IsDigit(LowerChar(c)) ==> n.Some?)
  {
  }

  /** On ASCII text the pairs are exactly those whose lower-case spelling is
      the encoding of the result. */
  lemma {:induction false} PairsInvertEncode(s: string, bytes: seq<Byte>)
    requires Ascii(s) && |s| % 2 == 0
    ensures Pairs(Codes(s)) == Some(bytes) <==> Lower(s) == Encode(bytes)
  {
    if s == "" {
      assert bytes != [] ==> |Encode(bytes)| > 0;
    } else {
      LowerKeepsNibbles(s[0]);
      LowerKeepsNibbles(s[1]);
      var tail := s[2..];
      assert Codes(s)[2..] == Codes(tail);
      assert Lower(s) == [LowerChar(s[0]), LowerChar(s[1])] + Lower(tail);
      if bytes != [] {
        PairsInvertEncode(tail, bytes[1..]);
        assert bytes == [bytes[0]] + bytes[1..];
        var e := ByteText(bytes[0]);
        assert Encode(bytes)[..2] == e && Encode(bytes)[2..] == Encode(bytes[1..]);
        assert Lower(s)[..2] == [LowerChar(s[0]), LowerChar(s[1])] && Lower(s)[2..] == Lower(tail);
        HeadByte(s[0], s[1], bytes[0]);
      }
    }
  }

  lemma HeadByte(a: char, b: char, byte: Byte)
    requires a as int < 128 && b as int < 128
    ensures ByteText(byte) == [LowerChar(a), LowerChar(b)]
       <==> Nibble(a as int).Some? && Nibble(b as int).Some?
            && 16 * Nibble(a as int).value + Nibble(b as int).value == byte
  {
    LowerKeepsNibbles(a);
    LowerKeepsNibbles(b);
    var e := ByteText(byte);
    assert e == [LowerChar(a), LowerChar(b)] <==> e[0] == LowerChar(a) && e[1] == LowerChar(b);
  }

  lemma {:induction false} PairsNeedAscii(s: string)
    requires |Utf8(s)| % 2 == 0 && Pairs(Utf8(s)).Some?
    ensures Ascii(s)
  {
    if s != "" {
      hide Nibble, Utf8, Utf8Char, Pairs;
      var b, tail := Utf8(s), s[1..];
      FirstByte(s);
      PairsHead(b);
      NibbleIsAscii(b[0]);
      NibbleIsAscii(b[1]);
      assert tail != "" by {
        NoBytes();
      }
      FirstByte(tail);
      assert b[1] == Utf8(tail)[0] && b[2..] == Utf8(tail)[1..];
      PairsNeedAscii(tail[1..]);
    }
  }

  lemma NoBytes()
    ensures Utf8("") == []
  {
  }

  /** The first byte shows whether the first character is ASCII. */
  lemma FirstByte(s: string)
    requires s != ""
    ensures Utf8(s) != []
    ensures Utf8(s)[0] < 128 ==> s[0] as int < 128 && Utf8(s)[1..] == Utf8(s[1..])
  {
    assert Utf8(s)[0] == Utf8Char(s[0])[0];
  }

  lemma PairsHead(b: seq<Byte>)
    requires b != [] && |b| % 2 == 0 && Pairs(b).Some?
    ensures |b| >= 2 && Nibble(b[0]).Some? && Nibble(b[1]).Some? && Pairs(b[2..]).Some?
  {
    hide Nibble;
  }

  lemma NibbleIsAscii(b: Byte)
    requires Nibble(b).Some?
    ensures b < 128
  {
  }

  /** What `hex_decode` accepts, exactly: the text that remains after the
      blanks and the prefix spells the bytes, in either case. */
  lemma DecodeCharacterised(s: string, bytes: seq<Byte>)
    ensures Decode(s) == Some(bytes) <==> Lower(Body(s)) == Encode(bytes)
  {
    var body := Body(s);
    if Decode(s) == Some(bytes) {
      PairsNeedAscii(body);
    }
    if Lower(body) == Encode(bytes) {
      EncodeIsHexText(bytes);
      forall i | 0 <= i < |body|
        ensures body[i] as int < 128
      {
        assert IsDigit(Lower(body)[i]);
      }
      assert Ascii(body);
    }
    if Ascii(body) {
      Utf8OfAscii(body);
      if |body| % 2 == 0 {
        PairsInvertEncode(body, bytes);
      }
    }
  }

  /** `hex_decode(hex_encode(b)) == b`. */
  lemma RoundTrip(bytes: seq<Byte>)
    ensures Decode(Encode(bytes)) == Some(bytes)
  {
    var s := Encode(bytes);
    EncodeIsHexText(bytes);
    HexTextHasNoBlank(s);
    forall i | 0 <= i < |s|
      ensures LowerChar(s[i]) == s[i]
    {
      assert IsDigit(s[i]);
    }
    assert Lower(s) == s;
    DecodeCharacterised(s, bytes);
  }

  /** The digits that are written, byte by byte. */
  lemma {:induction false} EncodeTable(bytes: seq<Byte>, i: nat)
    requires i < |bytes|
    ensures Encode(bytes)[2 * i] == "0123456789abcdef"[bytes[i] / 16]
    ensures Encode(bytes)[2 * i + 1] == "0123456789abcdef"[bytes[i] % 16]
  {
    if i == 0 {
      HexDigitTable(bytes[0] / 16);
      HexDigitTable(bytes[0] % 16);
    } else {
      EncodeTable(bytes[1..], i - 1);
    }
  }

  /** Blanks, at most one prefix, and digits that spell the bytes. */
  predicate Spells(s: string, bytes: seq<Byte>, lead: string, prefix: string, digits: string, trail: string) {
    && s == lead + prefix + digits + trail && Blank(lead) && Blank(trail)
    && (prefix == "" || prefix == "0x" || prefix == "0X") && Lower(digits) == Encode(bytes)
  }

  /** `hex_decode` accepts exactly the texts so spelled. */
  lemma DecodesSpelled(s: string, bytes: seq<Byte>)
    ensures Decode(s) == Some(bytes)
       <==> exists lead, prefix, digits, trail :: Spells(s, bytes, lead, prefix, digits, trail)
  {
    DecodeCharacterised(s, bytes);
    hide Decode, Trim, Lower, Encode;
    if Lower(Body(s)) == Encode(bytes) {
      var lead, trail := TrimSplits(s);
      var t := Trim(s);
      var prefix := if "0x" <= t || "0X" <= t then t[..2] else "";
      assert t == prefix + Body(s);
      assert lead + t + trail == lead + prefix + Body(s) + trail;
      assert Spells(s, bytes, lead, prefix, Body(s), trail);
    }
    if exists lead, prefix, digits, trail :: Spells(s, bytes, lead, prefix, digits, trail) {
      var lead, prefix, digits, trail :| Spells(s, bytes, lead, prefix, digits, trail);
      BodyOf(s, bytes, lead, prefix, digits, trail);
    }
  }

  lemma BodyOf(s: string, bytes: seq<Byte>, lead: string, prefix: string, digits: string, trail: string)
    requires Spells(s, bytes, lead, prefix, digits, trail)
    ensures Body(s) == digits
  {
    EncodeIsHexText(bytes);
    DigitsStand(digits);
    hide Lower, Encode, Trim;
    var t := prefix + digits;
    assert lead + prefix + digits + trail == lead + t + trail;
    TrimIs(lead, t, trail);
    assert t[|prefix|..] == digits;
    assert prefix == "" ==> t == digits;
  }

  lemma DigitsStand(digits: string)
    requires HexText(Lower(digits))
    ensures Trimmed(digits) && Trimmed("0x" + digits) && Trimmed("0X" + digits)
    ensures |digits| > 1 ==> digits[1] != 'x' && digits[1] != 'X'
  {
    forall i | 0 <= i < |digits|
      ensures !IsWhitespace(digits[i]) && digits[i] != 'x' && digits[i] != 'X'
    {
      assert Lower(digits)[i] == LowerChar(digits[i]) && IsDigit(Lower(digits)[i]);
    }
  }
}
