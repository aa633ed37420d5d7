/** What the decoder of src/httpc.rs reads from a chunk header, told without
    the functions that read it. */
module ChunkSizes {
  import opened Text
  import opened Chunked
  import Hex

  // ---------------------------------------------------------------------
  // UTF-8
  // ---------------------------------------------------------------------

  lemma Twice(n: nat)
    ensures n / 4096 == n / 64 / 64
  {
    var q, r := n / 64, n % 64;
    var p, t := q / 64, q % 64;
    assert n == 64 * q + r && q == 64 * p + t;
    assert n == 4096 * p + (64 * t + r) && 0 <= 64 * t + r < 4096;
  }

  lemma Thrice(n: nat)
    ensures n / 262144 == n / 64 / 64 / 64
  {
    Twice(n / 64);
    var q, r := n / 64, n % 64;
    var p, t := q / 4096, q % 4096;
    assert n == 64 * q + r && q == 4096 * p + t;
    assert n == 262144 * p + (64 * t + r) && 0 <= 64 * t + r < 262144;
  }

  lemma Sixes(n: nat)
    ensures n == n / 64 * 64 + n % 64
    ensures n == n / 4096 * 4096 + n / 64 % 64 * 64 + n % 64
    ensures n == n / 262144 * 262144 + n / 4096 % 64 * 4096 + n / 64 % 64 * 64 + n % 64
  {
    Twice(n);
    Thrice(n);
    var q := n / 64;
    var p := q / 64;
    assert n == q * 64 + n % 64 && q == p * 64 + q % 64 && p == p / 64 * 64 + p % 64;
  }

  lemma ReadsTwo(b: seq<Byte>, x: nat, y: nat)
    requires |b| >= 2 && 2 <= x < 32 && y < 64 && b[0] == 0xC0 + x && b[1] == 0x80 + y
    ensures FirstChar(b) == Some(((x * 64 + y) as char, 2))
  {
  }

  lemma ReadsThree(b: seq<Byte>, x: nat, y: nat, z: nat)
    requires |b| >= 3 && x < 16 && y < 64 && z < 64
    requires var n := x * 4096 + y * 64 + z; 0x800 <= n && !(0xD800 <= n < 0xE000)
    requires b[0] == 0xE0 + x && b[1] == 0x80 + y && b[2] == 0x80 + z
    ensures FirstChar(b) == Some(((x * 4096 + y * 64 + z) as char, 3))
  {
  }

  lemma ReadsFour(b: seq<Byte>, x: nat, y: nat, z: nat, w: nat)
    requires |b| >= 4 && x < 5 && y < 64 && z < 64 && w < 64
    requires var n := x * 262144 + y * 4096 + z * 64 + w; 0x10000 <= n < 0x110000
    requires b[0] == 0xF0 + x && b[1] == 0x80 + y && b[2] == 0x80 + z && b[3] == 0x80 + w
    ensures FirstChar(b) == Some(((x * 262144 + y * 4096 + z * 64 + w) as char, 4))
  {
  }

  lemma FirstCharOf(c: char, rest: seq<Byte>)
    ensures FirstChar(Utf8Char(c) + rest) == Some((c, |Utf8Char(c)|))
  {
    var n := c as int;
    var u := Utf8Char(c);
    Sixes(n);
    CharRange(c);
    var b := u + rest;
    if |u| == 1 {
      assert b[0] == n;
    } else {
      hide FirstChar;
      if |u| == 2 {
        assert b[0] == u[0] && b[1] == u[1];
        ReadsTwo(b, n / 64, n % 64);
      } else if |u| == 3 {
        assert b[0] == u[0] && b[1] == u[1] && b[2] == u[2];
        ReadsThree(b, n / 4096, n / 64 % 64, n % 64);
      } else {
        assert b[0] == u[0] && b[1] == u[1] && b[2] == u[2] && b[3] == u[3];
        ReadsFour(b, n / 262144, n / 4096 % 64, n / 64 % 64, n % 64);
      }
    }
  }

  /** Scalar values leave out the surrogates. */
  lemma CharRange(c: char)
    ensures c as int < 0xD800 || 0xE000 <= c as int < 0x110000
  {
  }

  lemma Joined(x: nat, y: nat, z: nat, w: nat)
    requires y < 64 && z < 64 && w < 64
    ensures (z * 64 + w) / 64 == z && (z * 64 + w) % 64 == w
    ensures var n := y * 4096 + z * 64 + w; n / 4096 == y && n / 64 % 64 == z && n % 64 == w
    ensures var n := x * 262144 + y * 4096 + z * 64 + w;
      n / 262144 == x && n / 4096 % 64 == y && n / 64 % 64 == z && n % 64 == w
  {
    var q := y * 64 + z;
    var p := x * 64 + y;
    Shifted(z, w);
    Shifted(y, z);
    Shifted(q, w);
    Shifted(x, y);
    Shifted(p, z);
    Shifted(p * 64 + z, w);
    Twice(q * 64 + w);
    var n := (p * 64 + z) * 64 + w;
    Twice(n);
    Thrice(n);
  }

  lemma Shifted(a: nat, b: nat)
    requires b < 64
    ensures (a * 64 + b) / 64 == a && (a * 64 + b) % 64 == b
  {
  }

  lemma WritesTwo(x: nat, y: nat)
    requires 2 <= x < 32 && y < 64
    ensures Utf8Char((x * 64 + y) as char) == [0xC0 + x, 0x80 + y]
  {
    Joined(0, 0, x, y);
  }

  lemma WritesThree(x: nat, y: nat, z: nat)
    requires x < 16 && y < 64 && z < 64
    requires var n := x * 4096 + y * 64 + z; 0x800 <= n && !(0xD800 <= n < 0xE000)
    ensures Utf8Char((x * 4096 + y * 64 + z) as char) == [0xE0 + x, 0x80 + y, 0x80 + z]
  {
    Joined(0, x, y, z);
  }

  lemma WritesFour(x: nat, y: nat, z: nat, w: nat)
    requires x < 5 && y < 64 && z < 64 && w < 64
    requires var n := x * 262144 + y * 4096 + z * 64 + w; 0x10000 <= n < 0x110000
    ensures Utf8Char((x * 262144 + y * 4096 + z * 64 + w) as char) == [0xF0 + x, 0x80 + y, 0x80 + z, 0x80 + w]
  {
    Joined(x, y, z, w);
  }

  lemma FirstCharWas(b: seq<Byte>)
    requires FirstChar(b).Some?
    ensures Utf8Char(FirstChar(b).value.0) == b[..FirstChar(b).value.1]
  {
    var n := FirstChar(b).value.1;
    var lead := b[0] as int;
    if n == 1 {
      assert b[..1] == [b[0]];
    } else {
      hide Utf8Char;
      if n == 2 {
        WritesTwo(lead - 0xC0, b[1] - 0x80);
        assert b[..2] == [b[0], b[1]];
      } else if n == 3 {
        WritesThree(lead - 0xE0, b[1] - 0x80, b[2] - 0x80);
        assert b[..3] == [b[0], b[1], b[2]];
      } else {
        WritesFour(lead - 0xF0, b[1] - 0x80, b[2] - 0x80, b[3] - 0x80);
        assert b[..4] == [b[0], b[1], b[2], b[3]];
      }
    }
  }

  /** `from_utf8` inverts the encoding, and accepts nothing else. */
  lemma {:induction false} FromUtf8Exactly(b: seq<Byte>, s: string)
    ensures FromUtf8(b) == Some(s) <==> Utf8(s) == b
    decreases |s|
  {
    hide FirstChar, Utf8Char;
    if s == "" {
      if b != [] {
        assert FromUtf8(b).Some? ==> FromUtf8(b).value != "";
      }
    } else if b != [] {
      var c, tail := s[0], s[1..];
      assert s == [c] + tail;
      if Utf8(s) == b {
        FirstCharOf(c, Utf8(tail));
        assert b[|Utf8Char(c)|..] == Utf8(tail);
        FromUtf8Exactly(Utf8(tail), tail);
      }
      if FromUtf8(b) == Some(s) {
        var first := FirstChar(b).value;
        FirstCharWas(b);
        var rest := FromUtf8(b[first.1..]).value;
        assert ([first.0] + rest)[0] == c && ([first.0] + rest)[1..] == tail;
        FromUtf8Exactly(b[first.1..], tail);
        assert b == b[..first.1] + b[first.1..];
      }
    } else {
      assert Utf8(s) != [] by {
        assert |Utf8Char(s[0])| >= 1;
      }
    }
  }

  // ---------------------------------------------------------------------
  // Sizes
  // ---------------------------------------------------------------------

  const SMALL := "0123456789abcdef"
  const CAPITAL := "0123456789ABCDEF"

  predicate HexChar(c: char) {
    c in SMALL || c in CAPITAL
  }

  predicate HexChars(s: string) {
    forall i :: 0 <= i < |s| ==> HexChar(s[i])
  }

  /** Where the character stands in a table. */
  function Position(c: char, table: string): (n: nat)
    ensures n <= |table|
  {
    if table == "" || table[0] == c then 0 else 1 + Position(c, table[1..])
  }

  function Weight(c: char): nat {
    if c in SMALL then Position(c, SMALL) else Position(c, CAPITAL)
  }

  function Power16(n: nat): nat {
    if n == 0 then 1 else 16 * Power16(n - 1)
  }

  function Times(a: nat, b: nat): nat {
    a * b
  }

  /** The number that the digits write, each by its weight and place. */
  function Base16(s: string): nat {
    if s == "" then 0 else Times(Weight(s[0]), Power16(|s| - 1)) + Base16(s[1..])
  }

  lemma TableEntries()
    ensures |SMALL| == |CAPITAL| == 16
    ensures forall i :: 0 <= i < 16 ==> SMALL[i] as int == if i < 10 then 48 + i else 87 + i
    ensures forall i :: 0 <= i < 16 ==> CAPITAL[i] as int == if i < 10 then 48 + i else 55 + i
  {
  }

  lemma {:induction false} PositionIs(c: char, table: string, i: nat)
    requires i < |table| && table[i] == c && forall j :: 0 <= j < i ==> table[j] != c
    ensures Position(c, table) == i
  {
    if i > 0 {
      PositionIs(c, table[1..], i - 1);
    }
  }

  lemma DigitHasWeight(c: char)
    ensures HexValue(c) == if HexChar(c) then Some(Weight(c)) else None
  {
    TableEntries();
    var v := HexValue(c);
    if v.Some? {
      if c as int >= 97 || c as int < 58 {
        assert SMALL[v.value] == c;
        PositionIs(c, SMALL, v.value);
      } else {
        assert CAPITAL[v.value] == c;
        assert c !in SMALL;
        PositionIs(c, CAPITAL, v.value);
      }
    } else {
      assert forall i :: 0 <= i < 16 ==> SMALL[i] != c;
      assert forall i :: 0 <= i < 16 ==> CAPITAL[i] != c;
    }
  }

  lemma {:induction false} Base16Snoc(s: string, c: char)
    ensures Base16(s + [c]) == 16 * Base16(s) + Weight(c)
  {
    hide Weight;
    var t := s + [c];
    if s == "" {
      assert t == [c] && t[1..] == "" && Power16(0) == 1;
      Scaled(Weight(c), 0);
    } else {
      assert t[0] == s[0] && t[1..] == s[1..] + [c];
      Base16Snoc(s[1..], c);
      assert Power16(|s|) == 16 * Power16(|s| - 1);
      Scaled(Weight(s[0]), Power16(|s| - 1));
    }
  }

  lemma Scaled(a: nat, b: nat)
    ensures Times(a, 16 * b) == 16 * Times(a, b) && Times(a, 1) == a
  {
  }

  lemma {:induction false} HexNumberIs(s: string)
    ensures HexNumber(s) == if HexChars(s) then Some(Base16(s)) else None
  {
    hide HexValue, Base16, Weight, HexChar;
    if s == "" {
      assert Base16("") == 0 by {
        EmptyNumber();
      }
    } else {
      var n := |s| - 1;
      HexNumberIs(s[..n]);
      DigitHasWeight(s[n]);
      assert s == s[..n] + [s[n]];
      Base16Snoc(s[..n], s[n]);
      assert HexChars(s) <==> HexChars(s[..n]) && HexChar(s[n]);
    }
  }

  lemma EmptyNumber()
    ensures Base16("") == 0
  {
  }

  /** A size as it may be written: blanks, a sign, digits in either case,
      blanks, and whatever a semicolon opens. */
  predicate Sized(s: string, n: nat, lead: string, sign: string, digits: string, trail: string, ext: string) {
    && s == lead + (sign + digits) + trail + ext && Blank(lead) && Blank(trail)
    && (sign == "" || sign == "+") && digits != "" && HexChars(digits)
    && (ext == "" || ext[0] == ';')
    && n == Base16(digits) && n <= 18_446_744_073_709_551_615
  }

  lemma {:induction false} SemicolonSplits(s: string) returns (ext: string)
    ensures s == BeforeSemicolon(s) + ext && (ext == "" || ext[0] == ';')
  {
    if s == "" || s[0] == ';' {
      ext := s;
      assert s == "" + ext;
    } else {
      ext := SemicolonSplits(s[1..]);
      assert s == [s[0]] + s[1..];
    }
  }

  lemma {:induction false} SemicolonEnds(s: string, ext: string)
    requires ';' !in s && (ext == "" || ext[0] == ';')
    ensures BeforeSemicolon(s + ext) == s
  {
    if s == "" {
      assert s + ext == ext;
    } else {
      assert s[0] in s && (s + ext)[1..] == s[1..] + ext;
      assert forall c :: c in s[1..] ==> c in s;
      SemicolonEnds(s[1..], ext);
    }
  }

  lemma PlainChars(s: string)
    requires HexChars(s)
    ensures Trimmed(s) && Trimmed("+" + s) && ';' !in s && '+' !in s
  {
    TableEntries();
    forall i | 0 <= i < |s|
      ensures !IsWhitespace(s[i]) && s[i] != ';' && s[i] != '+'
    {
      assert HexChar(s[i]);
    }
  }

  lemma SignedRadix(sign: string, digits: string)
    requires (sign == "" || sign == "+") && '+' !in digits
    ensures FromStrRadix16(sign + digits)
         == if digits != "" && HexNumber(digits).Some? && HexNumber(digits).value < USIZE then HexNumber(digits)
            else None
  {
    hide HexNumber;
    var t := sign + digits;
    assert sign == "+" ==> t[1..] == digits;
    assert sign == "" ==> t == digits;
    assert digits != "" ==> digits[0] in digits;
  }

  lemma SizedParses(s: string, n: nat, lead: string, sign: string, digits: string, trail: string, ext: string)
    requires Sized(s, n, lead, sign, digits, trail, ext)
    ensures FromStrRadix16(Trim(BeforeSemicolon(s))) == Some(n)
  {
    PlainChars(digits);
    HexNumberIs(digits);
    SignedRadix(sign, digits);
    hide FromStrRadix16, Trim, BeforeSemicolon, HexChars, HexNumber, Base16;
    var t := sign + digits;
    var before := lead + t + trail;
    BlankHasNoSemicolon(lead);
    BlankHasNoSemicolon(trail);
    assert ';' !in before;
    SemicolonEnds(before, ext);
    assert Trimmed(t) by {
      assert sign == "" ==> t == digits;
    }
    TrimIs(lead, t, trail);
  }

  lemma BlankHasNoSemicolon(s: string)
    requires Blank(s)
    ensures ';' !in s
  {
    assert !IsWhitespace(';');
  }

  lemma SignedDigits(t: string, n: nat) returns (sign: string, digits: string)
    requires FromStrRadix16(t) == Some(n)
    ensures t == sign + digits && (sign == "" || sign == "+") && digits != "" && HexChars(digits)
    ensures n == Base16(digits) && n <= 18_446_744_073_709_551_615
  {
    hide HexNumber, Base16, HexChars;
    sign := if t[0] == '+' then "+" else "";
    digits := t[|sign|..];
    HexNumberIs(digits);
    assert t == t[..|sign|] + digits && t[..|sign|] == sign;
  }

  lemma ParsedIsSized(s: string, n: nat)
    requires FromStrRadix16(Trim(BeforeSemicolon(s))) == Some(n)
    ensures exists lead, sign, digits, trail, ext :: Sized(s, n, lead, sign, digits, trail, ext)
  {
    hide FromStrRadix16, Trim, BeforeSemicolon, HexNumber, Base16, HexChars, Blank, Trimmed;
    var ext := SemicolonSplits(s);
    var before := BeforeSemicolon(s);
    var lead, trail := TrimSplits(before);
    var sign, digits := SignedDigits(Trim(before), n);
    assert Sized(s, n, lead, sign, digits, trail, ext);
  }

  ghost predicate Announces(header: seq<Byte>, n: nat) {
    exists s: string :: Utf8(s) == header && Reads(s, n)
  }

  ghost predicate Reads(s: string, n: nat) {
    exists lead, sign, digits, trail, ext :: Sized(s, n, lead, sign, digits, trail, ext)
  }

  /** The size that a header announces, exactly. */
  lemma SizeExactly(header: seq<Byte>, n: nat)
    ensures ParseSize(header) == Some(n) <==> Announces(header, n)
  {
    hide FromUtf8, FromStrRadix16, Trim, BeforeSemicolon, Sized, Utf8;
    if ParseSize(header) == Some(n) {
      var s := FromUtf8(header).value;
      FromUtf8Exactly(header, s);
      ParsedIsSized(s, n);
    }
    if Announces(header, n) {
      var s: string :| Utf8(s) == header && Reads(s, n);
      FromUtf8Exactly(header, s);
      var lead, sign, digits, trail, ext :| Sized(s, n, lead, sign, digits, trail, ext);
      SizedParses(s, n, lead, sign, digits, trail, ext);
    }
  }

  // ---------------------------------------------------------------------
  // What section 7.1 of RFC 9112 allows
  // ---------------------------------------------------------------------

  /** Bytes below 128 are the characters themselves. */
  lemma {:induction false} PlainHead(s: string, n: nat)
    requires n <= |Utf8(s)| && forall i :: 0 <= i < n ==> Utf8(s)[i] < 128
    ensures n <= |s| && Utf8(s[n..]) == Utf8(s)[n..]
    ensures forall i :: 0 <= i < n ==> s[i] as int == Utf8(s)[i]
  {
    if n == 0 {
      assert s[0..] == s;
    } else {
      assert s != "" by {
        Hex.NoBytes();
      }
      Hex.FirstByte(s);
      var tail := s[1..];
      assert Utf8(s)[0] == s[0] as int by {
        assert Utf8(s)[0] == Utf8Char(s[0])[0];
      }
      hide Utf8;
      assert forall i :: 0 <= i < n - 1 ==> Utf8(tail)[i] == Utf8(s)[i + 1];
      PlainHead(tail, n - 1);
      assert tail[n - 1..] == s[n..];
      assert forall i :: 1 <= i < n ==> s[i] == tail[i - 1];
    }
  }

  lemma {:induction false} HexDigitsAre(b: seq<Byte>)
    ensures forall i :: 0 <= i < HexDigits(b) ==> Hex.Nibble(b[i]).Some?
  {
    if b != [] && Hex.Nibble(b[0]).Some? {
      HexDigitsAre(b[1..]);
    }
  }

  lemma {:induction false} HexDigitsStop(b: seq<Byte>, n: nat)
    requires n <= |b| && forall i :: 0 <= i < n ==> Hex.Nibble(b[i]).Some?
    requires n < |b| ==> Hex.Nibble(b[n]).None?
    ensures HexDigits(b) == n
  {
    if n > 0 {
      HexDigitsStop(b[1..], n - 1);
    }
  }

  lemma {:induction false} BlanksStop(b: seq<Byte>, n: nat)
    requires n < |b| && (forall i :: 0 <= i < n ==> b[i] == 9 || b[i] == 32) && b[n] != 9 && b[n] != 32
    ensures SkipBlanks(b) == b[n..]
  {
    if n > 0 {
      BlanksStop(b[1..], n - 1);
      assert b[1..][n - 1..] == b[n..];
    }
  }

  /** Digits, at least one, up to `i`; then the end, or tabs and spaces up to `j`
      and a semicolon. */
  predicate Conforms(h: seq<Byte>, i: nat, j: nat) {
    && 0 < i <= j <= |h|
    && (forall k :: 0 <= k < i ==> 48 <= h[k] <= 57 || 97 <= h[k] <= 102 || 65 <= h[k] <= 70)
    && (forall k :: i <= k < j ==> h[k] == 9 || h[k] == 32)
    && (i == |h| || (j < |h| && h[j] == 59))
  }

  lemma NibbleRange(b: Byte)
    ensures Hex.Nibble(b).Some? <==> 48 <= b <= 57 || 97 <= b <= 102 || 65 <= b <= 70
  {
  }

  /** Which headers the section allows, byte by byte. */
  lemma ConformingExactly(h: seq<Byte>)
    ensures ConformingHeader(h) <==> exists i, j :: Conforms(h, i, j)
  {
    if ConformingHeader(h) {
      var i, j := ConformingParts(h);
    }
    if exists i, j :: Conforms(h, i, j) {
      var i, j :| Conforms(h, i, j);
      PartsConform(h, i, j);
    }
  }

  lemma ConformingParts(h: seq<Byte>) returns (i: nat, j: nat)
    requires ConformingHeader(h)
    ensures Conforms(h, i, j)
  {
    hide HexDigits, SkipBlanks, Hex.Nibble;
    i := HexDigits(h);
    HexDigitsAre(h);
    forall k | 0 <= k < i
      ensures 48 <= h[k] <= 57 || 97 <= h[k] <= 102 || 65 <= h[k] <= 70
    {
      NibbleRange(h[k]);
    }
    j := i;
    if i < |h| {
      var b := h[i..];
      var m := BlanksSkipped(b);
      j := i + m;
      assert SkipBlanks(b)[0] == b[m] == h[j];
      assert forall k :: i <= k < j ==> h[k] == b[k - i];
    }
  }

  lemma PartsConform(h: seq<Byte>, i: nat, j: nat)
    requires Conforms(h, i, j)
    ensures ConformingHeader(h)
  {
    hide HexDigits, SkipBlanks, Hex.Nibble;
    forall k | 0 <= k < i
      ensures Hex.Nibble(h[k]).Some?
    {
      NibbleRange(h[k]);
    }
    if i < |h| {
      NibbleRange(h[i]);
      var b := h[i..];
      assert forall k :: 0 <= k <= j - i ==> b[k] == h[i + k];
      BlanksStop(b, j - i);
    }
    HexDigitsStop(h, i);
  }

  lemma NibbleIsHexChar(b: Byte)
    requires Hex.Nibble(b).Some?
    ensures b < 128 && HexChar(b as char)
  {
    TableEntries();
    var v := Hex.Nibble(b).value;
    assert SMALL[v] as int == b || CAPITAL[v] as int == b;
  }

  lemma {:induction false} BlanksSkipped(b: seq<Byte>) returns (n: nat)
    ensures n <= |b| && SkipBlanks(b) == b[n..]
    ensures forall i :: 0 <= i < n ==> b[i] == 9 || b[i] == 32
  {
    n := 0;
    if b != [] && b[0] in {9, 32} {
      var m := BlanksSkipped(b[1..]);
      n := m + 1;
      assert b[1..][m..] == b[n..];
    }
  }

  /** Every header that the section allows, if it is text, is read as the value
      of its digits, in either case and whatever extension follows; or refused
      if that is beyond 64 bits. */
  lemma ConformingIsRead(header: seq<Byte>, s: string)
    requires ConformingHeader(header) && Utf8(s) == header
    ensures var n := HexDigits(header);
      && 0 < n <= |s| && HexChars(s[..n])
      && ParseSize(header)
         == if Base16(s[..n]) <= 18_446_744_073_709_551_615 then Some(Base16(s[..n])) else None
  {
    hide Base16, HexChars, Utf8, ParseSize, FromStrRadix16, Trim, BeforeSemicolon, HexDigits, Blank, SkipBlanks;
    var n := HexDigits(header);
    DigitsRead(header, s);
    SizeOfText(header, s);
    var digits, rest, b := s[..n], s[n..], header[n..];
    assert s == digits + rest;
    assert n == |header| ==> b == [];
    var trail, ext := Tail(rest, b);
    ReadAs(s, digits, trail, ext);
  }

  lemma SizeOfText(header: seq<Byte>, s: string)
    requires Utf8(s) == header
    ensures ParseSize(header) == FromStrRadix16(Trim(BeforeSemicolon(s)))
  {
    hide FromUtf8, FromStrRadix16, Trim, BeforeSemicolon, Utf8;
    FromUtf8Exactly(header, s);
  }

  lemma DigitsRead(header: seq<Byte>, s: string)
    requires Utf8(s) == header
    ensures var n := HexDigits(header);
      n <= |s| && HexChars(s[..n]) && Utf8(s[n..]) == header[n..]
  {
    hide Utf8, HexChar, Hex.Nibble, HexDigits;
    var n := HexDigits(header);
    HexDigitsAre(header);
    forall i | 0 <= i < n
      ensures header[i] < 128
    {
      NibbleIsHexChar(header[i]);
    }
    PlainHead(s, n);
    forall i | 0 <= i < n
      ensures HexChar(s[i])
    {
      NibbleIsHexChar(header[i]);
      assert s[i] == header[i] as char;
    }
  }

  lemma Tail(rest: string, b: seq<Byte>) returns (trail: string, ext: string)
    requires Utf8(rest) == b
    requires b == [] || (SkipBlanks(b) != [] && SkipBlanks(b)[0] == ';' as int)
    ensures rest == trail + ext && Blank(trail) && (ext == "" || ext[0] == ';')
  {
    if b == [] {
      trail, ext := "", rest;
      assert rest == "" by {
        if rest != "" {
          Hex.FirstByte(rest);
        }
      }
    } else {
      var m := BlanksSkipped(b);
      PlainHead(rest, m);
      trail, ext := rest[..m], rest[m..];
      assert Utf8(ext)[0] == b[m] == 59;
      assert ext != "" by {
        Hex.NoBytes();
      }
      PlainHead(ext, 1);
    }
  }

  lemma ReadAs(s: string, digits: string, trail: string, ext: string)
    requires s == digits + (trail + ext) && Blank(trail) && digits != "" && HexChars(digits)
    requires ext == "" || ext[0] == ';'
    ensures FromStrRadix16(Trim(BeforeSemicolon(s)))
         == if Base16(digits) <= 18_446_744_073_709_551_615 then Some(Base16(digits)) else None
  {
    hide Trim, BeforeSemicolon, HexChars, HexNumber, Base16, FromStrRadix16;
    PlainChars(digits);
    HexNumberIs(digits);
    SignedRadix("", digits);
    var before := digits + trail;
    assert "" + digits == digits && "" + digits + trail == before && s == before + ext;
    BlankHasNoSemicolon(trail);
    assert ';' !in before;
    BlankNothing();
    TrimIs("", digits, trail);
    SemicolonEnds(before, ext);
  }

  lemma BlankNothing()
    ensures Blank("")
  {
  }
}
