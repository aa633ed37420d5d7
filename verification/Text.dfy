/** Text and bytes: the parts of Rust's `str` that the codecs rely on.

    A `str` is a sequence of Unicode scalar values (`string`); its bytes are
    its UTF-8 encoding (section 3 of RFC 3629).
  */
module Text {

  /** The failure-compatible result of every codec: `None` stands for `Err`
      with whatever message the code attaches. */
  datatype Option<+T> = None | Some(value: T) {
    predicate IsFailure() {
      None?
    }

    function PropagateFailure<U>(): Option<U>
      requires None?
    {
      None
    }

    function Extract(): T
      requires Some?
    {
      value
    }
  }

  type Byte = b: int | 0 <= b < 256

  function Utf8Char(c: char): (b: seq<Byte>)
    ensures 1 <= |b| <= 4
  {
    var n := c as int;
    if n < 0x80 then [n]
    else if n < 0x800 then [0xC0 + n / 64, 0x80 + n % 64]
    else if n < 0x10000 then [0xE0 + n / 4096, 0x80 + n / 64 % 64, 0x80 + n % 64]
    else [0xF0 + n / 262144, 0x80 + n / 4096 % 64, 0x80 + n / 64 % 64, 0x80 + n % 64]
  }

  function Utf8(s: string): seq<Byte> {
    if s == "" then [] else Utf8Char(s[0]) + Utf8(s[1..])
  }

  predicate Ascii(s: string) {
    forall i :: 0 <= i < |s| ==> s[i] as int < 128
  }

  /** The bytes of an ASCII text are its characters' codes. */
  function Codes(s: string): (b: seq<Byte>)
    requires Ascii(s)
    ensures |b| == |s|
  {
    seq(|s|, i requires 0 <= i < |s| => s[i] as int)
  }

  lemma {:induction false} Utf8OfAscii(s: string)
    requires Ascii(s)
    ensures Utf8(s) == Codes(s)
  {
    if s != "" {
      Utf8OfAscii(s[1..]);
      assert Codes(s) == [s[0] as int] + Codes(s[1..]);
    }
  }

  /** `char::is_whitespace`: the Unicode White_Space property. */
  predicate IsWhitespace(c: char) {
    var n := c as int;
    || 9 <= n <= 13 || n == 0x20 || n == 0x85 || n == 0xA0 || n == 0x1680
    || 0x2000 <= n <= 0x200A || n == 0x2028 || n == 0x2029 || n == 0x202F
    || n == 0x205F || n == 0x3000
  }

  function TrimStart(s: string): string {
    if s != "" && IsWhitespace(s[0]) then TrimStart(s[1..]) else s
  }

  function TrimEnd(s: string): string {
    if s != "" && IsWhitespace(s[|s| - 1]) then TrimEnd(s[..|s| - 1]) else s
  }

  function Trim(s: string): string {
    TrimEnd(TrimStart(s))
  }

  /** Nothing but blanks. */
  predicate Blank(s: string) {
    forall c :: c in s ==> IsWhitespace(c)
  }

  /** A text that begins and ends with something else than a blank. */
  predicate Trimmed(s: string) {
    s == "" || (!IsWhitespace(s[0]) && !IsWhitespace(s[|s| - 1]))
  }

  lemma {:induction false} TrimStartSplits(s: string) returns (lead: string)
    ensures Blank(lead) && s == lead + TrimStart(s)
    ensures TrimStart(s) != "" ==> !IsWhitespace(TrimStart(s)[0])
  {
    lead := "";
    if s != "" && IsWhitespace(s[0]) {
      var more := TrimStartSplits(s[1..]);
      lead := [s[0]] + more;
      assert s == [s[0]] + s[1..];
    }
  }

  lemma {:induction false} TrimEndSplits(s: string) returns (trail: string)
    ensures Blank(trail) && s == TrimEnd(s) + trail
    ensures TrimEnd(s) != "" ==> !IsWhitespace(TrimEnd(s)[|TrimEnd(s)| - 1])
  {
    trail := "";
    if s != "" && IsWhitespace(s[|s| - 1]) {
      var more := TrimEndSplits(s[..|s| - 1]);
      trail := more + [s[|s| - 1]];
      assert s == s[..|s| - 1] + [s[|s| - 1]];
    }
  }

  /** `str::trim`: what remains between the blanks at both ends. */
  lemma TrimSplits(s: string) returns (lead: string, trail: string)
    ensures Blank(lead) && Blank(trail) && Trimmed(Trim(s)) && s == lead + Trim(s) + trail
  {
    lead := TrimStartSplits(s);
    trail := TrimEndSplits(TrimStart(s));
    var t := TrimStart(s);
    assert t == Trim(s) + trail;
    assert Trim(s) != "" ==> t[0] == Trim(s)[0];
  }

  /** It is the only text that stands so. */
  lemma TrimIs(lead: string, t: string, trail: string)
    requires Blank(lead) && Blank(trail) && Trimmed(t)
    ensures Trim(lead + t + trail) == t
  {
    if t == "" {
      assert lead + t + trail == lead + trail;
      assert forall c :: c in lead + trail ==> c in lead || c in trail;
      BlankTrims(lead + trail);
    } else {
      assert lead + t + trail == lead + (t + trail);
      LeadTrims(lead, t + trail);
      TrailTrims(t, trail);
    }
  }

  lemma {:induction false} BlankTrims(s: string)
    requires Blank(s)
    ensures TrimStart(s) == ""
  {
    if s != "" {
      assert s[0] in s && forall c :: c in s[1..] ==> c in s;
      BlankTrims(s[1..]);
    }
  }

  lemma {:induction false} LeadTrims(lead: string, t: string)
    requires Blank(lead) && t != "" && !IsWhitespace(t[0])
    ensures TrimStart(lead + t) == t
  {
    if lead == "" {
      assert lead + t == t;
    } else {
      assert lead[0] in lead && (lead + t)[1..] == lead[1..] + t;
      LeadTrims(lead[1..], t);
    }
  }

  lemma {:induction false} TrailTrims(t: string, trail: string)
    requires Blank(trail) && t != "" && !IsWhitespace(t[|t| - 1])
    ensures TrimEnd(t + trail) == t
  {
    if trail == "" {
      assert t + trail == t;
    } else {
      var n := |trail| - 1;
      assert trail[n] in trail && (t + trail)[..|t| + n] == t + trail[..n];
      TrailTrims(t, trail[..n]);
    }
  }

  lemma TrimsToNothing(s: string)
    ensures Trim(s) == "" <==> Blank(s)
  {
    var lead, trail := TrimSplits(s);
    if Trim(s) == "" {
      assert s == lead + trail;
    } else {
      assert Trim(s)[0] in s;
    }
  }

  /** The code points of the property. */
  lemma WhitespaceTable(c: char)
    ensures IsWhitespace(c) <==> c as int in {
      9, 10, 11, 12, 13, 32, 133, 160, 5760, 8192, 8193, 8194, 8195, 8196, 8197, 8198, 8199, 8200, 8201, 8202,
      8232, 8233, 8239, 8287, 12288}
  {
  }

  function UpperChar(c: char): char {
    if 'a' <= c <= 'z' then (c as int - 32) as char else c
  }

  function LowerChar(c: char): char {
    if 'A' <= c <= 'Z' then (c as int + 32) as char else c
  }

  /** `str::to_ascii_uppercase`. */
  function Upper(s: string): (u: string)
    ensures |u| == |s|
  {
    seq(|s|, i requires 0 <= i < |s| => UpperChar(s[i]))
  }

  /** `str::to_ascii_lowercase`. */
  function Lower(s: string): (l: string)
    ensures |l| == |s|
  {
    seq(|s|, i requires 0 <= i < |s| => LowerChar(s[i]))
  }

  const CAPITALS := "ABCDEFGHIJKLMNOPQRSTUVWXYZ"
  const SMALLS := "abcdefghijklmnopqrstuvwxyz"

  /** Case is that of the 26 letters, and nothing else changes. */
  lemma CaseTable(s: string, i: nat)
    requires i < |s|
    ensures forall l :: 0 <= l < 26 ==> (s[i] == SMALLS[l] ==> Upper(s)[i] == CAPITALS[l])
    ensures forall l :: 0 <= l < 26 ==> (s[i] == CAPITALS[l] ==> Lower(s)[i] == SMALLS[l])
    ensures s[i] !in SMALLS ==> Upper(s)[i] == s[i]
    ensures s[i] !in CAPITALS ==> Lower(s)[i] == s[i]
  {
    LetterTable(s[i]);
  }

  lemma LetterTable(c: char)
    ensures forall l :: 0 <= l < 26 ==> CAPITALS[l] as int == 65 + l && SMALLS[l] as int == 97 + l
    ensures 'a' <= c <= 'z' ==> c == SMALLS[c as int - 97]
    ensures 'A' <= c <= 'Z' ==> c == CAPITALS[c as int - 65]
  {
  }

  lemma UpperIdempotent(s: string)
    ensures Upper(Upper(s)) == Upper(s)
  {
    assert forall i :: 0 <= i < |s| ==> UpperChar(UpperChar(s[i])) == UpperChar(s[i]);
  }

  /** `str::replace(c, "")` for one character. */
  function Without(s: string, c: char): string {
    if s == "" then ""
    else (if s[0] == c then "" else [s[0]]) + Without(s[1..], c)
  }

  // ---------------------------------------------------------------------
  // Hexadecimal digits
  // ---------------------------------------------------------------------

  function HexDigit(n: int): char
    requires 0 <= n < 16
  {
    (if n < 10 then '0' as int + n else 'a' as int + n - 10) as char
  }

  lemma HexDigitTable(n: int)
    requires 0 <= n < 16
    ensures HexDigit(n) == "0123456789abcdef"[n]
  {
  }

  function HexValue(c: char): (n: Option<int>)
    ensures n.Some? ==> 0 <= n.value < 16
  {
    if '0' <= c <= '9' then Some(c as int - '0' as int)
    else if 'a' <= c <= 'f' then Some(c as int - 'a' as int + 10)
    else if 'A' <= c <= 'F' then Some(c as int - 'A' as int + 10)
    else None
  }

  // ---------------------------------------------------------------------
  // Order
  // ---------------------------------------------------------------------

  /** The order of `str` values. On valid UTF-8 the byte order is the order
      of the scalar values, compared from the left. */
  predicate Less(a: string, b: string) {
    if b == "" then false
    else if a == "" then true
    else a[0] < b[0] || (a[0] == b[0] && Less(a[1..], b[1..]))
  }

  lemma {:induction false} LessTrichotomy(a: string, b: string)
    ensures a == b ==> !Less(a, b) && !Less(b, a)
    ensures a != b ==> (Less(a, b) <==> !Less(b, a))
  {
    if a != "" && b != "" && a[0] == b[0] {
      LessTrichotomy(a[1..], b[1..]);
      assert a == [a[0]] + a[1..] && b == [b[0]] + b[1..];
    }
  }

  lemma {:induction false} LessTransitive(a: string, b: string, c: string)
    requires Less(a, b) && Less(b, c)
    ensures Less(a, c)
  {
    if a != "" && a[0] == b[0] == c[0] {
      LessTransitive(a[1..], b[1..], c[1..]);
    }
  }

  /** Texts of one length compare by their first part and then by the rest. */
  lemma {:induction false} LessConcat(a: string, x: string, b: string, y: string)
    requires |a| == |b|
    ensures Less(a + x, b + y) <==> Less(a, b) || (a == b && Less(x, y))
  {
    if a == "" {
      assert a + x == x && b + y == y;
    } else {
      assert (a + x)[1..] == a[1..] + x && (b + y)[1..] == b[1..] + y;
      assert a == [a[0]] + a[1..] && b == [b[0]] + b[1..];
      LessConcat(a[1..], x, b[1..], y);
    }
  }
}
