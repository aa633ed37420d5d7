/** JSON values and their compact text, as the journal holds them.

    An object is the list of its members in the order they are written;
    `serde_json`'s map iterates by key, so the wire layer lists them by key.
    The text layer covers what the compact printer emits: no blanks between
    tokens, and whole numbers.
  */
module Json {
  import opened Text
  import Decimal

  datatype Value =
    | Null
    | Bool(truth: bool)
    | Num(number: int)
    | Str(text: string)
    | Arr(items: seq<Value>)
    | Obj(fields: seq<Field>)

  datatype Field = Field(key: string, value: Value)

  /** `Map::get`: of two members with one key the later one counts. */
  function Get(fields: seq<Field>, key: string): Option<Value> {
    if fields == [] then None
    else
      var last := fields[|fields| - 1];
      if last.key == key then Some(last.value) else Get(fields[..|fields| - 1], key)
  }

  lemma {:induction false} GetAt(fields: seq<Field>, i: nat)
    requires i < |fields|
    requires forall j :: i < j < |fields| ==> fields[j].key != fields[i].key
    ensures Get(fields, fields[i].key) == Some(fields[i].value)
  {
    if i < |fields| - 1 {
      GetAt(fields[..|fields| - 1], i);
    }
  }

  function AsStr(v: Value): Option<string> {
    if v.Str? then Some(v.text) else None
  }

  /** `Value::as_u64`. */
  function AsU64(v: Value): Option<nat> {
    if v.Num? && 0 <= v.number < 0x1_0000_0000_0000_0000 then Some(v.number) else None
  }

  /** `.get(key).and_then(Value::as_str)`, and its companions. */
  function GetStr(fields: seq<Field>, key: string): Option<string> {
    var v :- Get(fields, key);
    AsStr(v)
  }

  function GetU64(fields: seq<Field>, key: string): Option<nat> {
    var v :- Get(fields, key);
    AsU64(v)
  }

  function GetArr(fields: seq<Field>, key: string): Option<seq<Value>> {
    var v :- Get(fields, key);
    if v.Arr? then Some(v.items) else None
  }

  // ---------------------------------------------------------------------
  // Printing
  // ---------------------------------------------------------------------

  function EscapeChar(c: char): (s: string)
    ensures |s| >= 1
  {
    var n := c as int;
    if c == '\"' then "\\\""
    else if c == '\\' then "\\\\"
    else if n == 8 then "\\b"
    else if n == 9 then "\\t"
    else if n == 10 then "\\n"
    else if n == 12 then "\\f"
    else if n == 13 then "\\r"
    else if n < 0x20 then "\\u00" + [HexDigit(n / 16), HexDigit(n % 16)]
    else [c]
  }

  function Escape(s: string): string {
    if s == "" then "" else EscapeChar(s[0]) + Escape(s[1..])
  }

  function Quote(s: string): string {
    "\"" + Escape(s) + "\""
  }

  function NumberText(n: int): (s: string)
    ensures |s| >= 1
  {
    if n < 0 then "-" + Decimal.Numeral(-n) else Decimal.Numeral(n)
  }

  function Print(v: Value): (s: string)
    ensures |s| >= 1
    decreases v
  {
    match v
    case Null => "null"
    case Bool(b) => if b then "true" else "false"
    case Num(n) => NumberText(n)
    case Str(s) => Quote(s)
    case Arr(items) => "[" + PrintItems(items) + "]"
    case Obj(fields) => "{" + PrintFields(fields) + "}"
  }

  function PrintItems(items: seq<Value>): string
    decreases items
  {
    if items == [] then ""
    else Print(items[0]) + if |items| == 1 then "" else "," + PrintItems(items[1..])
  }

  function PrintFields(fields: seq<Field>): string
    decreases fields
  {
    if fields == [] then ""
    else PrintField(fields[0]) + if |fields| == 1 then "" else "," + PrintFields(fields[1..])
  }

  function PrintField(f: Field): string
    decreases f
  {
    Quote(f.key) + ":" + Print(f.value)
  }

  // ---------------------------------------------------------------------
  // Parsing: each function returns what it read and the text that follows
  // ---------------------------------------------------------------------

  predicate Starts(s: string, c: char) {
    s != "" && s[0] == c
  }

  predicate IsDigit(c: char) {
    '0' <= c <= '9'
  }

  /** The character that `\` and what follows stand for, and the length read. */
  function Unescape(s: string): Option<(char, nat)> {
    if s == "" then None
    else
      var c := s[0];
      if c == '\"' || c == '\\' || c == '/' then Some((c, 1))
      else if c == 'b' then Some((8 as char, 1))
      else if c == 't' then Some((9 as char, 1))
      else if c == 'n' then Some((10 as char, 1))
      else if c == 'f' then Some((12 as char, 1))
      else if c == 'r' then Some((13 as char, 1))
      else if c == 'u' && |s| >= 5 then
        var n :- FourHex(s[1], s[2], s[3], s[4]);
        if 0xD800 <= n < 0xE000 then None else Some((n as char, 5))
      else None
  }

  function FourHex(a: char, b: char, c: char, d: char): (n: Option<int>)
    ensures n.Some? ==> 0 <= n.value < 0x10000
  {
    var high :- TwoHex(a, b);
    var low :- TwoHex(c, d);
    Some(256 * high + low)
  }

  function TwoHex(a: char, b: char): (n: Option<int>)
    ensures n.Some? ==> 0 <= n.value < 256
  {
    var high :- HexValue(a);
    var low :- HexValue(b);
    Some(16 * high + low)
  }

  /** A string's characters up to and with the closing quote. */
  function ParseChars(s: string): (r: Option<(string, string)>)
    ensures r.Some? ==> |r.value.1| < |s|
    decreases |s|
  {
    if s == "" then None
    else if s[0] == '\"' then Some(("", s[1..]))
    else if s[0] == '\\' then
      var u :- Unescape(s[1..]);
      if u.1 + 1 > |s| then None
      else
        var r :- ParseChars(s[1 + u.1..]);
        Some(([u.0] + r.0, r.1))
    else if s[0] as int < 0x20 then None
    else
      var r :- ParseChars(s[1..]);
      Some(([s[0]] + r.0, r.1))
  }

  function DigitRun(s: string): (n: nat)
    ensures n <= |s|
  {
    if s != "" && IsDigit(s[0]) then 1 + DigitRun(s[1..]) else 0
  }

  function NumberOf(digits: string): nat
    requires forall i :: 0 <= i < |digits| ==> IsDigit(digits[i])
  {
    if digits == "" then 0
    else
      assert IsDigit(digits[|digits| - 1]);
      10 * NumberOf(digits[..|digits| - 1]) + (digits[|digits| - 1] as int - '0' as int)
  }

  lemma DigitRunIsDigits(s: string)
    ensures forall i :: 0 <= i < DigitRun(s) ==> IsDigit(s[i])
  {
  }

  function ParseNatural(s: string): (r: Option<(nat, string)>)
    ensures r.Some? ==> |r.value.1| < |s|
  {
    var n := DigitRun(s);
    DigitRunIsDigits(s);
    var rest := s[n..];
    if n == 0 || (n > 1 && s[0] == '0') then None
    else if Starts(rest, '.') || Starts(rest, 'e') || Starts(rest, 'E') then None
    else Some((NumberOf(s[..n]), rest))
  }

  predicate StartsNumber(s: string) {
    s != "" && (IsDigit(s[0]) || s[0] == '-')
  }

  function ParseNumber(s: string): (r: Option<(Value, string)>)
    requires StartsNumber(s)
    ensures r.Some? ==> |r.value.1| < |s| && r.value.0.Num?
  {
    if s[0] == '-' then
      var n :- ParseNatural(s[1..]);
      if n.0 == 0 then None else Some((Num(0 - n.0), n.1))
    else
      var n :- ParseNatural(s);
      Some((Num(n.0), n.1))
  }

  function ParseValue(s: string): (r: Option<(Value, string)>)
    ensures r.Some? ==> |r.value.1| < |s|
    decreases |s|, 1
  {
    if s == "" then None
    else if s[0] == '\"' then
      var r :- ParseChars(s[1..]);
      Some((Str(r.0), r.1))
    else if s[0] == '[' then
      if Starts(s[1..], ']') then Some((Arr([]), s[2..]))
      else
        var r :- ParseItems(s[1..]);
        Some((Arr(r.0), r.1))
    else if s[0] == '{' then
      if Starts(s[1..], '}') then Some((Obj([]), s[2..]))
      else
        var r :- ParseFields(s[1..]);
        Some((Obj(r.0), r.1))
    else if StartsNumber(s) then ParseNumber(s)
    else if "null" <= s then Some((Null, s[4..]))
    else if "true" <= s then Some((Bool(true), s[4..]))
    else if "false" <= s then Some((Bool(false), s[5..]))
    else None
  }

  /** The values of a non-empty array, up to and with the bracket. */
  function ParseItems(s: string): (r: Option<(seq<Value>, string)>)
    ensures r.Some? ==> |r.value.1| < |s|
    decreases |s|, 2
  {
    var v :- ParseValue(s);
    if Starts(v.1, ',') then
      var r :- ParseItems(v.1[1..]);
      Some(([v.0] + r.0, r.1))
    else if Starts(v.1, ']') then Some(([v.0], v.1[1..]))
    else None
  }

  function ParseField(s: string): (r: Option<(Field, string)>)
    ensures r.Some? ==> |r.value.1| < |s|
    decreases |s|, 2
  {
    if !Starts(s, '\"') then None
    else
      var k :- ParseChars(s[1..]);
      if !Starts(k.1, ':') then None
      else
        var v :- ParseValue(k.1[1..]);
        Some((Field(k.0, v.0), v.1))
  }

  /** The members of a non-empty object, up to and with the brace. */
  function ParseFields(s: string): (r: Option<(seq<Field>, string)>)
    ensures r.Some? ==> |r.value.1| < |s|
    decreases |s|, 3
  {
    var f :- ParseField(s);
    if Starts(f.1, ',') then
      var r :- ParseFields(f.1[1..]);
      Some(([f.0] + r.0, r.1))
    else if Starts(f.1, '}') then Some(([f.0], f.1[1..]))
    else None
  }

  /** `serde_json::from_str`: one value and nothing after it. */
  function FromText(s: string): Option<Value> {
    var r :- ParseValue(s);
    if r.1 == "" then Some(r.0) else None
  }

  // ---------------------------------------------------------------------
  // Parsing inverts printing
  // ---------------------------------------------------------------------

  lemma UnescapeEscaped(c: char, rest: string)
    requires c == '\"' || c == '\\' || c as int < 0x20
    ensures EscapeChar(c)[0] == '\\'
    ensures Unescape(EscapeChar(c)[1..] + rest) == Some((c, |EscapeChar(c)| - 1))
  {
    var n := c as int;
    var e := EscapeChar(c)[1..];
    if |e| == 1 {
      assert (e + rest)[0] == e[0];
    } else {
      assert e == "u00" + [HexDigit(n / 16), HexDigit(n % 16)];
      var t := e + rest;
      assert t[0] == 'u' && t[1] == '0' && t[2] == '0' && t[3] == HexDigit(n / 16) && t[4] == HexDigit(n % 16);
      assert n == 16 * (n / 16) + n % 16;
    }
  }

  lemma CharParses(c: char, next: string)
    ensures ParseChars(EscapeChar(c) + next)
         == var r := ParseChars(next);
            if r.None? then None else Some(([c] + r.value.0, r.value.1))
  {
    if c == '\"' || c == '\\' || c as int < 0x20 {
      EscapedParses(c, next);
    } else {
      assert EscapeChar(c) == [c];
      var t := [c] + next;
      assert t[0] == c && t[1..] == next;
    }
  }

  lemma EscapedParses(c: char, next: string)
    requires c == '\"' || c == '\\' || c as int < 0x20
    ensures ParseChars(EscapeChar(c) + next)
         == var r := ParseChars(next);
            if r.None? then None else Some(([c] + r.value.0, r.value.1))
  {
    UnescapeEscaped(c, next);
    hide Unescape, EscapeChar;
    var e := EscapeChar(c);
    var t := e + next;
    assert t[0] == '\\' && t[1..] == e[1..] + next && t[|e|..] == next;
  }

  lemma {:induction false} CharsParse(s: string, rest: string)
    ensures ParseChars(Escape(s) + "\"" + rest) == Some((s, rest))
  {
    if s == "" {
      assert Escape(s) + "\"" + rest == "\"" + rest;
    } else {
      hide ParseChars, EscapeChar;
      var c, tail := s[0], s[1..];
      CharsParse(tail, rest);
      var next := Escape(tail) + "\"" + rest;
      assert Escape(s) + "\"" + rest == EscapeChar(c) + next;
      CharParses(c, next);
      assert s == [c] + tail;
    }
  }

  lemma QuoteParses(s: string, rest: string)
    ensures Starts(Quote(s) + rest, '\"')
    ensures ParseChars((Quote(s) + rest)[1..]) == Some((s, rest))
  {
    CharsParse(s, rest);
    hide ParseChars, Escape;
    var t := Quote(s) + rest;
    assert t == "\"" + (Escape(s) + "\"" + rest);
    assert t[1..] == Escape(s) + "\"" + rest;
  }

  /** A number must not be followed by what would continue it. */
  predicate Separate(v: Value, rest: string) {
    v.Num? && rest != "" ==> !IsDigit(rest[0]) && rest[0] != '.' && rest[0] != 'e' && rest[0] != 'E'
  }

  lemma {:induction false} RunOfDigits(digits: string, rest: string)
    requires forall i :: 0 <= i < |digits| ==> IsDigit(digits[i])
    requires rest == "" || !IsDigit(rest[0])
    ensures DigitRun(digits + rest) == |digits|
  {
    if digits == "" {
      assert digits + rest == rest;
    } else {
      assert (digits + rest)[1..] == digits[1..] + rest;
      RunOfDigits(digits[1..], rest);
    }
  }

  lemma {:induction false} NumeralDigits(n: nat)
    ensures var s := Decimal.Numeral(n);
      && (forall i :: 0 <= i < |s| ==> IsDigit(s[i]))
      && NumberOf(s) == n
      && (|s| > 1 ==> s[0] != '0')
      && (n > 0 ==> s[0] != '0')
  {
    if n >= 10 {
      NumeralDigits(n / 10);
      var s := Decimal.Numeral(n);
      assert s[..|s| - 1] == Decimal.Numeral(n / 10);
    } else {
      var s := Decimal.Numeral(n);
      assert s[..|s| - 1] == "";
    }
  }

  lemma NaturalParses(n: nat, rest: string)
    requires Separate(Num(n), rest)
    ensures ParseNatural(Decimal.Numeral(n) + rest) == Some((n, rest))
  {
    var s := Decimal.Numeral(n);
    NumeralDigits(n);
    RunOfDigits(s, rest);
    assert (s + rest)[..|s|] == s && (s + rest)[|s|..] == rest;
  }

  lemma NumberParses(n: int, rest: string)
    requires Separate(Num(n), rest)
    ensures ParseValue(Print(Num(n)) + rest) == Some((Num(n), rest))
  {
    hide ParseNatural, Decimal.Numeral;
    var m := if n < 0 then -n else n;
    NaturalParses(m, rest);
    NumeralDigits(m);
    assert IsDigit(Decimal.Numeral(m)[0]);
    if n < 0 {
      assert (NumberText(n) + rest)[1..] == Decimal.Numeral(m) + rest;
    }
  }

  lemma LiteralParses(v: Value, rest: string)
    requires v.Null? || v.Bool?
    ensures ParseValue(Print(v) + rest) == Some((v, rest))
  {
    var s := Print(v) + rest;
    assert Print(v) <= s;
    assert s[|Print(v)|..] == rest;
  }

  lemma StringParses(t: string, rest: string)
    ensures ParseValue(Print(Str(t)) + rest) == Some((Str(t), rest))
  {
    QuoteParses(t, rest);
  }

  lemma {:induction false} ArrayParses(items: seq<Value>, rest: string)
    ensures ParseValue(Print(Arr(items)) + rest) == Some((Arr(items), rest))
    decreases items, 2
  {
    hide ParseItems;
    var s := Print(Arr(items)) + rest;
    if items == [] {
      assert s == "[" + ("]" + rest);
      assert s[2..] == rest;
    } else {
      var next := PrintItems(items) + "]" + rest;
      ItemsParse(items, rest);
      assert s == "[" + next && s[1..] == next;
      PrintStart(items[0]);
      assert next[0] == Print(items[0])[0];
    }
  }

  lemma {:induction false} ObjectParses(fields: seq<Field>, rest: string)
    ensures ParseValue(Print(Obj(fields)) + rest) == Some((Obj(fields), rest))
    decreases fields, 3
  {
    hide ParseFields;
    var s := Print(Obj(fields)) + rest;
    if fields == [] {
      assert s == "{" + ("}" + rest);
      assert s[2..] == rest;
    } else {
      var next := PrintFields(fields) + "}" + rest;
      FieldsParse(fields, rest);
      assert s == "{" + next && s[1..] == next;
      assert next[0] == '\"';
    }
  }

  lemma {:induction false} ValueParses(v: Value, rest: string)
    requires Separate(v, rest)
    ensures ParseValue(Print(v) + rest) == Some((v, rest))
    decreases v, 0
  {
    hide ParseValue, Print;
    match v
    case Null => LiteralParses(v, rest);
    case Bool(_) => LiteralParses(v, rest);
    case Num(n) => NumberParses(n, rest);
    case Str(t) => StringParses(t, rest);
    case Arr(items) => ArrayParses(items, rest);
    case Obj(fields) => ObjectParses(fields, rest);
  }

  lemma NumberTextStart(n: int)
    ensures StartsNumber(NumberText(n))
    ensures forall i :: 0 <= i < |NumberText(n)| ==> IsDigit(NumberText(n)[i]) || NumberText(n)[i] == '-'
  {
    NumeralDigits(if n < 0 then -n else n);
  }

  lemma PrintStart(v: Value)
    ensures Print(v)[0] != ']' && Print(v)[0] != '}' && Print(v)[0] != ',' && Print(v)[0] != ':'
  {
    if v.Num? {
      NumberTextStart(v.number);
    }
  }

  lemma {:induction false} ItemsParse(items: seq<Value>, rest: string)
    requires items != []
    ensures ParseItems(PrintItems(items) + "]" + rest) == Some((items, rest))
    decreases items, 1
  {
    hide ParseValue, Print;
    var v, tail := items[0], items[1..];
    assert items == [v] + tail;
    if |items| == 1 {
      assert items == [v];
      ValueParses(v, "]" + rest);
      assert PrintItems(items) + "]" + rest == Print(v) + ("]" + rest);
      assert ("]" + rest)[1..] == rest;
    } else {
      var next := PrintItems(tail) + "]" + rest;
      ItemsParse(tail, rest);
      ValueParses(v, "," + next);
      assert PrintItems(items) + "]" + rest == Print(v) + ("," + next);
      assert ("," + next)[1..] == next;
    }
  }

  lemma {:induction false} FieldParses(f: Field, rest: string)
    requires Separate(f.value, rest)
    ensures ParseField(PrintField(f) + rest) == Some((f, rest))
    decreases f, 1
  {
    hide Quote, ParseChars, Print, ParseValue;
    var next := ":" + (Print(f.value) + rest);
    QuoteParses(f.key, next);
    assert PrintField(f) + rest == Quote(f.key) + next;
    assert next[1..] == Print(f.value) + rest;
    ValueParses(f.value, rest);
  }

  lemma {:induction false} FieldsParse(fields: seq<Field>, rest: string)
    requires fields != []
    ensures ParseFields(PrintFields(fields) + "}" + rest) == Some((fields, rest))
    decreases fields, 2
  {
    hide ParseField, PrintField;
    var f, tail := fields[0], fields[1..];
    assert fields == [f] + tail;
    if |fields| == 1 {
      assert fields == [f];
      FieldParses(f, "}" + rest);
      assert PrintFields(fields) + "}" + rest == PrintField(f) + ("}" + rest);
      assert ("}" + rest)[1..] == rest;
    } else {
      var next := PrintFields(tail) + "}" + rest;
      FieldsParse(tail, rest);
      FieldParses(f, "," + next);
      assert PrintFields(fields) + "}" + rest == PrintField(f) + ("," + next);
      assert ("," + next)[1..] == next;
    }
  }

  /** `from_str(to_string(v)) == v` for every value. */
  lemma TextRoundTrip(v: Value)
    ensures FromText(Print(v)) == Some(v)
  {
    ValueParses(v, "");
    assert Print(v) + "" == Print(v);
  }
}
