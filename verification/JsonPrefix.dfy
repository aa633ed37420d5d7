/** How the JSON parser behaves on a text that was cut short, or that was cut
    short and then written on: what the journal's crash tolerance rests on. */
module JsonPrefix {
  import opened Text
  import opened Json

  // ---------------------------------------------------------------------
  // Printed text holds no control character
  // ---------------------------------------------------------------------

  predicate NoControl(s: string) {
    forall i :: 0 <= i < |s| ==> s[i] as int >= 0x20
  }

  lemma {:induction false} EscapeNoControl(s: string)
    ensures NoControl(Escape(s))
  {
    if s != "" {
      EscapeNoControl(s[1..]);
      assert NoControl(EscapeChar(s[0]));
    }
  }

  lemma {:induction false} PrintNoControl(v: Value)
    ensures NoControl(Print(v))
    decreases v, 0
  {
    match v
    case Null =>
    case Bool(_) =>
    case Num(n) => NumberTextStart(n);
    case Str(s) => EscapeNoControl(s);
    case Arr(items) => ItemsNoControl(items);
    case Obj(fields) => FieldsNoControl(fields);
  }

  lemma {:induction false} ItemsNoControl(items: seq<Value>)
    ensures NoControl(PrintItems(items))
    decreases items, 0
  {
    if items != [] {
      PrintNoControl(items[0]);
      ItemsNoControl(items[1..]);
    }
  }

  lemma {:induction false} FieldsNoControl(fields: seq<Field>)
    ensures NoControl(PrintFields(fields))
    decreases fields, 0
  {
    if fields != [] {
      EscapeNoControl(fields[0].key);
      PrintNoControl(fields[0].value);
      FieldsNoControl(fields[1..]);
    }
  }

  // ---------------------------------------------------------------------
  // More text does not change what was read
  // ---------------------------------------------------------------------

  lemma {:induction false} CharsExtend(s: string, q: string)
    requires ParseChars(s).Some?
    ensures ParseChars(s + q) == Some((ParseChars(s).value.0, ParseChars(s).value.1 + q))
    decreases |s|
  {
    var t := s + q;
    if s[0] == '\"' {
      assert t[1..] == s[1..] + q;
    } else if s[0] == '\\' {
      var u := Unescape(s[1..]).value;
      assert t[1..] == s[1..] + q;
      UnescapeExtend(s[1..], q);
      assert t[1 + u.1..] == s[1 + u.1..] + q;
      CharsExtend(s[1 + u.1..], q);
    } else {
      assert t[1..] == s[1..] + q;
      CharsExtend(s[1..], q);
    }
  }

  lemma UnescapeExtend(s: string, q: string)
    requires Unescape(s).Some?
    ensures Unescape(s + q) == Unescape(s)
  {
    var t := s + q;
    assert t[0] == s[0];
    if s[0] == 'u' {
      assert t[1] == s[1] && t[2] == s[2] && t[3] == s[3] && t[4] == s[4];
    }
  }

  lemma {:induction false} RunExtend(s: string, q: string)
    ensures DigitRun(s + q) == if DigitRun(s) < |s| then DigitRun(s) else |s| + DigitRun(q)
  {
    if s == "" {
      assert s + q == q;
    } else if IsDigit(s[0]) {
      assert (s + q)[1..] == s[1..] + q;
      RunExtend(s[1..], q);
    }
  }

  /** What would make a number go on. */
  predicate GoesOn(q: string) {
    q != "" && (IsDigit(q[0]) || q[0] in {'.', 'e', 'E'})
  }

  lemma NaturalExtends(s: string, q: string)
    requires ParseNatural(s).Some?
    ensures ParseNatural(s + q) == Some((ParseNatural(s).value.0, ParseNatural(s).value.1 + q))
       <==> !(ParseNatural(s).value.1 == "" && GoesOn(q))
  {
    var n := DigitRun(s);
    RunExtend(s, q);
    if n < |s| {
      assert (s + q)[..n] == s[..n] && (s + q)[n..] == s[n..] + q;
    } else {
      NaturalAtEnd(s, q);
    }
  }

  lemma NaturalAtEnd(s: string, q: string)
    requires ParseNatural(s).Some? && DigitRun(s) == |s| && DigitRun(s + q) == |s| + DigitRun(q)
    ensures ParseNatural(s).value.1 == ""
    ensures ParseNatural(s + q) == Some((ParseNatural(s).value.0, q)) <==> !GoesOn(q)
    ensures "" + q == q
  {
    hide NumberOf;
    var m := DigitRun(q);
    assert s[|s|..] == "" && s[..|s|] == s;
    assert (s + q)[|s| + m..] == q[m..];
    if m == 0 {
      assert (s + q)[..|s|] == s && q[0..] == q;
    }
  }

  lemma NumberExtends(s: string, q: string)
    requires StartsNumber(s) && ParseNumber(s).Some?
    ensures ParseNumber(s + q) == Some((ParseNumber(s).value.0, ParseNumber(s).value.1 + q))
       <==> !(ParseNumber(s).value.1 == "" && GoesOn(q))
  {
    hide ParseNatural;
    NaturalExtends(if s[0] == '-' then s[1..] else s, q);
    assert (s + q)[1..] == s[1..] + q;
  }

  lemma LiteralExtends(s: string, q: string, word: string)
    requires word <= s
    ensures word <= s + q && (s + q)[|word|..] == s[|word|..] + q
  {
    assert (s + q)[..|word|] == s[..|word|];
  }

  /** A value that the parser has read is read the same when more text follows,
      except exactly a number at the end of the text that goes on. */
  lemma {:induction false} ValueExtends(s: string, q: string)
    requires ParseValue(s).Some?
    ensures var r := ParseValue(s).value;
      ParseValue(s + q) == Some((r.0, r.1 + q)) <==> !(r.0.Num? && r.1 == "" && GoesOn(q))
    decreases |s|, 1
  {
    hide ParseNumber, ParseChars, ParseItems, ParseFields;
    var t := s + q;
    assert t[0] == s[0] && t[1..] == s[1..] + q;
    if s[0] == '\"' {
      CharsExtend(s[1..], q);
    } else if s[0] == '[' {
      if Starts(s[1..], ']') {
        assert t[2..] == s[2..] + q;
      } else {
        ItemsExtend(s[1..], q);
      }
    } else if s[0] == '{' {
      if Starts(s[1..], '}') {
        assert t[2..] == s[2..] + q;
      } else {
        FieldsExtend(s[1..], q);
      }
    } else if StartsNumber(s) {
      NumberExtends(s, q);
    } else {
      LiteralExtends(s, q, if "null" <= s then "null" else if "true" <= s then "true" else "false");
    }
  }

  lemma {:induction false} ItemsExtend(s: string, q: string)
    requires ParseItems(s).Some?
    ensures s != "" && ParseItems(s + q) == Some((ParseItems(s).value.0, ParseItems(s).value.1 + q))
    decreases |s|, 2
  {
    hide ParseValue;
    var v := ParseValue(s).value;
    ValueExtends(s, q);
    assert (v.1 + q)[1..] == v.1[1..] + q;
    if Starts(v.1, ',') {
      ItemsExtend(v.1[1..], q);
    }
  }

  lemma {:induction false} FieldExtends(s: string, q: string)
    requires var r := ParseField(s); r.Some? && r.value.1 != ""
    ensures ParseField(s + q) == Some((ParseField(s).value.0, ParseField(s).value.1 + q))
    decreases |s|, 2
  {
    hide ParseValue, ParseChars;
    assert (s + q)[1..] == s[1..] + q;
    CharsExtend(s[1..], q);
    var k := ParseChars(s[1..]).value;
    assert (k.1 + q)[1..] == k.1[1..] + q;
    ValueExtends(k.1[1..], q);
  }

  lemma {:induction false} FieldsExtend(s: string, q: string)
    requires ParseFields(s).Some?
    ensures s != "" && ParseFields(s + q) == Some((ParseFields(s).value.0, ParseFields(s).value.1 + q))
    decreases |s|, 3
  {
    hide ParseField;
    var f := ParseField(s).value;
    FieldExtends(s, q);
    assert (f.1 + q)[1..] == f.1[1..] + q;
    if Starts(f.1, ',') {
      FieldsExtend(f.1[1..], q);
    }
  }

  /** From a proper prefix of an object's text no value can be read at all. */
  lemma PrefixUnread(v: Value, k: nat)
    requires v.Obj? && k < |Print(v)|
    ensures ParseValue(Print(v)[..k]).None?
  {
    var s := Print(v);
    var p, q := s[..k], s[k..];
    assert s == p + q && s + "" == s;
    ValueParses(v, "");
    var r := ParseValue(p);
    if r.Some? {
      assert p[0] == '{';
      assert !r.value.0.Num?;
      ValueExtends(p, q);
    }
  }

  /** So no proper prefix of an object's text is a JSON text. */
  lemma PrefixRefused(v: Value, k: nat)
    requires v.Obj? && k < |Print(v)|
    ensures FromText(Print(v)[..k]) == None
  {
    PrefixUnread(v, k);
  }

  // ---------------------------------------------------------------------
  // A text cut short and then written on
  // ---------------------------------------------------------------------

  /** A rest from which no array, object or member can go on. */
  predicate Stuck(rest: string) {
    rest == "" || rest[0] !in {',', ']', '}', ':'}
  }

  /** What may follow a cut without ever mending it: whether it is read as a
      value or as the rest of a string, the parser refuses or gets stuck. */
  predicate Continuation(r: string) {
    && r != "" && r[0] == '{'
    && (var v := ParseValue(r); v.None? || Stuck(v.value.1))
    && (var c := ParseChars(r); c.None? || Stuck(c.value.1))
  }

  lemma {:induction false} TornChars(s: string, k: nat, r: string)
    requires k <= |Escape(s)| && Continuation(r)
    ensures var c := ParseChars(Escape(s)[..k] + r);
      c.None? || Stuck(c.value.1)
  {
    if k == 0 {
      assert Escape(s)[..k] + r == r;
    } else {
      hide EscapeChar, ParseChars, Escape;
      NothingToEscape();
      EscapeHead(s);
      var e, more := EscapeChar(s[0]), Escape(s[1..]);
      if k >= |e| {
        CutAfter(e, more, k, r);
        TornChars(s[1..], k - |e|, r);
        CharParses(s[0], more[..k - |e|] + r);
      } else {
        assert (e + more)[..k] == e[..k];
        TornEscape(s[0], k, r);
      }
    }
  }

  lemma EscapeHead(s: string)
    requires s != ""
    ensures Escape(s) == EscapeChar(s[0]) + Escape(s[1..])
  {
  }

  lemma NothingToEscape()
    ensures Escape("") == ""
  {
  }

  lemma TornEscape(c: char, k: nat, r: string)
    requires 0 < k < |EscapeChar(c)| && Continuation(r)
    ensures ParseChars(EscapeChar(c)[..k] + r).None?
  {
    var e := EscapeChar(c);
    var t := e[..k] + r;
    assert t[0] == '\\';
    var u := t[1..];
    assert u[k - 1] == '{';
    if k >= 2 {
      assert u[0] == 'u';
    }
    assert Unescape(u).None?;
  }

  lemma TornQuote(s: string, k: nat, r: string)
    requires 0 < k < |Quote(s)| && Continuation(r)
    ensures var t := Quote(s)[..k] + r;
      t[0] == '\"' && (ParseChars(t[1..]).None? || Stuck(ParseChars(t[1..]).value.1))
  {
    TornChars(s, k - 1, r);
    hide ParseChars, Escape, Continuation;
    var rest := Escape(s) + "\"";
    var next := rest[..k - 1] + r;
    assert Quote(s) == "\"" + rest && rest[..k - 1] == Escape(s)[..k - 1];
    CutAfter("\"", rest, k, r);
    assert ("\"" + next)[0] == '\"' && ("\"" + next)[1..] == next;
  }

  lemma TornNatural(p: string, r: string)
    requires Continuation(r) && forall i :: 0 <= i < |p| ==> IsDigit(p[i])
    ensures var v := ParseNatural(p + r);
      v.None? || v.value.1 == r
  {
    RunOfDigits(p, r);
    assert (p + r)[|p|..] == r;
  }

  predicate DigitsOnly(p: string) {
    forall i :: 0 <= i < |p| ==> IsDigit(p[i])
  }

  lemma TornSigned(p: string, r: string)
    requires Continuation(r) && p != "" && (DigitsOnly(p) || (p[0] == '-' && DigitsOnly(p[1..])))
    ensures StartsNumber(p + r)
    ensures var v := ParseNumber(p + r); v.None? || v.value.1 == r
  {
    hide ParseNatural;
    TornNatural(if p[0] == '-' then p[1..] else p, r);
    assert (p + r)[1..] == p[1..] + r;
  }

  lemma NumbersAreNumbers(s: string)
    requires StartsNumber(s)
    ensures ParseValue(s) == ParseNumber(s)
  {
  }

  lemma NumberPrefix(n: int, k: nat)
    requires 0 < k <= |NumberText(n)|
    ensures var p := NumberText(n)[..k]; DigitsOnly(p) || (p[0] == '-' && DigitsOnly(p[1..]))
  {
    NumeralDigits(if n < 0 then -n else n);
  }

  lemma TornNumber(n: int, k: nat, r: string)
    requires 0 < k < |NumberText(n)| && Continuation(r)
    ensures var v := ParseValue(NumberText(n)[..k] + r);
      v.None? || v.value.1 == r
  {
    hide ParseValue, ParseNumber, NumberText, DigitsOnly;
    NumberPrefix(n, k);
    TornSigned(NumberText(n)[..k], r);
    NumbersAreNumbers(NumberText(n)[..k] + r);
  }

  lemma TornLiteral(v: Value, k: nat, r: string)
    requires (v.Null? || v.Bool?) && 0 < k < |Print(v)| && Continuation(r)
    ensures ParseValue(Print(v)[..k] + r).None?
  {
    var t := Print(v)[..k] + r;
    assert t[k] == '{';
    assert t[0] == Print(v)[0];
    assert Print(v)[k] != '{';
  }

  /** Cut anywhere inside a value and written on with a record, the parser
      refuses, or stops where nothing enclosing the value can go on. */
  lemma {:induction false} TornValue(v: Value, k: nat, r: string)
    requires k < |Print(v)| && Continuation(r)
    ensures var p := ParseValue(Print(v)[..k] + r); p.None? || Stuck(p.value.1)
    ensures k > 0 && v.Obj? ==> ParseValue(Print(v)[..k] + r).None?
    decreases v, 0
  {
    if k == 0 {
      assert Print(v)[..k] + r == r;
    } else {
      match v
      case Null => TornLiteral(v, k, r);
      case Bool(_) => TornLiteral(v, k, r);
      case Num(n) => TornNumber(n, k, r);
      case Str(s) => TornQuote(s, k, r);
      case Arr(items) => TornArray(items, k, r);
      case Obj(fields) => TornObject(fields, k, r);
    }
  }

  lemma {:induction false} TornArray(items: seq<Value>, k: nat, r: string)
    requires 0 < k < |Print(Arr(items))| && Continuation(r)
    ensures ParseValue(Print(Arr(items))[..k] + r).None?
    decreases items, 2
  {
    hide ParseItems;
    var body := PrintItems(items) + "]";
    var t := Print(Arr(items))[..k] + r;
    var next := body[..k - 1] + r;
    assert t == "[" + next && t[1..] == next;
    if items == [] {
      assert body == "]" && next == r;
      NotItems(r);
    } else {
      TornItems(items, k - 1, r);
      if k > 1 {
        PrintStart(items[0]);
        assert next[0] == Print(items[0])[0];
      }
    }
  }

  lemma NotItems(r: string)
    requires Continuation(r)
    ensures ParseItems(r).None?
  {
  }

  lemma CutAfter(a: string, b: string, k: nat, r: string)
    requires |a| <= k <= |a| + |b|
    ensures (a + b)[..k] + r == a + (b[..k - |a|] + r)
  {
  }

  lemma ItemsStop(t: string)
    requires var p := ParseValue(t);
      || p.None? || Stuck(p.value.1)
      || (Starts(p.value.1, ',') && ParseItems(p.value.1[1..]).None?)
    ensures ParseItems(t).None?
  {
  }

  lemma FieldsStop(t: string)
    requires var p := ParseField(t);
      || p.None? || Stuck(p.value.1)
      || (Starts(p.value.1, ',') && ParseFields(p.value.1[1..]).None?)
    ensures ParseFields(t).None?
  {
  }

  lemma {:induction false} TornItems(items: seq<Value>, k: nat, r: string)
    requires items != [] && k <= |PrintItems(items)| && Continuation(r)
    ensures ParseItems((PrintItems(items) + "]")[..k] + r).None?
    decreases items, 1
  {
    hide ParseValue, ParseItems, Print;
    var v, tail := items[0], items[1..];
    var s := PrintItems(items) + "]";
    var n := |Print(v)|;
    if k < n {
      assert s[..k] == Print(v)[..k];
      TornValue(v, k, r);
      ItemsStop(s[..k] + r);
    } else {
      var more := if tail == [] then "]" else "," + (PrintItems(tail) + "]");
      var rest := more[..k - n] + r;
      assert s == Print(v) + more;
      CutAfter(Print(v), more, k, r);
      ValueParses(v, rest);
      if k == n {
        assert rest == r;
      } else {
        CutAfter(",", PrintItems(tail) + "]", k - n, r);
        assert rest[1..] == (PrintItems(tail) + "]")[..k - n - 1] + r;
        TornItems(tail, k - n - 1, r);
      }
      ItemsStop(s[..k] + r);
    }
  }

  lemma {:induction false} TornObject(fields: seq<Field>, k: nat, r: string)
    requires 0 < k < |Print(Obj(fields))| && Continuation(r)
    ensures ParseValue(Print(Obj(fields))[..k] + r).None?
    decreases fields, 4
  {
    hide ParseFields;
    var body := PrintFields(fields) + "}";
    var t := Print(Obj(fields))[..k] + r;
    var next := body[..k - 1] + r;
    assert t == "{" + next && t[1..] == next;
    if fields == [] {
      assert body == "}" && next == r;
      NotFields(r);
    } else {
      TornFields(fields, k - 1, r);
      if k > 1 {
        assert next[0] == '\"';
      }
    }
  }

  lemma NotFields(r: string)
    requires Continuation(r)
    ensures ParseFields(r).None?
  {
  }

  lemma {:induction false} TornField(f: Field, k: nat, r: string)
    requires k < |PrintField(f)| && Continuation(r)
    ensures var p := ParseField(PrintField(f)[..k] + r); p.None? || Stuck(p.value.1)
    decreases f, 1
  {
    hide ParseValue, Print, ParseChars, Quote;
    var q := Quote(f.key);
    var s := PrintField(f);
    if k == 0 {
      assert s[..k] + r == r;
    } else if k < |q| {
      assert s[..k] == q[..k];
      TornQuote(f.key, k, r);
    } else {
      var more := ":" + Print(f.value);
      var rest := more[..k - |q|] + r;
      assert s == q + more;
      CutAfter(q, more, k, r);
      QuoteParses(f.key, rest);
      if k == |q| {
        assert rest == r;
      } else {
        var m := k - |q| - 1;
        CutAfter(":", Print(f.value), k - |q|, r);
        assert rest[1..] == Print(f.value)[..m] + r;
        TornValue(f.value, m, r);
      }
    }
  }

  lemma {:induction false} TornFields(fields: seq<Field>, k: nat, r: string)
    requires fields != [] && k <= |PrintFields(fields)| && Continuation(r)
    ensures ParseFields((PrintFields(fields) + "}")[..k] + r).None?
    decreases fields, 3
  {
    hide ParseField, ParseFields, PrintField;
    var f, tail := fields[0], fields[1..];
    var s := PrintFields(fields) + "}";
    var n := |PrintField(f)|;
    if k < n {
      assert s[..k] == PrintField(f)[..k];
      TornField(f, k, r);
      FieldsStop(s[..k] + r);
    } else {
      var more := if tail == [] then "}" else "," + (PrintFields(tail) + "}");
      var rest := more[..k - n] + r;
      assert s == PrintField(f) + more;
      CutAfter(PrintField(f), more, k, r);
      FieldParses(f, rest);
      if k == n {
        assert rest == r;
      } else {
        CutAfter(",", PrintFields(tail) + "}", k - n, r);
        assert rest[1..] == (PrintFields(tail) + "}")[..k - n - 1] + r;
        TornFields(tail, k - n - 1, r);
      }
      FieldsStop(s[..k] + r);
    }
  }

  /** An object's text cut anywhere after its first character, the end
      included, and written on is not a JSON text. */
  lemma JoinedRefused(v: Value, k: nat, r: string)
    requires v.Obj? && 0 < k <= |Print(v)| && Continuation(r)
    ensures FromText(Print(v)[..k] + r) == None
  {
    if k < |Print(v)| {
      TornValue(v, k, r);
    } else {
      assert Print(v)[..k] == Print(v);
      ValueParses(v, r);
    }
  }

  // ---------------------------------------------------------------------
  // What records leave behind when they are cut
  // ---------------------------------------------------------------------

  /** The text of an object whose first key begins with a letter. */
  predicate LetterHead(t: string) {
    && |t| >= 3 && t[0] == '{' && t[1] == '\"'
    && t[2] as int >= 0x20 && t[2] !in {',', ']', '}', ':', '\"', '\\'}
  }

  lemma CharsOfHead(t: string)
    requires t != "" && t[0] == '{'
    ensures ParseChars(t).Some? <==> ParseChars(t[1..]).Some?
    ensures ParseChars(t).Some? ==> ParseChars(t).value.1 == ParseChars(t[1..]).value.1
    ensures |t| >= 2 && t[1] == '\"' ==> ParseChars(t).Some? && ParseChars(t).value.1 == t[2..]
  {
    if |t| >= 2 && t[1] == '\"' {
      assert t[1..][1..] == t[2..];
    }
  }

  /** Read as the rest of a string, a cut object's text is stuck after its
      first quote. */
  lemma CutHeadStuck(t: string, k: nat, r: string)
    requires LetterHead(t) && 0 < k <= |t| && (r == "" || Continuation(r))
    ensures var c := ParseChars(t[..k] + r); c.None? || Stuck(c.value.1)
  {
    hide ParseValue, ParseChars;
    var u := t[..k] + r;
    CharsOfHead(u);
    if k == 1 {
      assert u[1..] == r;
      NoChars();
    } else {
      assert u[2..] == t[2..k] + r;
    }
  }

  lemma NoChars()
    ensures ParseChars("").None?
  {
  }

  /** A cut object's text is a continuation, alone or with another after it. */
  lemma CutContinues(v: Value, k: nat, r: string)
    requires v.Obj? && LetterHead(Print(v)) && 0 < k <= |Print(v)|
    requires r == "" || Continuation(r)
    ensures Continuation(Print(v)[..k] + r)
  {
    var t := Print(v);
    hide Print, ParseValue, ParseChars;
    CutHeadStuck(t, k, r);
    if k == |t| {
      assert t[..k] == t;
      ValueParses(v, r);
    } else if r != "" {
      TornValue(v, k, r);
    } else {
      assert t[..k] + r == t[..k];
      PrefixUnread(v, k);
    }
  }
}
