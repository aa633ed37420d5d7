/** Decimal numerals: what `{}` and `{:0w}` write for integers. */
module Decimal {
  import opened Text

  function DigitChar(d: int): char
    requires 0 <= d < 10
  {
    ('0' as int + d) as char
  }

  predicate IsDigit(b: Byte) {
    '0' as int <= b <= '9' as int
  }

  predicate AllDigits(b: seq<Byte>) {
    forall i :: 0 <= i < |b| ==> IsDigit(b[i])
  }

  /** The value of a run of digits. */
  function Number(b: seq<Byte>): int {
    if b == [] then 0 else 10 * Number(b[..|b| - 1]) + (b[|b| - 1] - '0' as int)
  }

  /** The numeral without leading zeros. */
  function Numeral(n: nat): (s: string)
    ensures |s| > 0
  {
    if n < 10 then [DigitChar(n)] else Numeral(n / 10) + [DigitChar(n % 10)]
  }

  function ZeroFill(s: string, width: nat): string
    decreases width - |s|
  {
    if |s| >= width then s else ZeroFill("0" + s, width)
  }

  /** `{:0width}`: the sign counts towards the width. */
  function Padded(n: int, width: nat): string {
    if n < 0 then "-" + ZeroFill(Numeral(-n), if width == 0 then 0 else width - 1)
    else ZeroFill(Numeral(n), width)
  }

  function Power10(w: nat): (p: nat)
    ensures p >= 1
  {
    if w == 0 then 1 else 10 * Power10(w - 1)
  }

  /** Exactly `w` digits, the lowest `w` of `n`. */
  function Fixed(n: nat, w: nat): (s: string)
    ensures |s| == w
  {
    if w == 0 then "" else Fixed(n / 10, w - 1) + [DigitChar(n % 10)]
  }

  lemma {:induction false} FixedIsAscii(n: nat, w: nat)
    ensures Ascii(Fixed(n, w)) && AllDigits(Codes(Fixed(n, w)))
  {
    if w > 0 {
      FixedIsAscii(n / 10, w - 1);
      assert Codes(Fixed(n, w)) == Codes(Fixed(n / 10, w - 1)) + [DigitChar(n % 10) as int];
    }
  }

  lemma {:induction false} NumberOfFixed(n: nat, w: nat)
    requires n < Power10(w)
    ensures Ascii(Fixed(n, w)) && Number(Codes(Fixed(n, w))) == n
  {
    FixedIsAscii(n, w);
    if w > 0 {
      NumberOfFixed(n / 10, w - 1);
      var b := Codes(Fixed(n, w));
      assert b[..w - 1] == Codes(Fixed(n / 10, w - 1));
    }
  }

  lemma {:induction false} FixedOfNumber(b: seq<Byte>)
    requires AllDigits(b)
    ensures 0 <= Number(b) < Power10(|b|)
    ensures Ascii(Fixed(Number(b), |b|)) && Codes(Fixed(Number(b), |b|)) == b
  {
    FixedIsAscii(if Number(b) < 0 then 0 else Number(b), |b|);
    if b != [] {
      var init, last := b[..|b| - 1], b[|b| - 1] - '0' as int;
      FixedOfNumber(init);
      assert Number(b) / 10 == Number(init) && Number(b) % 10 == last;
      assert Codes(Fixed(Number(b), |b|)) == Codes(Fixed(Number(init), |init|)) + [b[|b| - 1]];
    }
  }

  /** Equal-width numerals compare as text the way their values compare. */
  lemma {:induction false} FixedOrder(a: nat, b: nat, w: nat)
    requires a < Power10(w) && b < Power10(w)
    ensures Less(Fixed(a, w), Fixed(b, w)) <==> a < b
    ensures Fixed(a, w) == Fixed(b, w) <==> a == b
  {
    NumberOfFixed(a, w);
    NumberOfFixed(b, w);
    if w > 0 {
      FixedOrder(a / 10, b / 10, w - 1);
      LessConcat(Fixed(a / 10, w - 1), [DigitChar(a % 10)], Fixed(b / 10, w - 1), [DigitChar(b % 10)]);
    }
  }

  lemma {:induction false} NumeralLength(n: nat, w: nat)
    ensures n < Power10(w) && w > 0 ==> |Numeral(n)| <= w
    ensures n >= Power10(w) ==> |Numeral(n)| > w
  {
    if n >= 10 && w > 0 {
      NumeralLength(n / 10, w - 1);
    }
  }

  lemma {:induction false} FixedSplit(n: nat, w: nat)
    ensures |Numeral(n)| <= w ==> ZeroFill(Numeral(n), w) == Fixed(n, w)
    decreases n
  {
    if |Numeral(n)| <= w {
      if n < 10 {
        FixedZero(w - 1);
        FillSingle(DigitChar(n), w);
      } else {
        FixedSplit(n / 10, w - 1);
        FillSnoc(Numeral(n / 10), DigitChar(n % 10), w);
      }
    }
  }

  lemma {:induction false} FixedZero(w: nat)
    ensures Fixed(0, w) == seq(w, i => '0')
  {
    if w > 0 {
      FixedZero(w - 1);
    }
  }

  lemma {:induction false} FillIs(s: string, w: nat)
    requires |s| <= w
    ensures ZeroFill(s, w) == seq(w - |s|, i => '0') + s
    decreases w - |s|
  {
    if |s| < w {
      FillIs("0" + s, w);
      assert seq(w - |s|, i => '0') == seq(w - |s| - 1, i => '0') + "0";
    }
  }

  lemma FillSingle(c: char, w: nat)
    requires w >= 1
    ensures ZeroFill([c], w) == seq(w - 1, i => '0') + [c]
  {
    FillIs([c], w);
  }

  lemma FillSnoc(s: string, c: char, w: nat)
    requires |s| + 1 <= w
    ensures ZeroFill(s + [c], w) == ZeroFill(s, w - 1) + [c]
  {
    FillIs(s + [c], w);
    FillIs(s, w - 1);
    assert seq(w - 1 - |s|, i => '0') + (s + [c]) == (seq(w - 1 - |s|, i => '0') + s) + [c];
  }

  /** A number that fits is written with exactly `w` digits. */
  lemma PaddedFits(n: nat, w: nat)
    requires w > 0 && n < Power10(w)
    ensures Padded(n, w) == Fixed(n, w)
  {
    NumeralLength(n, w);
    FixedSplit(n, w);
  }

  lemma {:induction false} NumeralIsDigits(n: nat)
    ensures Ascii(Numeral(n)) && AllDigits(Codes(Numeral(n)))
    ensures Number(Codes(Numeral(n))) == n
  {
    if n >= 10 {
      NumeralIsDigits(n / 10);
      var b := Codes(Numeral(n));
      assert b[..|b| - 1] == Codes(Numeral(n / 10));
    } else {
      var b := Codes(Numeral(n));
      assert b[..|b| - 1] == [];
    }
  }
}
