/** Text primitives shared by the statement serialisers: decimal rendering of
    integers, the stream's default rendering of an integral `double`, the
    UTF-8 byte length of a string, the comma-flag loop every serialiser uses
    to join a list, and counting of the `?` placeholder marks SQLite binds by
    position. */
module Render {
  import opened SeqLemmas

  /** The character SQLite reads as a positional parameter. */
  const MARK: char := '?'

  function DigitChar(d: nat): (c: char)
    requires d < 10
    ensures '0' <= c <= '9'
    ensures d != 0 ==> c != '0'
  {
    ('0' as int + d) as char
  }

  function DigitValue(c: char): (d: nat)
    requires '0' <= c <= '9'
    ensures d < 10
  {
    c as int - '0' as int
  }

  predicate IsDigits(s: string) {
    forall i :: 0 <= i < |s| ==> '0' <= s[i] <= '9'
  }

  /** Decimal digits of `n`, most significant first, without leading zeros. */
  function NatText(n: nat): (r: string)
    ensures |r| > 0 && IsDigits(r)
    ensures n > 0 ==> r[0] != '0'
    decreases n
  {
    if n < 10 then [DigitChar(n)] else NatText(n / 10) + [DigitChar(n % 10)]
  }

  /** How an integer is written into statement text: an optional minus sign
      followed by its decimal digits. */
  function IntText(n: int): (r: string)
    ensures |r| > 0
    ensures MARK !in r
    ensures n >= 0 <==> r[0] != '-'
  {
    if n < 0 then "-" + NatText(-n) else NatText(n)
  }

  /** The value a string of digits denotes, read left to right. */
  function ParseNat(s: string): nat
    requires IsDigits(s)
    decreases |s|
  {
    if s == [] then 0 else 10 * ParseNat(s[..|s| - 1]) + DigitValue(s[|s| - 1])
  }

  predicate IsIntText(s: string) {
    if |s| > 0 && s[0] == '-' then IsDigits(s[1..]) else IsDigits(s)
  }

  function ParseInt(s: string): int
    requires IsIntText(s)
  {
    if |s| > 0 && s[0] == '-' then -(ParseNat(s[1..]) as int) else ParseNat(s)
  }

  lemma {:induction false} ParseNatText(n: nat)
    ensures ParseNat(NatText(n)) == n
    decreases n
  {
    if n >= 10 {
      var s := NatText(n / 10);
      ParseNatText(n / 10);
      var t := s + [DigitChar(n % 10)];
      assert NatText(n) == t;
      assert t[..|t| - 1] == s;
    }
  }

  /** Reading the rendered text back gives the number: the rendering loses nothing. */
  lemma IntTextRoundTrip(n: int)
    ensures IsIntText(IntText(n))
    ensures ParseInt(IntText(n)) == n
  {
    if n < 0 {
      var s := NatText(-n);
      assert ("-" + s)[1..] == s;
      ParseNatText(-n);
    } else {
      ParseNatText(n);
    }
  }

  /** Number of `?` characters in `s`. */
  function Marks(s: string): nat
    decreases |s|
  {
    if s == [] then 0 else (if s[0] == MARK then 1 else 0) + Marks(s[1..])
  }

  lemma {:induction false} MarksAppend(a: string, b: string)
    ensures Marks(a + b) == Marks(a) + Marks(b)
    decreases |a|
  {
    if a == [] {
      assert a + b == b;
    } else {
      assert (a + b)[1..] == a[1..] + b;
      MarksAppend(a[1..], b);
    }
  }

  lemma Marks3(a: string, b: string, c: string)
    ensures Marks(a + b + c) == Marks(a) + Marks(b) + Marks(c)
  {
    MarksAppend(a, b);
    MarksAppend(a + b, c);
  }

  lemma Marks5(a: string, b: string, c: string, d: string, e: string)
    ensures Marks(a + b + c + d + e) == Marks(a) + Marks(b) + Marks(c) + Marks(d) + Marks(e)
  {
    Marks3(a, b, c);
    MarksAppend(a + b + c, d);
    MarksAppend(a + b + c + d, e);
  }

  lemma Marks7(a: string, b: string, c: string, d: string, e: string, f: string, g: string)
    ensures Marks(a + b + c + d + e + f + g)
            == Marks(a) + Marks(b) + Marks(c) + Marks(d) + Marks(e) + Marks(f) + Marks(g)
  {
    Marks5(a, b, c, d, e);
    MarksAppend(a + b + c + d + e, f);
    MarksAppend(a + b + c + d + e + f, g);
  }

  lemma {:induction false} MarksNone(s: string)
    requires MARK !in s
    ensures Marks(s) == 0
    decreases |s|
  {
    if s != [] {
      assert s[0] in s;
      assert forall c :: c in s[1..] ==> c in s;
      MarksNone(s[1..]);
    }
  }

  /** The list separator adds no placeholder. */
  lemma SeparatorMarks(comma: bool)
    ensures Marks(if comma then ", " else "") == 0
  {
    MarksNone(if comma then ", " else "");
  }

  /** A lone placeholder counts once. */
  lemma MarkMarks()
    ensures Marks("?") == 1
  {
    assert "?"[1..] == "";
  }

  /** The serialisers' list loop: a `comma` flag, cleared before the loop, says
      whether `", "` goes before the next item; every item sets it. */
  function CommaList(items: seq<string>, comma: bool): string
    decreases |items|
  {
    if items == [] then ""
    else (if comma then ", " else "") + items[0] + CommaList(items[1..], true)
  }

  lemma CommaListSingle(x: string)
    ensures CommaList([x], false) == x
  {
    assert [x][1..] == [];
  }

  /** The loop joins two non-empty lists with exactly one `", "` between
      them: together with `CommaListSingle`, `", "` sits between adjacent items
      and nowhere else. */
  lemma {:induction false} CommaListJoin(a: seq<string>, b: seq<string>, comma: bool)
    requires a != [] && b != []
    ensures CommaList(a + b, comma) == CommaList(a, comma) + ", " + CommaList(b, false)
    decreases |a|
  {
    if |a| == 1 {
      CommaListJoinOne(a, b, comma);
    } else {
      CommaListJoin(a[1..], b, true);
      CommaListJoinStep(a, b, comma);
    }
  }

  lemma CommaListJoinOne(a: seq<string>, b: seq<string>, comma: bool)
    requires |a| == 1 && b != []
    ensures CommaList(a + b, comma) == CommaList(a, comma) + ", " + CommaList(b, false)
  {
    var sep := if comma then ", " else "";
    var ab := a + b;
    DropFirstAppend(a, b);
    assert a[1..] + b == b;
    CommaListFlag(b);
    assert CommaList(a, comma) == sep + a[0] + CommaList([], true);
  }

  lemma CommaListJoinStep(a: seq<string>, b: seq<string>, comma: bool)
    requires |a| > 1 && b != []
    requires CommaList(a[1..] + b, true) == CommaList(a[1..], true) + ", " + CommaList(b, false)
    ensures CommaList(a + b, comma) == CommaList(a, comma) + ", " + CommaList(b, false)
  {
    var sep := if comma then ", " else "";
    var x, t := a[0], a[1..];
    HeadTail(a);
    AppendAssoc([x], t, b);
    CommaListCons(x, t + b, comma);
    CommaListCons(x, t, comma);
    var rest := CommaList(t, true);
    var tailB := ", " + CommaList(b, false);
    AppendAssoc(rest, ", ", CommaList(b, false));
    AppendAssoc(sep + x, rest, tailB);
  }

  lemma CommaListCons(x: string, t: seq<string>, comma: bool)
    ensures CommaList([x] + t, comma) == (if comma then ", " else "") + x + CommaList(t, true)
  {
    DropFirstAppend([x], t);
    assert [x][1..] + t == t;
  }

  /** With the flag set, the loop writes `", "` before the list's own text. */
  lemma CommaListFlag(b: seq<string>)
    requires b != []
    ensures CommaList(b, true) == ", " + CommaList(b, false)
  {
  }

  /** Total number of `?` characters over a list of strings. */
  function MarksSum(items: seq<string>): nat
    decreases |items|
  {
    if items == [] then 0 else Marks(items[0]) + MarksSum(items[1..])
  }

  /** The separators add no placeholders: the joined text has exactly the
      items' marks. */
  lemma {:induction false} MarksCommaList(items: seq<string>, comma: bool)
    ensures Marks(CommaList(items, comma)) == MarksSum(items)
    decreases |items|
  {
    if items != [] {
      var sep := if comma then ", " else "";
      SeparatorMarks(comma);
      MarksCommaList(items[1..], true);
      MarksAppend(sep, items[0]);
      MarksAppend(sep + items[0], CommaList(items[1..], true));
    }
  }

  lemma {:induction false} MarksSumNone(items: seq<string>)
    requires forall i :: 0 <= i < |items| ==> MARK !in items[i]
    ensures MarksSum(items) == 0
    decreases |items|
  {
    if items != [] {
      MarksNone(items[0]);
      MarksSumNone(items[1..]);
    }
  }

  /** The lines of a listing written one after the other. */
  function Concat(lines: seq<string>): string
    decreases |lines|
  {
    if lines == [] then "" else lines[0] + Concat(lines[1..])
  }

  lemma {:induction false} ConcatAppend(a: seq<string>, b: seq<string>)
    ensures Concat(a + b) == Concat(a) + Concat(b)
    decreases |a|
  {
    if a == [] {
      assert a + b == b;
    } else {
      DropFirstAppend(a, b);
      ConcatAppend(a[1..], b);
    }
  }

  // How an output stream writes an integral `double` at its default
  // precision of six significant digits (`%g`).

  function Pow10(k: nat): (r: nat)
    ensures r >= 1
  {
    if k == 0 then 1 else 10 * Pow10(k - 1)
  }

  /** Number of decimal digits of `m`. */
  function DigitCount(m: nat): (k: nat)
    ensures k >= 1
    ensures m > 0 ==> Pow10(k - 1) <= m
    ensures m < Pow10(k)
    decreases m
  {
    if m < 10 then
      assert Pow10(1) == 10;
      1
    else
      var k := DigitCount(m / 10);
      assert Pow10(k) == 10 * Pow10(k - 1);
      assert Pow10(k + 1) == 10 * Pow10(k);
      1 + k
  }

  /** The first six digits of a number of seven digits or more. */
  function Leading6(m: nat): (q: nat)
    requires m >= 1000000
    ensures 100000 <= q < 1000000
  {
    var k := DigitCount(m);
    Leading6Bounds(m, k);
    m / Pow10(k - 6)
  }

  lemma Leading6Bounds(m: nat, k: nat)
    requires m >= 1000000 && k == DigitCount(m)
    ensures k >= 7
    ensures 100000 <= m / Pow10(k - 6) < 1000000
  {
    assert Pow10(6) == 1000000;
    if k <= 6 {
      Pow10Mono(k, 6);
    }
    var d := Pow10(k - 6);
    Pow10Add(k - 6, 5);
    Pow10Add(k - 6, 6);
    assert k - 6 + 5 == k - 1 && k - 6 + 6 == k;
    assert Pow10(5) == 100000;
    DivBounds(m, d, 100000);
  }

  /** `m` rounded to six significant digits, ties to even (the C library's
      default rounding): a mantissa of exactly six digits and the decimal
      exponent of its first digit. */
  function Round6(m: nat): (r: (nat, nat))
    requires m >= 1000000
    ensures 100000 <= r.0 < 1000000
    ensures r.1 >= 6
  {
    var k := DigitCount(m);
    Leading6Bounds(m, k);
    var d := Pow10(k - 6);
    var q := Leading6(m);
    var rem := m % d;
    var up := rem * 2 > d || (rem * 2 == d && q % 2 == 1);
    var rounded := if up then q + 1 else q;
    if rounded == 1000000 then (100000, k) else (rounded, k - 1)
  }

  lemma {:induction false} Pow10Add(a: nat, b: nat)
    ensures Pow10(a + b) == Pow10(a) * Pow10(b)
    decreases b
  {
    if b == 0 {
    } else {
      Pow10Add(a, b - 1);
      assert Pow10(a + b) == 10 * Pow10(a + (b - 1));
      assert Pow10(b) == 10 * Pow10(b - 1);
    }
  }

  lemma MulMono(d: nat, a: nat, b: nat)
    requires a <= b
    ensures d * a <= d * b
  {
    assert d * b == d * a + d * (b - a);
  }

  lemma Pow10Mono(a: nat, b: nat)
    requires a <= b
    ensures Pow10(a) <= Pow10(b)
  {
    Pow10Add(a, b - a);
    MulMono(Pow10(a), 1, Pow10(b - a));
  }

  /** `d * lo <= m < d * lo * 10` puts `m / d` between `lo` and `lo * 10`. */
  lemma DivBounds(m: nat, d: nat, lo: nat)
    requires d >= 1
    requires d * lo <= m < d * (lo * 10)
    ensures lo <= m / d < lo * 10
  {
    var q, r := m / d, m % d;
    assert m == d * q + r && r < d;
    if q < lo {
      MulMono(d, q + 1, lo);
    }
    if q >= lo * 10 {
      MulMono(d, lo * 10, q);
    }
  }

  /** `s` without its trailing zeros. */
  function StripZeros(s: string): (r: string)
    ensures |r| <= |s| && r == s[..|r|]
    ensures r == [] || r[|r| - 1] != '0'
    decreases |s|
  {
    if s == [] then []
    else if s[|s| - 1] == '0' then StripZeros(s[..|s| - 1])
    else s
  }

  /** The exponent part: sign and at least two digits. */
  function ExponentText(e: nat): string {
    "e+" + (if e < 10 then "0" else "") + NatText(e)
  }

  /** Scientific notation of a six-digit mantissa: the first digit, the
      remaining digits after a point unless they are all zero, then the
      exponent. */
  function ScientificText(mant: nat, e: nat): string
    requires 100000 <= mant < 1000000
  {
    var digits := NatText(mant);
    var frac := StripZeros(digits[1..]);
    [digits[0]] + (if frac == [] then "" else "." + frac) + ExponentText(e)
  }

  /** How the stream writes an integral `double` at its default precision of
      six: plain digits below a million, scientific notation from there on. */
  function StreamedNumber(n: int): string {
    if n < 0 then "-" + StreamedNat(-n) else StreamedNat(n)
  }

  function StreamedNat(m: nat): string {
    if m < 1000000 then NatText(m)
    else ScientificText(Round6(m).0, Round6(m).1)
  }

  /** Below a million in magnitude, the stream writes the same text as the
      corrected rendering. */
  lemma StreamedSmallIsDecimal(n: int)
    requires -1000000 < n < 1000000
    ensures StreamedNumber(n) == IntText(n)
  {
  }

  /** No decimal rendering contains an exponent marker. */
  lemma IntTextHasNoExponent(n: int)
    ensures 'e' !in IntText(n)
  {
    if n < 0 {
      var s := NatText(-n);
      assert IntText(n) == "-" + s;
      forall i | 0 <= i < |IntText(n)|
        ensures IntText(n)[i] != 'e'
      {
        if i > 0 {
          assert IntText(n)[i] == s[i - 1];
        }
      }
    }
  }

  /** From a million on, the stream writes an exponent marker. */
  lemma StreamedLargeHasExponent(n: int)
    requires n <= -1000000 || 1000000 <= n
    ensures 'e' in StreamedNumber(n)
  {
    var m: nat := if n < 0 then -n else n;
    var (mant, e) := Round6(m);
    var digits := NatText(mant);
    var frac := StripZeros(digits[1..]);
    var head := [digits[0]] + (if frac == [] then "" else "." + frac);
    var s := ScientificText(mant, e);
    assert s == head + ExponentText(e);
    assert s[|head|] == 'e';
    if n < 0 {
      assert StreamedNumber(n) == "-" + s;
      assert StreamedNumber(n)[|head| + 1] == 'e';
    } else {
      assert StreamedNumber(n) == s;
    }
  }


  // Worked example: 1234567 streams as `1.23457e+06`.

  lemma NatTextStep(n: nat)
    requires n >= 10
    ensures NatText(n) == NatText(n / 10) + [DigitChar(n % 10)]
  {
  }

  lemma DigitCountStep(m: nat)
    requires m >= 10
    ensures DigitCount(m) == 1 + DigitCount(m / 10)
  {
  }

  lemma DigitCountExample()
    ensures DigitCount(1234567) == 7
  {
    DigitCountStep(12);
    DigitCountStep(123);
    DigitCountStep(1234);
    DigitCountStep(12345);
    DigitCountStep(123456);
    DigitCountStep(1234567);
  }

  lemma Round6Example()
    ensures Round6(1234567) == (123457, 6)
  {
    DigitCountExample();
    assert Pow10(1) == 10;
    assert Leading6(1234567) == 123456;
  }

  lemma LeadingDigitsExample()
    ensures NatText(12345) == "12345"
  {
    NatTextStep(12);
    NatTextStep(123);
    NatTextStep(1234);
    NatTextStep(12345);
    assert NatText(1) == "1";
    assert NatText(12) == "12";
    assert NatText(123) == "123";
    assert NatText(1234) == "1234";
  }

  lemma MantissaExample()
    ensures NatText(123457) == "123457"
  {
    LeadingDigitsExample();
    NatTextStep(123457);
  }

  lemma FractionExample()
    ensures StripZeros("123457"[1..]) == "23457"
  {
    assert "123457"[1..] == "23457";
  }

  lemma ExponentExample()
    ensures ExponentText(6) == "e+06"
  {
  }

  lemma ScientificExample()
    ensures ScientificText(123457, 6) == "1.23457e+06"
  {
    MantissaExample();
    FractionExample();
    ExponentExample();
    assert "123457"[0] == '1';
    assert ['1'] + "." + "23457" + "e+06" == "1.23457e+06";
  }

  lemma StreamedExample()
    ensures StreamedNumber(1234567) == "1.23457e+06"
  {
    Round6Example();
    ScientificExample();
  }

  lemma DecimalExample()
    ensures IntText(1234567) == "1234567"
  {
    LeadingDigitsExample();
    NatTextStep(123456);
    assert NatText(123456) == "123456";
    NatTextStep(1234567);
  }

  /** Bytes a character takes in UTF-8. */
  function CharBytes(c: char): (n: nat)
    ensures 1 <= n <= 4
  {
    if c as int < 0x80 then 1
    else if c as int < 0x800 then 2
    else if c as int < 0x1_0000 then 3
    else 4
  }

  /** `std::string::length()` of the UTF-8 encoding of `s`: its byte count,
      which exceeds its character count once it leaves ASCII. */
  function Utf8Length(s: string): (r: nat)
    ensures |s| <= r <= 4 * |s|
    ensures r == |s| <==> forall i :: 0 <= i < |s| ==> s[i] as int < 0x80
    decreases |s|
  {
    if s == [] then 0 else CharBytes(s[0]) + Utf8Length(s[1..])
  }

  lemma Utf8Example()
    ensures |"\U{e9}"| == 1 && Utf8Length("\U{e9}") == 2
  {
  }
}
