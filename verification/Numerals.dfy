/** Numbers: the machine word and decimal text as lexical_cast writes and reads it. */
module Numerals {

  /** The largest std::size_t. */
  const SIZE_MAX: nat := 0xFFFF_FFFF_FFFF_FFFF

  predicate IsDigit(c: char) {
    '0' <= c <= '9'
  }

  predicate AllDigits(s: string) {
    forall c | c in s :: IsDigit(c)
  }

  /** A non-empty run of digits. */
  predicate IsNat(s: string) {
    s != "" && AllDigits(s)
  }

  /** The text behind a sign. */
  function Unsigned(s: string): string {
    if s != "" && (s[0] == '-' || s[0] == '+') then s[1..] else s
  }

  predicate IsInt(s: string) {
    IsNat(Unsigned(s))
  }

  /** Position of the first `c` or `d`, or the length. */
  function Until(s: string, c: char, d: char): (i: nat)
    ensures i <= |s|
    ensures forall j | 0 <= j < i :: s[j] != c && s[j] != d
    ensures i < |s| ==> s[i] == c || s[i] == d
  {
    if s == "" || s[0] == c || s[0] == d then 0 else 1 + Until(s[1..], c, d)
  }

  /** Digits with at most one point among them. */
  predicate IsMantissa(s: string) {
    var point := Until(s, '.', '.');
    AllDigits(s[..point]) && (if point == |s| then s != "" else |s| > 1 && AllDigits(s[point + 1..]))
  }

  /** Decimal notation, with or without an exponent. */
  predicate IsDecimal(s: string) {
    var t := Unsigned(s);
    var e := Until(t, 'e', 'E');
    IsMantissa(t[..e]) && (e == |t| || IsInt(t[e + 1..]))
  }

  predicate Numeric(c: char) {
    IsDigit(c) || c in {'.', 'e', 'E', '+', '-'}
  }

  lemma {:induction false} UntilEnd(s: string, c: char, d: char)
    requires AllDigits(s) && !IsDigit(c) && !IsDigit(d)
    ensures Until(s, c, d) == |s|
  {
    if s != "" {
      assert s[0] in s;
      UntilEnd(s[1..], c, d);
    }
  }

  lemma IntIsDecimal(s: string)
    requires IsInt(s)
    ensures IsDecimal(s)
  {
    var t := Unsigned(s);
    UntilEnd(t, 'e', 'E');
    UntilEnd(t, '.', '.');
    assert t[..|t|] == t;
  }

  lemma MantissaChars(s: string)
    requires IsMantissa(s)
    ensures s != "" && (IsDigit(s[0]) || s[0] == '.') && forall c | c in s :: Numeric(c)
  {
    var point := Until(s, '.', '.');
    if point == |s| {
      assert s[..point] == s;
    } else {
      assert s == s[..point] + ['.'] + s[point + 1..];
    }
    if point > 0 { assert s[0] == s[..point][0]; }
  }

  /** What every number looks like: after its sign a digit or a point, and no foreign characters. */
  lemma DecimalChars(s: string)
    requires IsDecimal(s)
    ensures var t := Unsigned(s); t != "" && (IsDigit(t[0]) || t[0] == '.')
    ensures forall c | c in s :: Numeric(c)
  {
    var t := Unsigned(s);
    var e := Until(t, 'e', 'E');
    MantissaChars(t[..e]);
    assert t[0] == t[..e][0];
    if e == |t| {
      assert t[..e] == t;
    } else {
      var x := t[e + 1..];
      assert t == t[..e] + [t[e]] + x;
      assert x == Unsigned(x) || x == [x[0]] + Unsigned(x);
    }
    assert s == t || s == [s[0]] + t;
  }

  function NatValue(s: string): nat
    requires AllDigits(s)
  {
    if s == "" then 0
    else
      assert IsDigit(s[|s| - 1]);
      10 * NatValue(s[..|s| - 1]) + (s[|s| - 1] as int - '0' as int)
  }

  function IntValue(s: string): int
    requires IsInt(s)
  {
    if s[0] == '-' then 0 - NatValue(Unsigned(s)) else NatValue(Unsigned(s))
  }

  function NatText(n: nat): (s: string)
    ensures IsNat(s)
  {
    var digit := [('0' as int + n % 10) as char];
    if n < 10 then digit else NatText(n / 10) + digit
  }

  function IntText(i: int): string {
    if i < 0 then "-" + NatText(-i) else NatText(i)
  }

  lemma {:induction false} NatRoundTrip(n: nat)
    ensures NatValue(NatText(n)) == n
  {
    var s := NatText(n);
    if n >= 10 {
      NatRoundTrip(n / 10);
      assert s[..|s| - 1] == NatText(n / 10);
    } else {
      assert s[..0] == "";
    }
  }

  /** Reading back what was written gives the same integer. */
  lemma IntRoundTrip(i: int)
    ensures IsInt(IntText(i)) && IntValue(IntText(i)) == i
  {
    if i < 0 {
      NatRoundTrip(-i);
      assert IntText(i)[1..] == NatText(-i);
    } else {
      NatRoundTrip(i);
      assert IsDigit(NatText(i)[0]);
    }
  }

  /** What decimal text looks like: no leading zero, the last digit last, a minus in front. */
  lemma DecimalText(n: nat, d: nat)
    requires d < 10
    ensures var digit := ["0123456789"[d]];
            && NatText(d) == digit && (n > 0 ==> NatText(10 * n + d) == NatText(n) + digit)
    ensures IntText(n) == NatText(n) && (n > 0 ==> IntText(0 - n) == "-" + NatText(n))
  {
    assert (10 * n + d) % 10 == d && (10 * n + d) / 10 == n;
    assert "0123456789"[d] == ('0' as int + d) as char;
  }

  /* ---- what counts as a number ---- */

  const DIGITS := "0123456789"

  predicate Decimals(s: string) {
    forall c | c in s :: c in DIGITS
  }

  /** An exponent: digits behind an optional sign. */
  predicate GoodPower(s: string) {
    var t := if s != "" && s[0] in "+-" then s[1..] else s;
    t != "" && Decimals(t)
  }

  /** A number taken apart: sign, digits, point, digits and an exponent. */
  datatype Decimal = Decimal(sign: string, whole: string, point: string, part: string, mark: string, power: string) {
    predicate GoodMantissa() {
      && point in {"", "."} && Decimals(whole) && Decimals(part)
      && (whole != "" || part != "") && (point == "" ==> part == "")
    }
    predicate Good() {
      && sign in {"", "+", "-"} && GoodMantissa()
      && mark in {"", "e", "E"} && (if mark == "" then power == "" else GoodPower(power))
    }
    function Mantissa(): string { whole + point + part }
    function Text(): string { sign + (Mantissa() + (mark + power)) }
  }

  lemma DigitsAre(s: string)
    ensures AllDigits(s) <==> Decimals(s)
  {
    assert forall c: char :: IsDigit(c) <==> c in DIGITS;
  }

  lemma PowerIs(s: string)
    ensures GoodPower(s) <==> IsInt(s)
  {
    DigitsAre(Unsigned(s));
  }

  /** Where the first `c` or `d` stands behind a text without them. */
  lemma {:induction false} UntilIs(s: string, c: char, d: char, n: nat)
    requires n <= |s| && (forall i | 0 <= i < n :: s[i] != c && s[i] != d) && (n == |s| || s[n] == c || s[n] == d)
    ensures Until(s, c, d) == n
  {
    if n > 0 { UntilIs(s[1..], c, d, n - 1); }
  }

  lemma SignCut(sign: string, t: string)
    requires sign in {"", "+", "-"} && t != "" && t[0] != '+' && t[0] != '-'
    ensures Unsigned(sign + t) == t
  {
    assert sign == "" ==> sign + t == t;
    assert sign != "" ==> (sign + t)[1..] == t;
  }

  lemma ExponentCut(m: string, mark: string, power: string)
    requires mark in {"", "e", "E"} && (mark == "" ==> power == "") && (forall c | c in m :: c != 'e' && c != 'E')
    ensures var t := m + (mark + power);
            && Until(t, 'e', 'E') == |m| && t[..|m|] == m && (|m| == |t| <==> mark == "")
            && (mark != "" ==> t[|m| + 1..] == power)
  {
    var t := m + (mark + power);
    assert forall i | 0 <= i < |m| :: t[i] == m[i] && m[i] in m;
    UntilIs(t, 'e', 'E', |m|);
  }

  lemma MantissaOf(n: Decimal)
    requires n.GoodMantissa()
    ensures IsMantissa(n.Mantissa()) && forall c | c in n.Mantissa() :: c in DIGITS || c == '.'
  {
    var s := n.Mantissa();
    DigitsAre(n.whole);
    DigitsAre(n.part);
    assert forall i | 0 <= i < |n.whole| :: s[i] == n.whole[i] && n.whole[i] in n.whole;
    UntilIs(s, '.', '.', |n.whole|);
    assert s[..|n.whole|] == n.whole;
    if n.point != "" { assert s[|n.whole| + 1..] == n.part; }
  }

  lemma {:induction false} FormIsDecimal(n: Decimal)
    requires n.Good()
    ensures IsDecimal(n.Text())
  {
    hide Until, Decimals, IsInt, Decimal.Mantissa, GoodPower, Unsigned;
    var m := n.Mantissa();
    MantissaOf(n);
    MantissaChars(m);
    hide IsMantissa, Decimal.GoodMantissa;
    ExponentCut(m, n.mark, n.power);
    var t := m + (n.mark + n.power);
    assert t[0] == m[0];
    SignCut(n.sign, t);
    PowerIs(n.power);
  }

  lemma {:induction false} MantissaPieces(m: string) returns (n: Decimal)
    requires IsMantissa(m)
    ensures n.GoodMantissa() && n.Mantissa() == m && n.sign == n.mark == n.power == ""
  {
    var point := Until(m, '.', '.');
    DigitsAre(m[..point]);
    if point == |m| {
      n := Decimal("", m, "", "", "", "");
      assert m[..point] == m && m + "" == m;
    } else {
      DigitsAre(m[point + 1..]);
      n := Decimal("", m[..point], ".", m[point + 1..], "", "");
    }
  }

  lemma SignOf(s: string)
    ensures var sign := s[..|s| - |Unsigned(s)|]; sign in {"", "+", "-"} && s == sign + Unsigned(s)
  {
    if s != "" && (s[0] == '+' || s[0] == '-') { assert s[..1] == [s[0]]; }
  }

  lemma ExponentOf(t: string) returns (mark: string, power: string)
    requires var e := Until(t, 'e', 'E'); e == |t| || IsInt(t[e + 1..])
    ensures mark in {"", "e", "E"} && (if mark == "" then power == "" else GoodPower(power))
    ensures t == t[..Until(t, 'e', 'E')] + (mark + power)
  {
    hide IsInt, GoodPower;
    var e := Until(t, 'e', 'E');
    if e == |t| {
      mark, power := "", "";
    } else {
      mark, power := [t[e]], t[e + 1..];
      PowerIs(power);
    }
  }

  lemma {:induction false} Pieces(s: string) returns (n: Decimal)
    requires IsDecimal(s)
    ensures n.Good() && n.Text() == s
  {
    hide Until, IsInt, IsMantissa, GoodPower, Decimal.GoodMantissa, Decimal.Mantissa, Unsigned;
    var t := Unsigned(s);
    var p := MantissaPieces(t[..Until(t, 'e', 'E')]);
    var mark, power := ExponentOf(t);
    SignOf(s);
    n := p.(sign := s[..|s| - |t|], mark := mark, power := power);
    SamePieces(p, n);
  }

  lemma SamePieces(p: Decimal, n: Decimal)
    requires n.whole == p.whole && n.point == p.point && n.part == p.part
    ensures n.Mantissa() == p.Mantissa() && (n.GoodMantissa() <==> p.GoodMantissa())
  {
  }

  /** Exactly these texts are numbers in decimal notation. */
  lemma {:induction false} DecimalForms(s: string)
    ensures IsDecimal(s) <==> exists n: Decimal :: n.Good() && n.Text() == s
  {
    hide IsDecimal, Decimal.Good, Decimal.Text;
    if IsDecimal(s) { var n := Pieces(s); }
    forall n: Decimal | n.Good() ensures IsDecimal(n.Text()) { FormIsDecimal(n); }
  }
}
