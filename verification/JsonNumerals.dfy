/** JSON numbers as they are written, and what they are worth: the grammar parse_number reads. */
module JsonNumerals {
  import opened CStrings
  import opened Json
  import opened JsonMinifyMeaning
  import opened Numerals

  /** A mark and an optional sign before the digits of the exponent. */
  datatype Power = NoPower | Power(mark: char, sign: string, exponent: seq<nat>)

  /** An optional minus, an optional zero, digits that do not begin with zero, a fraction if it has digits, a power.
      Every number of section 6 of RFC 8259 is one of these; a leading zero, a bare minus, a bare point or a power
      without digits are taken as well. */
  datatype Numeral = Numeral(minus: bool, zero: bool, whole: seq<nat>, fraction: seq<nat>, power: Power)

  predicate AreDigits(ds: seq<nat>) {
    forall i | 0 <= i < |ds| :: ds[i] < 10
  }

  predicate ProperPower(p: Power) {
    p.Power? ==> p.mark in {'e', 'E'} && p.sign in {"", "+", "-"} && AreDigits(p.exponent)
  }

  predicate Proper(n: Numeral) {
    && AreDigits(n.whole) && AreDigits(n.fraction)
    && (n.whole != [] ==> n.whole[0] != 0) && (n.minus || n.zero || n.whole != [])
    && ProperPower(n.power)
  }

  function PowerText(p: Power): string
    requires p.Power? ==> AreDigits(p.exponent)
  {
    if p.NoPower? then "" else [p.mark] + (p.sign + Decimals(p.exponent))
  }

  function FractionText(ds: seq<nat>): string
    requires AreDigits(ds)
  {
    if ds == [] then "" else "." + Decimals(ds)
  }

  function WholeText(zero: bool, ds: seq<nat>): string
    requires AreDigits(ds)
  {
    (if zero then "0" else "") + Decimals(ds)
  }

  function NumeralText(n: Numeral): string
    requires Proper(n)
  {
    (if n.minus then "-" else "") + (WholeText(n.zero, n.whole) + (FractionText(n.fraction) + PowerText(n.power)))
  }

  /** 10 to the n. */
  function TenTo(n: nat): (p: nat)
    ensures p > 0
  {
    if n == 0 then 1 else 10 * TenTo(n - 1)
  }

  function Shifted(m: real, places: int): real {
    if places >= 0 then m * TenTo(places) as real else m / TenTo(-places) as real
  }

  function PowerOf(p: Power): int {
    if p.NoPower? then 0 else if p.sign == "-" then 0 - Positional(p.exponent, 10) else Positional(p.exponent, 10)
  }

  /** The digits as one number, the point and the power moving it. */
  function Worth(n: Numeral): real {
    var m := Positional(n.whole + n.fraction, 10) as real;
    Shifted(if n.minus then -m else m, PowerOf(n.power) - |n.fraction|)
  }

  /** What cannot go on with a number. */
  predicate Stops(u: string) {
    u == "" || (!('0' <= u[0] <= '9') && u[0] !in {'.', 'e', 'E', '+', '-'})
  }

  // ----- digits -----

  lemma {:induction false} DigitsRead(n: nat, ds: seq<nat>, u: string)
    requires AreDigits(ds) && (u == "" || !IsDigit(u[0]))
    ensures Digits(n, Decimals(ds) + u) == (Onto(n, ds, 10), u)
    decreases |ds|
  {
    if ds == [] {
      assert Decimals(ds) + u == u;
    } else {
      var s := Decimals(ds) + u;
      assert Decimals(ds) == ["0123456789"[ds[0]]] + Decimals(ds[1..]);
      assert s[1..] == Decimals(ds[1..]) + u;
      DigitChar(s[0], ds[0]);
      DigitsRead(n * 10 + ds[0], ds[1..], u);
    }
  }

  lemma DigitChar(c: char, d: nat)
    requires d < 10 && c == "0123456789"[d]
    ensures IsDigit(c) && c as int - '0' as int == d
  {
  }

  lemma DigitsPositional(ds: seq<nat>, more: seq<nat>)
    ensures Onto(Positional(ds, 10), more, 10) == Positional(ds + more, 10) && Onto(0, ds, 10) == Positional(ds, 10)
  {
    OntoPositional(ds, more, 10);
    OntoPositional([], ds, 10);
    assert [] + ds == ds;
  }

  lemma {:induction false} DigitsOf(n: nat, s: string) returns (ds: seq<nat>)
    ensures AreDigits(ds) && s == Decimals(ds) + Digits(n, s).1 && Digits(n, s).0 == Onto(n, ds, 10)
    ensures ds != [] <==> s != "" && IsDigit(s[0])
    ensures ds != [] ==> s[0] == "0123456789"[ds[0]]
    ensures Digits(n, s).1 == "" || !IsDigit(Digits(n, s).1[0])
    decreases |s|
  {
    if s != "" && IsDigit(s[0]) {
      var d := DigitOf(s[0]);
      var more := DigitsOf(n * 10 + d, s[1..]);
      ds := [d] + more;
      DecimalsCons(d, more, Digits(n, s).1);
      OntoCons(n, d, more);
      assert s == [s[0]] + s[1..];
    } else {
      ds := [];
      assert Decimals(ds) + s == s;
    }
  }

  lemma DigitOf(c: char) returns (d: nat)
    requires IsDigit(c)
    ensures d < 10 && c == "0123456789"[d] && d == c as int - '0' as int
  {
    d := c as int - '0' as int;
  }

  lemma OntoCons(n: nat, d: nat, ds: seq<nat>)
    ensures Onto(n, [d] + ds, 10) == Onto(n * 10 + d, ds, 10)
  {
    assert ([d] + ds)[1..] == ds;
  }

  lemma DecimalsCons(d: nat, ds: seq<nat>, t: string)
    requires d < 10 && AreDigits(ds)
    ensures AreDigits([d] + ds) && Decimals([d] + ds) + t == ["0123456789"[d]] + (Decimals(ds) + t)
  {
    assert Decimals([d] + ds) == ["0123456789"[d]] + Decimals(ds);
  }

  // ----- powers of ten -----

  lemma {:induction false} Pow10Is(e: int)
    ensures Pow10(e) == if e >= 0 then TenTo(e) as real else 1.0 / TenTo(-e) as real
    decreases if e < 0 then -e else e
  {
    if e > 0 {
      Pow10Is(e - 1);
    } else if e < 0 {
      Pow10Is(e + 1);
      Tenth(TenTo(-e - 1) as real);
    }
  }

  lemma Tenth(x: real)
    requires x > 0.0
    ensures 1.0 / x / 10.0 == 1.0 / (10.0 * x)
  {
  }

  lemma ScaledIs(minus: bool, n: nat, e: int)
    ensures Scaled(minus, n, e) == Shifted(if minus then -(n as real) else n as real, e)
  {
    Pow10Is(e);
  }

  // ----- reading what is written -----

  lemma IntegerReads(zero: bool, ds: seq<nat>, u: string)
    requires AreDigits(ds) && (ds != [] ==> ds[0] != 0) && (u == "" || !IsDigit(u[0]))
    ensures ParseInteger(WholeText(zero, ds) + u) == (Positional(ds, 10), u)
  {
    var z, t := if zero then "0" else "", Decimals(ds) + u;
    Associate(z, Decimals(ds), u);
    assert ds != [] ==> t[0] == "0123456789"[ds[0]];
    assert ds == [] ==> t == u;
    assert At(t, 0) != '0';
    IntegerRead(z, t);
    DigitsRead(0, ds, u);
    DigitsPositional(ds, []);
    if ds != [] {
      NotZero(t[0], ds[0]);
    }
  }

  lemma NotZero(c: char, d: nat)
    requires 0 < d < 10 && c == "0123456789"[d]
    ensures '1' <= c <= '9'
  {
  }

  lemma FractionReads(n: nat, ds: seq<nat>, u: string)
    requires AreDigits(ds) && (u == "" || (!IsDigit(u[0]) && u[0] != '.'))
    ensures ParseFraction(n, FractionText(ds) + u) == Mantissa(Onto(n, ds, 10), |ds|, u)
  {
    if ds == [] {
      assert "" + u == u;
    } else {
      var s, t := FractionText(ds) + u, Decimals(ds) + u;
      Associate(".", Decimals(ds), u);
      assert s[1..] == t && s[1] == "0123456789"[ds[0]];
      DigitChar(s[1], ds[0]);
      DigitsRead(n, ds, u);
    }
  }

  lemma PowerReads(p: Power, u: string)
    requires ProperPower(p) && Stops(u)
    ensures ParseExponent(PowerText(p) + u) == Exponent(PowerOf(p), u)
  {
    if p.NoPower? {
      assert "" + u == u;
    } else {
      var head, t := [p.mark] + p.sign, Decimals(p.exponent) + u;
      PowerGroups(p.mark, p.sign, Decimals(p.exponent), u);
      DigitsRead(0, p.exponent, u);
      DigitsPositional(p.exponent, []);
      NoSign(p.exponent, u);
      ExponentSelf(head, t);
      SignOf(p.mark, p.sign);
    }
  }

  lemma PowerGroups(mark: char, sign: string, ds: string, u: string)
    ensures ([mark] + (sign + ds)) + u == ([mark] + sign) + (ds + u)
  {
  }

  lemma SignOf(mark: char, sign: string)
    requires mark in {'e', 'E'} && sign in {"", "+", "-"}
    ensures var head := [mark] + sign;
            && 1 <= |head| <= 2 && (head[0] == 'e' || head[0] == 'E')
            && (|head| == 2 ==> head[1] == '+' || head[1] == '-')
            && (|head| == 1 <==> sign == "") && (|head| == 2 && head[1] == '-' <==> sign == "-")
  {
  }

  lemma NoSign(ds: seq<nat>, u: string)
    requires AreDigits(ds) && Stops(u)
    ensures At(Decimals(ds) + u, 0) != '+' && At(Decimals(ds) + u, 0) != '-'
  {
    if ds != [] {
      DigitChar((Decimals(ds) + u)[0], ds[0]);
    } else {
      assert Decimals(ds) + u == u;
    }
  }

  lemma FirstOfRest(n: Numeral, u: string)
    requires Proper(n) && Stops(u)
    ensures var a := PowerText(n.power) + u; a == "" || (!IsDigit(a[0]) && a[0] != '.')
    ensures var b := FractionText(n.fraction) + (PowerText(n.power) + u); b == "" || (!IsDigit(b[0]) && b[0] != '-')
  {
    FirstOf(PowerText(n.power), u);
    FirstOf(FractionText(n.fraction), PowerText(n.power) + u);
  }

  lemma WorthIs(n: Numeral, m: nat, e: int)
    requires m == Onto(Positional(n.whole, 10), n.fraction, 10) && e == PowerOf(n.power) - |n.fraction|
    ensures Worth(n) == Scaled(n.minus, m, e)
  {
    DigitsPositional(n.whole, n.fraction);
    ScaledIs(n.minus, m, e);
  }

  lemma BeforePower(m: nat, ds: seq<nat>, p: Power, u: string)
    requires AreDigits(ds) && ProperPower(p) && Stops(u)
    ensures ParseFraction(m, FractionText(ds) + (PowerText(p) + u)) == Mantissa(Onto(m, ds, 10), |ds|, PowerText(p) + u)
  {
    FirstOf(PowerText(p), u);
    FractionReads(m, ds, PowerText(p) + u);
  }

  lemma AfterIntegerIs(m: nat, s: string, n: nat, places: nat, t: string, scale: int, u: string)
    requires ParseFraction(m, s) == Mantissa(n, places, t) && ParseExponent(t) == Exponent(scale, u)
    ensures AfterInteger(m, s) == (n, scale - places, u)
  {
  }

  lemma UnsignedIs(minus: bool, t: string, whole: nat, f: string, n: nat, scale: int, u: string, d: real)
    requires ParseInteger(t) == (whole, f) && AfterInteger(whole, f) == (n, scale, u) && d == Scaled(minus, n, scale)
    ensures Unsigned(minus, t) == (d, u)
  {
  }

  lemma UnsignedFrom(minus: bool, t: string, whole: nat, f: string, n: nat, places: nat, p: string, scale: int,
                     u: string)
    requires ParseInteger(t) == (whole, f) && ParseFraction(whole, f) == Mantissa(n, places, p)
    requires ParseExponent(p) == Exponent(scale, u)
    ensures Unsigned(minus, t) == (Scaled(minus, n, scale - places), u)
  {
    AfterIntegerIs(whole, f, n, places, p, scale, u);
    UnsignedIs(minus, t, whole, f, n, scale - places, u, Scaled(minus, n, scale - places));
  }

  lemma UnsignedReads(n: Numeral, u: string)
    requires Proper(n) && Stops(u)
    ensures var t := WholeText(n.zero, n.whole) + (FractionText(n.fraction) + (PowerText(n.power) + u));
            At(t, 0) != '-' && Unsigned(n.minus, t) == (Worth(n), u)
  {
    var p := PowerText(n.power) + u;
    var f, whole := FractionText(n.fraction) + p, Positional(n.whole, 10);
    var m := Onto(whole, n.fraction, 10);
    FirstOfRest(n, u);
    IntegerReads(n.zero, n.whole, f);
    BeforePower(whole, n.fraction, n.power, u);
    PowerReads(n.power, u);
    WorthIs(n, m, PowerOf(n.power) - |n.fraction|);
    UnsignedFrom(n.minus, WholeText(n.zero, n.whole) + f, whole, f, m, |n.fraction|, p, PowerOf(n.power), u);
    UnsignedStart(n.zero, n.whole, f);
  }

  /** Whatever digits, point and power are written, they are read as what they are worth. */
  lemma NumeralReads(n: Numeral, u: string)
    requires Proper(n) && Stops(u)
    ensures ParseNumber(NumeralText(n) + u) == (Worth(n), u)
  {
    var sign, i := if n.minus then "-" else "", WholeText(n.zero, n.whole);
    var f, p := FractionText(n.fraction), PowerText(n.power);
    FourText(sign, i, f, p, u);
    UnsignedReads(n, u);
    NumberRead(sign, i + (f + (p + u)));
  }

  lemma UnsignedStart(zero: bool, ds: seq<nat>, t: string)
    requires AreDigits(ds) && (t == "" || t[0] != '-')
    ensures At(WholeText(zero, ds) + t, 0) != '-'
  {
    assert ds != [] ==> Decimals(ds)[0] == "0123456789"[ds[0]];
  }

  // ----- writing what was read -----

  lemma IntegerOf(s: string) returns (zero: bool, ds: seq<nat>)
    ensures AreDigits(ds) && (ds != [] ==> ds[0] != 0)
    ensures s == WholeText(zero, ds) + ParseInteger(s).1 && ParseInteger(s).0 == Positional(ds, 10)
    ensures s != "" && IsDigit(s[0]) ==> zero || ds != []
  {
    zero := At(s, 0) == '0';
    var z := if zero then "0" else "";
    var t := s[|z|..];
    assert s == z + t;
    ds := [];
    if '1' <= At(t, 0) <= '9' {
      ds := DigitsOf(0, t);
      DigitsPositional(ds, []);
      assert t[0] == "0123456789"[ds[0]];
    } else {
      assert Decimals(ds) + t == t;
    }
    Associate(z, Decimals(ds), ParseInteger(s).1);
  }

  lemma FractionOf(n: nat, s: string) returns (ds: seq<nat>)
    ensures AreDigits(ds)
    ensures var m := ParseFraction(n, s); s == FractionText(ds) + m.mrest && m.n == Onto(n, ds, 10) && m.places == |ds|
  {
    ds := [];
    if At(s, 0) == '.' && IsDigit(At(s, 1)) {
      ds := DigitsOf(n, s[1..]);
      Associate(".", Decimals(ds), Digits(n, s[1..]).1);
      assert s == "." + s[1..];
    } else {
      assert "" + s == s;
    }
  }

  lemma PowerFrom(s: string) returns (p: Power)
    ensures ProperPower(p) && s == PowerText(p) + ParseExponent(s).erest && ParseExponent(s).scale == PowerOf(p)
  {
    if At(s, 0) == 'e' || At(s, 0) == 'E' {
      var sign := if At(s, 1) == '+' then "+" else if At(s, 1) == '-' then "-" else "";
      var head := [s[0]] + sign;
      var t := s[|head|..];
      assert s == head + t;
      assert sign == "" ==> At(t, 0) == At(s, 1);
      var ds := DigitsOf(0, t);
      DigitsPositional(ds, []);
      SignOf(s[0], sign);
      ExponentSelf(head, t);
      p := Power(s[0], sign, ds);
      PowerGroups(s[0], sign, Decimals(ds), Digits(0, t).1);
    } else {
      p := NoPower;
      assert "" + s == s;
    }
  }

  lemma AfterIntegerOf(m: nat, s: string) returns (ds: seq<nat>, p: Power)
    ensures AreDigits(ds) && ProperPower(p)
    ensures s == FractionText(ds) + (PowerText(p) + AfterInteger(m, s).2)
    ensures AfterInteger(m, s).0 == Onto(m, ds, 10) && AfterInteger(m, s).1 == PowerOf(p) - |ds|
  {
    var f := ParseFraction(m, s);
    ds := FractionOf(m, s);
    p := PowerFrom(f.mrest);
    var e := ParseExponent(f.mrest);
    AfterIntegerIs(m, s, f.n, f.places, f.mrest, e.scale, e.erest);
  }

  lemma UnsignedOf(minus: bool, t: string) returns (n: Numeral)
    requires minus || (t != "" && IsDigit(t[0]))
    ensures Proper(n) && n.minus == minus && Unsigned(minus, t).0 == Worth(n)
    ensures t == WholeText(n.zero, n.whole) + (FractionText(n.fraction) + (PowerText(n.power) + Unsigned(minus, t).1))
  {
    var zero, whole := IntegerOf(t);
    var i := ParseInteger(t);
    var fraction, power := AfterIntegerOf(i.0, i.1);
    var a := AfterInteger(i.0, i.1);
    n := Numeral(minus, zero, whole, fraction, power);
    WorthIs(n, a.0, a.1);
    UnsignedIs(minus, t, i.0, i.1, a.0, a.1, a.2, Worth(n));
  }

  /** Every number that was read was written like that. */
  lemma NumeralOf(s: string) returns (n: Numeral)
    requires s != "" && (s[0] == '-' || IsDigit(s[0]))
    ensures Proper(n) && s == NumeralText(n) + ParseNumber(s).1 && ParseNumber(s).0 == Worth(n)
  {
    var sign := if s[0] == '-' then "-" else "";
    var t := s[|sign|..];
    assert s == sign + t;
    NumberRead(sign, t);
    n := UnsignedOf(sign == "-", t);
    FourText(sign, WholeText(n.zero, n.whole), FractionText(n.fraction), PowerText(n.power), ParseNumber(s).1);
  }
}
