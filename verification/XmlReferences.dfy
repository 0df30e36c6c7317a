/** What numeric character references mean, whatever the number of their digits. */
module XmlReferences {
  import opened CStrings
  import opened XmlBytes
  import opened XmlText
  import opened Numerals
  import Utf8

  ghost predicate Below(ds: seq<nat>, base: nat) {
    forall i | 0 <= i < |ds| :: ds[i] < base
  }

  // ----- arithmetic -----

  lemma ModTimes(a: nat, b: nat, m: nat)
    requires m > 0
    ensures ((a % m) * b) % m == (a * b) % m
  {
    var q := a / m;
    assert a == q * m + a % m;
    assert a * b == (a % m) * b + (q * b) * m;
    ModMultiple((a % m) * b, q * b, m);
  }

  lemma ModMultiple(x: nat, k: int, m: nat)
    requires m > 0 && x + k * m >= 0
    ensures (x + k * m) % m == x % m
  {
    var y := x + k * m;
    assert y == (x / m + k) * m + x % m;
    UniqueMod(y, x / m + k, x % m, m);
  }

  lemma UniqueMod(y: int, q: int, r: int, m: nat)
    requires m > 0 && 0 <= r < m && y == q * m + r
    ensures y % m == r
  {
    var d := y / m - q;
    assert d * m == r - y % m;
    assert d > 0 ==> d * m >= m;
    assert d < 0 ==> d * m + m <= 0;
  }

  lemma ModAdd(a: nat, b: nat, m: nat)
    requires m > 0
    ensures (a % m + b % m) % m == (a + b) % m
  {
    assert a == a / m * m + a % m && b == b / m * m + b % m;
    assert a / m * m + b / m * m == (a / m + b / m) * m;
    ModMultiple(a % m + b % m, a / m + b / m, m);
  }

  lemma Mod64(x: nat)
    ensures x % M64 % M32 == x % M32
  {
    var q := x / M64;
    assert x == x % M64 + q * M64;
    assert q * M64 == (q * M32) * M32;
    ModMultiple(x % M64, q * M32, M32);
  }

  lemma Regroup(mult: nat, d: nat, base: nat, p: nat)
    ensures mult * d + mult * base * p == mult * (p * base + d)
  {
  }

  lemma SumStep(mult: nat, d: nat, base: nat, p: nat, a: nat)
    requires a % M32 == Times(Times(mult, base), p)
    ensures Add64(Times(mult, d), a) % M32 == Times(mult, p * base + d)
  {
    var x, y := mult * d, mult * base * p;
    ModTimes(mult * base, p, M32);
    Mod64(x % M32 + a);
    ModAdd(x % M32, a, M32);
    ModAdd(x, y, M32);
    UniqueMod(x % M32, 0, x % M32, M32);
    Regroup(mult, d, base, p);
  }

  /** The wrapping sum is right modulo 2^32, in any base and from any multiplier. */
  lemma {:induction false} SumIsPositional(ds: seq<nat>, base: nat, mult: nat)
    ensures Accumulated(ds, base, mult) % M32 == Times(mult, Positional(ds, base))
    decreases |ds|
  {
    if ds == [] {
      assert mult * 0 == 0;
    } else {
      var init, d := ds[..|ds| - 1], ds[|ds| - 1];
      var p := Positional(init, base);
      SumIsPositional(init, base, Times(mult, base));
      SumStep(mult, d, base, p, Accumulated(init, base, Times(mult, base)));
    }
  }

  // ----- hexadecimal -----

  predicate PowerOf16(m: nat) {
    m in {0, 1, 0x10, 0x100, 0x1000, 0x1_0000, 0x10_0000, 0x100_0000, 0x1000_0000}
  }

  /** The multiplier falls to zero after eight digits, so the sum never leaves 32 bits. */
  lemma {:induction false} HexSumFits(ds: seq<nat>, mult: nat)
    requires Below(ds, 16) && PowerOf16(mult)
    ensures Accumulated(ds, 16, mult) <= if mult == 0 then 0 else M32 - mult
    decreases |ds|
  {
    if ds != [] {
      var init, d := ds[..|ds| - 1], ds[|ds| - 1];
      DigitTimes(mult, d);
      HexSumFits(init, Times(mult, 16));
      HexStep(mult, d, Accumulated(init, 16, Times(mult, 16)));
    }
  }

  lemma HexStep(mult: nat, d: nat, a: nat)
    requires PowerOf16(mult) && d < 16 && a <= if Times(mult, 16) == 0 then 0 else M32 - Times(mult, 16)
    ensures Add64(Times(mult, d), a) <= if mult == 0 then 0 else M32 - mult
  {
    DigitTimes(mult, d);
  }

  lemma DigitTimes(mult: nat, d: nat)
    requires PowerOf16(mult) && d < 16
    ensures Times(mult, d) == mult * d <= 15 * mult
    ensures PowerOf16(Times(mult, 16))
    ensures Times(mult, 16) == 0 || Times(mult, 16) == 16 * mult
    ensures mult != 0 ==> 16 * mult <= M32
  {
    assert mult * d <= mult * 15;
  }

  /** Any number of hexadecimal digits gives their value modulo 2^32. */
  lemma HexSum(ds: seq<nat>)
    requires Below(ds, 16)
    ensures Accumulated(ds, 16, 1) == Positional(ds, 16) % M32
  {
    HexSumFits(ds, 1);
    SumIsPositional(ds, 16, 1);
  }

  // ----- decimal -----

  lemma {:induction false} ZeroSum(ds: seq<nat>, base: nat, mult: nat)
    requires base > 0 && Positional(ds, base) == 0
    ensures Accumulated(ds, base, mult) == 0
    decreases |ds|
  {
    if ds != [] {
      var p := Positional(ds[..|ds| - 1], base);
      assert p > 0 ==> p * base > 0;
      ZeroSum(ds[..|ds| - 1], base, Times(mult, base));
    }
  }

  /** Below 2^32 nothing wraps, whatever zeros lead. */
  lemma {:induction false} SmallSum(ds: seq<nat>, base: nat, mult: nat)
    requires base > 0 && mult > 0 && mult * Positional(ds, base) < M32
    ensures Accumulated(ds, base, mult) == mult * Positional(ds, base)
    decreases |ds|
  {
    if ds != [] {
      var init, d := ds[..|ds| - 1], ds[|ds| - 1];
      var p := Positional(init, base);
      Products(mult, d, base, p);
      if p == 0 {
        ZeroSum(init, base, Times(mult, base));
      } else {
        SmallSum(init, base, mult * base);
      }
    }
  }

  /** No partial product is larger than the whole. */
  lemma Products(mult: nat, d: nat, base: nat, p: nat)
    requires base > 0 && mult > 0 && mult * (p * base + d) < M32
    ensures Times(mult, d) == mult * d && mult * d + mult * base * p == mult * (p * base + d)
    ensures mult * base > 0 && mult * base * p < M32
    ensures p > 0 ==> Times(mult, base) == mult * base
    ensures p == 0 ==> mult * base * p == 0
  {
    var m := mult * base;
    Regroup(mult, d, base, p);
    assert m > 0 && mult * d >= 0 && m * p >= 0;
    assert p > 0 ==> m * p >= m;
  }

  // ----- whole references -----

  lemma {:induction false} DigitsArePure(h: string, base: nat)
    requires Digits(h, base).Some? && (base == 10 || base == 16)
    ensures forall c | c in {';', 'x', '#', '"', '\'', '&', '<'} :: c !in h
    ensures Below(Digits(h, base).value, base) && |Digits(h, base).value| == |h|
  {
    if h != "" {
      DigitsArePure(h[1..], base);
      assert h == [h[0]] + h[1..];
    }
  }

  lemma {:induction false} AfterNone(h: string, c: char)
    requires c !in h
    ensures AfterLast(h, c) == h
    decreases |h|
  {
    if h != "" {
      assert h[|h| - 1] in h;
      AfterNone(h[..|h| - 1], c);
    }
  }

  /** The digits of either base are the characters that write them, letters in either case. */
  lemma DigitReads(c: char, d: nat, base: nat)
    requires base in {10, 16}
    ensures DigitValue(c, base) == Some(d) <==>
              d < base && (c == "0123456789abcdef"[d] || c == "0123456789ABCDEF"[d])
  {
  }

  lemma {:induction false} DigitsRead(h: string, ds: seq<nat>, base: nat)
    requires base in {10, 16}
    ensures Digits(h, base) == Some(ds) <==> Writes(h, ds, base)
    decreases |h|
  {
    if h == "" || ds == [] {
      if h != "" && Digits(h[1..], base).Some? {
        assert Digits(h, base) != Some([]);
      }
    } else {
      DigitReads(h[0], ds[0], base);
      DigitsRead(h[1..], ds[1..], base);
      FirstWrites(h, ds, base);
      assert ds == [ds[0]] + ds[1..];
    }
  }

  lemma FirstWrites(h: string, ds: seq<nat>, base: nat)
    requires h != "" && ds != [] && base <= 16
    ensures Writes(h, ds, base) <==>
              && ds[0] < base && (h[0] == "0123456789abcdef"[ds[0]] || h[0] == "0123456789ABCDEF"[ds[0]])
              && Writes(h[1..], ds[1..], base)
  {
    if Writes(h[1..], ds[1..], base) && ds[0] < base {
      forall i | 0 < i < |h|
        ensures ds[i] < base && (h[i] == "0123456789abcdef"[ds[i]] || h[i] == "0123456789ABCDEF"[ds[i]])
      {
        assert h[i] == h[1..][i - 1] && ds[i] == ds[1..][i - 1];
      }
    }
  }

  /** A hexadecimal reference yields its value modulo 2^32 and is consumed through its ';'. */
  lemma HexReference(h: string, ds: seq<nat>, u: string, encoding: Encoding)
    requires Writes(h, ds, 16)
    ensures GetEntity("&#x" + (h + ([';'] + u)), encoding) == Got(Converted(Positional(ds, 16) % M32, encoding), u)
  {
    DigitsRead(h, ds, 16);
    DigitsArePure(h, 16);
    AfterNone(h, 'x');
    HexReads(h, u, encoding);
    HexSum(ds);
  }

  /** A decimal reference below 2^32 yields its value. */
  lemma DecimalReference(h: string, ds: seq<nat>, u: string, encoding: Encoding)
    requires h != "" && Writes(h, ds, 10) && Positional(ds, 10) < M32
    ensures GetEntity("&#" + (h + ([';'] + u)), encoding) == Got(Converted(Positional(ds, 10), encoding), u)
  {
    DigitsRead(h, ds, 10);
    DigitsArePure(h, 10);
    AfterNone(h, '#');
    var s := "&#" + (h + ([';'] + u));
    PrefixOfConcat("&#", h + ([';'] + u));
    assert s[2] == h[0] && h[0] in h;
    assert GetEntity(s, encoding) == Numeric(s, 2, '#', 10, encoding);
    NumericReads(s, 2, h, u, '#', 10, encoding);
    SmallSum(ds, 10, 1);
  }

  /** In UTF-8 a reference to a scalar value is read as the bytes that decode to it, and their lead byte announces
      how many they are. */
  lemma ReferenceDecodes(h: string, ds: seq<nat>, u: string, rest: string)
    requires Writes(h, ds, 16) && Utf8.IsScalar(Positional(ds, 16) % M32)
    ensures var c, g := Positional(ds, 16) % M32, GetEntity("&#x" + (h + ([';'] + u)), EncodingUtf8);
            && g.Got? && g.rest == u && g.bytes != ""
            && Utf8.Decode(g.bytes + rest) == Utf8.Scalar(c, |g.bytes|)
            && Utf8.LeadLength(g.bytes[0]) == |g.bytes|
  {
    HexReference(h, ds, u, EncodingUtf8);
    Utf8.DecodeEncode(Positional(ds, 16) % M32, rest);
  }

  /** In legacy encoding it is the one byte with the low eight bits of the value; beyond 21 bits there is none in
      UTF-8. */
  lemma ReferenceIsByte(h: string, ds: seq<nat>, u: string)
    requires Writes(h, ds, 16)
    ensures GetEntity("&#x" + (h + ([';'] + u)), EncodingLegacy) == Got([(Positional(ds, 16) % 0x100) as char], u)
    ensures Positional(ds, 16) % M32 >= 0x20_0000 ==> GetEntity("&#x" + (h + ([';'] + u)), EncodingUtf8) == Got("", u)
  {
    HexReference(h, ds, u, EncodingLegacy);
    HexReference(h, ds, u, EncodingUtf8);
    LowByte(Positional(ds, 16));
  }

  lemma LowByte(x: nat)
    ensures x % M32 % 0x100 == x % 0x100
  {
    var q := x / M32;
    assert x == x % M32 + q * M32;
    assert q * M32 == (q * 0x100_0000) * 0x100;
    ModMultiple(x % M32, q * 0x100_0000, 0x100);
  }

  /** The five names of section 4.6 of XML 1.0. */
  predicate IsNamed(name: string, c: char) {
    (name, c) in {("&amp;", '&'), ("&lt;", '<'), ("&gt;", '>'), ("&quot;", '"'), ("&apos;", '\'')}
  }

  /** They are written for the five characters, and read back. */
  lemma NamedReads(name: string, c: char, u: string, encoding: Encoding)
    requires IsNamed(name, c)
    ensures EncodeByte(c) == name && GetEntity(name + u, encoding) == Got([c], u)
  {
    NameReads(c, u);
    PrefixOfConcat(name, u);
    assert (name + u)[1] == name[1];
  }

  /** Any other '&' without a number vanishes. */
  lemma OtherNameVanishes(u: string, encoding: Encoding)
    requires At(u, 0) != '#' && forall name, c | IsNamed(name, c) :: !(name <= "&" + u)
    ensures GetEntity("&" + u, encoding) == Got("", u)
  {
    var s := "&" + u;
    assert s[1..] == u && (|s| > 1 ==> s[1] == u[0]);
    assert IsNamed("&amp;", '&') && IsNamed("&lt;", '<') && IsNamed("&gt;", '>');
    assert IsNamed("&quot;", '"') && IsNamed("&apos;", '\'');
  }
}
