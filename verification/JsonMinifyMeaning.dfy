/** cJSON_Minify on any text: what it leaves is read as the same tree. */
module JsonMinifyMeaning {
  import opened CStrings
  import opened JsonStrings
  import opened Json
  import opened JsonMinify
  import opened JsonRoundTrip
  import JsonReader

  /** Every string literal ends with its quote. */
  predicate Closed(s: string)
    decreases |s|
  {
    if s == "" then true
    else if s[0] != '\"' then Closed(s[1..])
    else match LiteralRest(s[1..])
      case Literal(n) => Closed(s[1 + n..])
      case Unclosed => false
  }

  /** The body of a literal in which the four characters behind each \u, hex digits or not, are no quote and no
      backslash: what the decoder skips with the escape is inside the literal. */
  predicate IsSpan(b: string)
    decreases |b|
  {
    if b == "" then true
    else if b[0] == '\"' || b[0] == '\0' then false
    else if b[0] != '\\' then IsSpan(b[1..])
    else if |b| < 2 || b[1] == '\0' then false
    else if b[1] != 'u' then IsSpan(b[2..])
    else |b| >= 6 && (forall i | 2 <= i < 6 :: b[i] !in {'\"', '\\', '\0'}) && IsSpan(b[6..])
  }

  /** Every literal, closed or not, has such a body. */
  predicate EscapesFit(s: string)
    decreases |s|
  {
    if s == "" then true
    else if s[0] != '\"' then EscapesFit(s[1..])
    else match LiteralRest(s[1..])
      case Literal(n) => IsSpan(s[1..n]) && EscapesFit(s[1 + n..])
      case Unclosed => IsSpan(s[1..])
  }

  predicate WellQuoted(s: string) {
    EscapesFit(s) && Closed(s)
  }

  /** Four hex digits behind each \u, as section 7 of RFC 8259 asks, are enough. */
  lemma {:induction false} BodyIsSpan(b: string)
    requires IsBody(b)
    ensures IsSpan(b)
    decreases |b|
  {
    if b != "" {
      if b[0] != '\\' {
        BodyIsSpan(b[1..]);
      } else if b[1] != 'u' {
        BodyIsSpan(b[2..]);
      } else {
        assert forall i | 2 <= i < 6 :: b[i] == b[2..6][i - 2];
        BodyIsSpan(b[6..]);
      }
    }
  }

  /** What can follow a value in a text that goes on parsing. */
  predicate EndsValue(u: string) {
    u == "" || u[0] as int <= 32 || u[0] == ',' || u[0] == ']' || u[0] == '}'
  }

  lemma {:induction false} NoQuotes(w: string, t: string)
    requires '\"' !in w
    ensures EscapesFit(w + t) == EscapesFit(t) && Closed(w + t) == Closed(t)
  {
    if w == "" {
      assert w + t == t;
    } else {
      assert (w + t)[1..] == w[1..] + t && w[0] in w;
      NoQuotes(w[1..], t);
    }
  }

  /** A visible piece goes through as it is. */
  lemma Through(x: string, t: string)
    requires Visible(x)
    ensures Minify(x + t) == Onto(x, Minify(t)) && WellQuoted(x + t) == WellQuoted(t)
  {
    MinifyVisible(x, t);
    NoQuotes(x, t);
  }

  // ----- white space -----

  /** Of the characters the parser skips, the minifier drops four and copies the others, which are skipped again. */
  lemma {:induction false} SpacePart(s: string) returns (w: string)
    requires WellQuoted(s)
    ensures Blank(w) && Minify(s) == Onto(w, Minify(Skip(s))) && WellQuoted(Skip(s))
    ensures Skip(s) == s ==> w == ""
    decreases |s|
  {
    w := "";
    if s != "" && s[0] as int <= 32 {
      var v := SpacePart(s[1..]);
      w := if IsSpace(s[0]) then v else [s[0]] + v;
      OntoOnto([s[0]], v, Minify(Skip(s)));
      assert |Skip(s)| < |s|;
    } else {
      OntoNothing(Minify(s));
    }
  }

  lemma OntoNothing(m: Minified)
    ensures Onto("", m) == m
  {
    if m.Minified? {
      assert "" + m.text == m.text;
    }
  }

  lemma SkipPast(w: string, y: string)
    requires Blank(w) && (y == "" || y[0] as int > 32)
    ensures Skip(w + y) == y
  {
    SkipBlank(w, y);
  }

  // ----- numbers -----

  predicate NumberText(x: string) {
    forall i | 0 <= i < |x| :: IsDigit(x[i]) || x[i] == '-' || x[i] == '+' || x[i] == '.' || x[i] == 'e' || x[i] == 'E'
  }

  lemma TextsJoin(a: string, b: string)
    requires NumberText(a) && NumberText(b)
    ensures NumberText(a + b) && Visible(a + b)
  {
  }

  lemma {:induction false} DigitsPart(n: nat, s: string, u: string) returns (x: string)
    requires u == "" || !IsDigit(u[0])
    ensures s == x + Digits(n, s).1 && NumberText(x) && (x == "" || IsDigit(x[0]))
    ensures Digits(n, x + u) == (Digits(n, s).0, u)
    ensures s != "" && IsDigit(s[0]) ==> x != ""
    decreases |s|
  {
    x := "";
    if s != "" && IsDigit(s[0]) {
      var m := n * 10 + (s[0] as int - '0' as int);
      var y := DigitsPart(m, s[1..], u);
      x := [s[0]] + y;
      ConsAssociate(s[0], y, Digits(m, s[1..]).1);
      assert s == [s[0]] + s[1..];
      ConsAssociate(s[0], y, u);
      assert ([s[0]] + (y + u))[1..] == y + u;
    } else {
      assert "" + u == u && "" + s == s;
    }
  }

  lemma IntegerPart(s: string, u: string) returns (x: string)
    requires u == "" || !IsDigit(u[0])
    ensures s == x + ParseInteger(s).1 && NumberText(x)
    ensures ParseInteger(x + u) == (ParseInteger(s).0, u)
    ensures s != "" && IsDigit(s[0]) ==> x != ""
  {
    var zero := if At(s, 0) == '0' then "0" else "";
    var t := s[|zero|..];
    var y := "";
    if '1' <= At(t, 0) <= '9' {
      y := DigitsPart(0, t, u);
      assert y[0] == t[0];
    } else {
      assert y + u == u && "" + t == t;
    }
    x := zero + y;
    assert s == zero + t;
    Associate(zero, y, ParseInteger(s).1);
    Associate(zero, y, u);
    IntegerRead(zero, y + u);
  }

  /** An optional zero is read off. */
  lemma IntegerRead(zero: string, t: string)
    requires zero == "0" || (zero == "" && At(t, 0) != '0')
    ensures ParseInteger(zero + t) == if '1' <= At(t, 0) <= '9' then Digits(0, t) else (0, t)
  {
    if zero == "0" {
      assert ("0" + t)[1..] == t;
    } else {
      assert "" + t == t;
    }
  }

  lemma FractionPart(n: nat, s: string, u: string) returns (x: string)
    requires u == "" || (!IsDigit(u[0]) && u[0] != '.')
    ensures var m := ParseFraction(n, s);
            && s == x + m.mrest && NumberText(x)
            && ParseFraction(n, x + u) == Mantissa(m.n, m.places, u)
            && (x == "" || x[0] == '.')
  {
    x := "";
    if At(s, 0) == '.' && IsDigit(At(s, 1)) {
      var y := DigitsPart(n, s[1..], u);
      x := "." + y;
      assert s == "." + s[1..];
      Associate(".", y, Digits(n, s[1..]).1);
      Associate(".", y, u);
      assert ("." + (y + u))[1..] == y + u;
      assert y[0] == s[1];
    } else {
      assert "" + u == u && "" + s == s;
    }
  }

  lemma ExponentPart(s: string, u: string) returns (x: string)
    requires EndsValue(u)
    ensures var e := ParseExponent(s);
            && s == x + e.erest && NumberText(x)
            && ParseExponent(x + u) == Exponent(e.scale, u)
            && (x == "" || x[0] == 'e' || x[0] == 'E')
  {
    x := "";
    if At(s, 0) == 'e' || At(s, 0) == 'E' {
      var head := s[..if At(s, 1) == '+' || At(s, 1) == '-' then 2 else 1];
      var t := s[|head|..];
      assert s == head + t;
      x := MarkedPart(head, t, u);
    } else {
      assert "" + u == u && "" + s == s;
    }
  }

  lemma MarkedPart(head: string, t: string, u: string) returns (x: string)
    requires 1 <= |head| <= 2 && (head[0] == 'e' || head[0] == 'E')
             && (|head| == 2 ==> head[1] == '+' || head[1] == '-')
    requires |head| == 1 ==> At(t, 0) != '+' && At(t, 0) != '-'
    requires EndsValue(u)
    ensures var e := ParseExponent(head + t);
            && head + t == x + e.erest && NumberText(x) && ParseExponent(x + u) == Exponent(e.scale, u)
            && x != "" && x[0] == head[0]
  {
    var y := DigitsPart(0, t, u);
    x := head + y;
    TextsJoin(head, y);
    Associate(head, y, Digits(0, t).1);
    Associate(head, y, u);
    ExponentRead(head, y, u, t);
    ExponentSelf(head, t);
  }

  lemma ExponentSelf(head: string, t: string)
    requires 1 <= |head| <= 2 && (head[0] == 'e' || head[0] == 'E')
             && (|head| == 2 ==> head[1] == '+' || head[1] == '-')
    requires |head| == 1 ==> At(t, 0) != '+' && At(t, 0) != '-'
    ensures ParseExponent(head + t)
         == Exponent(if |head| == 2 && head[1] == '-' then 0 - Digits(0, t).0 else Digits(0, t).0, Digits(0, t).1)
  {
    var s := head + t;
    assert s[|head|..] == t && s[0] == head[0];
    if |head| == 2 {
      assert s[1] == head[1];
    } else {
      assert At(s, 1) == At(t, 0);
    }
  }

  lemma ExponentRead(head: string, y: string, u: string, t: string)
    requires 1 <= |head| <= 2 && (head[0] == 'e' || head[0] == 'E')
             && (|head| == 2 ==> head[1] == '+' || head[1] == '-')
    requires EndsValue(u) && Digits(0, y + u) == (Digits(0, t).0, u) && (y == "" || IsDigit(y[0]))
    ensures ParseExponent(head + (y + u))
         == Exponent(if |head| == 2 && head[1] == '-' then 0 - Digits(0, t).0 else Digits(0, t).0, u)
  {
    assert y + u != "" ==> (y + u)[0] == if y != "" then y[0] else u[0];
    ExponentSelf(head, y + u);
  }

  /** A number's text has no white space in it and ends where it ended before. */
  lemma NumberPart(s: string, u: string) returns (x: string)
    requires s != "" && (s[0] == '-' || IsDigit(s[0])) && EndsValue(u)
    ensures s == x + ParseNumber(s).1 && Visible(x) && x != "" && x[0] == s[0]
    ensures ParseNumber(x + u) == (ParseNumber(s).0, u)
  {
    var sign := if s[0] == '-' then "-" else "";
    var s0 := s[|sign|..];
    assert s == sign + s0;
    NumberRead(sign, s0);
    var d := UnsignedPart(sign == "-", s0, u);
    x := sign + d;
    TextsJoin(sign, d);
    Associate(sign, d, Unsigned(sign == "-", s0).1);
    Associate(sign, d, u);
    if sign == "" {
      assert d[0] == s0[0];
      assert At(d + u, 0) == d[0];
    }
    NumberRead(sign, d + u);
  }

  /** A number without its sign. */
  function Unsigned(minus: bool, t: string): (real, string) {
    var (n, s1) := ParseInteger(t);
    var r := AfterInteger(n, s1);
    (Scaled(minus, r.0, r.1), r.2)
  }

  /** Fraction and exponent: the digits as one number, its scale, and the rest. */
  function AfterInteger(n: nat, s: string): (nat, int, string) {
    var m := ParseFraction(n, s);
    var e := ParseExponent(m.mrest);
    (m.n, e.scale - m.places, e.erest)
  }

  lemma UnsignedPart(minus: bool, t: string, u: string) returns (x: string)
    requires EndsValue(u)
    ensures t == x + Unsigned(minus, t).1 && NumberText(x)
    ensures Unsigned(minus, x + u) == (Unsigned(minus, t).0, u)
    ensures t != "" && IsDigit(t[0]) ==> x != "" && x[0] == t[0]
  {
    var (n, s1) := ParseInteger(t);
    var w := AfterIntegerPart(n, s1, u);
    var i := IntegerPart(t, w + u);
    x := i + w;
    Associate(i, w, AfterInteger(n, s1).2);
    Associate(i, w, u);
    TextsJoin(i, w);
    FirstOf(i, s1);
    FirstOf(i, w);
  }

  lemma AfterIntegerPart(n: nat, s: string, u: string) returns (x: string)
    requires EndsValue(u)
    ensures s == x + AfterInteger(n, s).2 && NumberText(x)
    ensures AfterInteger(n, x + u) == (AfterInteger(n, s).0, AfterInteger(n, s).1, u)
    ensures x + u == "" || !IsDigit((x + u)[0])
  {
    var m := ParseFraction(n, s);
    var z := ExponentPart(m.mrest, u);
    FirstOf(z, u);
    var y := FractionPart(n, s, z + u);
    FirstOf(y, z + u);
    x := y + z;
    Associate(y, z, ParseExponent(m.mrest).erest);
    Associate(y, z, u);
    TextsJoin(y, z);
  }

  lemma ThreeText(a: string, b: string, c: string, u: string)
    ensures (a + (b + c)) + u == a + (b + (c + u))
  {
    Associate(a, b + c, u);
    Associate(b, c, u);
  }

  lemma FirstOf(a: string, b: string)
    ensures a + b != "" ==> (a + b)[0] == if a != "" then a[0] else b[0]
    ensures a + b == "" ==> a == "" && b == ""
  {
  }

  lemma NumberRead(sign: string, t: string)
    requires sign == "-" || (sign == "" && At(t, 0) != '-')
    ensures ParseNumber(sign + t) == Unsigned(sign == "-", t)
  {
    if sign == "-" {
      assert ("-" + t)[1..] == t;
    } else {
      assert "" + t == t;
    }
  }

  // ----- strings -----

  /** A turn of the second scan ends where a character or an escape ends, and what follows the body does not matter. */
  lemma TurnInSpan(b: string, t: string)
    requires IsSpan(b) && b != ""
    ensures NextTurn(b).Turn? && IsSpan(b[NextTurn(b).used..])
    ensures var s := b + "\"" + t;
            && s[0] == b[0] && NextTurn(s) == NextTurn(b)
            && s[NextTurn(b).used..] == b[NextTurn(b).used..] + "\"" + t
  {
    var s := b + "\"" + t;
    Tail(b, NextTurn(b).used, t);
    if b[0] == '\\' {
      assert s[1] == b[1];
      if b[1] == 'u' {
        UnitInSpan(b, t);
      }
    }
  }

  lemma UnitInSpan(b: string, t: string)
    requires IsSpan(b) && |b| >= 6 && b[0] == '\\' && b[1] == 'u'
    ensures NextTurn(b).Turn? && IsSpan(b[NextTurn(b).used..]) && NextTurn(b + "\"" + t) == NextTurn(b)
  {
    var s, rest := b + "\"" + t, b[6..];
    UnitText(b, t);
    if At(rest, 0) == '\\' && At(rest, 1) == 'u' {
      assert rest[6..] == b[12..];
      if IsHigh(Hex4(b[2..6])) {
        assert NextTurn(s) == NextTurn(b) && NextTurn(b).used == 12;
      }
    }
  }

  lemma UnitText(b: string, t: string)
    requires IsSpan(b) && |b| >= 6 && b[0] == '\\' && b[1] == 'u'
    ensures var s, rest := b + "\"" + t, b[6..];
            && s[0] == b[0] && s[1] == b[1] && s[2..6] == b[2..6] && |s| > |b|
            && (At(rest, 0) == '\\' <==> At(s, 6) == '\\') && (At(b, 6) == '\\' <==> At(s, 6) == '\\')
            && (At(rest, 0) == '\\' ==> |rest| >= 2 && At(s, 7) == At(b, 7) == At(rest, 1))
            && (At(rest, 0) == '\\' && At(rest, 1) == 'u' ==> |b| >= 12 && s[8..12] == b[8..12])
  {
    var rest := b[6..];
    assert rest == "" || At(b + "\"" + t, 6) == rest[0];
  }

  /** The first scan counts at least as many characters as a turn writes bytes. */
  lemma CountInSpan(b: string, t: string) returns (k: nat)
    requires IsSpan(b) && b != "" && NextTurn(b).Turn?
    ensures k >= |NextTurn(b).bytes|
    ensures Count(b + "\"" + t) == Longer(k, Count(b[NextTurn(b).used..] + "\"" + t))
  {
    var s, used := b + "\"" + t, NextTurn(b).used;
    Tail(b, 1, t);
    k := 1;
    if b[0] == '\\' {
      assert s[1] == b[1];
      Tail(b, 2, t);
      if b[1] == 'u' {
        k := 5;
        CountUnit4(b, t);
        if used == 12 {
          k := 10;
          var rest := b[6..];
          assert At(b, 6) == At(rest, 0) && At(b, 7) == At(rest, 1) && rest[6..] == b[12..];
          CountUnit4(rest, t);
        }
      }
    }
  }

  lemma CountUnit4(b: string, t: string)
    requires IsSpan(b) && |b| >= 6 && b[0] == '\\' && b[1] == 'u'
    ensures Count(b + "\"" + t) == Longer(5, Count(b[6..] + "\"" + t))
  {
    var more := b[6..] + "\"" + t;
    assert b + "\"" + t == "\\u" + (b[2..6] + more);
    assert ("\\u" + (b[2..6] + more))[2..] == b[2..6] + more;
    assert '\\' !in b[2..6] && '\"' !in b[2..6];
    CountPlain(b[2..6], more);
  }

  /** So both scans see the closing quote at the same place, and the text depends on the body alone: it is what the
      second scan makes of the body without a closing quote. */
  lemma {:induction false} SpanScans(b: string, t: string)
    requires IsSpan(b)
    ensures Decode(b).Text? && Decode(b).rest == "" && Decode(b + "\"" + t) == Text(Decode(b).text, t)
    ensures Count(b + "\"" + t).Counted? && |Decode(b).text| <= Count(b + "\"" + t).len
    decreases |b|
  {
    if b == "" {
      assert b + "\"" + t == "\"" + t && ("\"" + t)[1..] == t;
    } else {
      TurnInSpan(b, t);
      SpanScans(b[NextTurn(b).used..], t);
      var k := CountInSpan(b, t);
    }
  }

  lemma ParseSpan(b: string, t: string, u: string)
    requires IsSpan(b)
    ensures var r := ParseString("\"" + (b + "\"" + t));
            r.Text? && r.rest == t && ParseString("\"" + (b + "\"" + u)) == Text(r.text, u)
  {
    SpanScans(b, t);
    SpanScans(b, u);
    assert ("\"" + (b + "\"" + t))[1..] == b + "\"" + t && ("\"" + (b + "\"" + u))[1..] == b + "\"" + u;
  }

  lemma {:induction false} LiteralEnds(s: string)
    requires LiteralRest(s).Literal?
    ensures s[LiteralRest(s).len - 1] == '\"'
    decreases |s|
  {
    if s[0] == '\\' {
      LiteralEnds(s[2..]);
    } else if s[0] != '\"' {
      LiteralEnds(s[1..]);
    }
  }

  /** A closed literal: its body, its quote, and the rest. */
  lemma LiteralSplit(s: string) returns (n: nat)
    requires WellQuoted(s) && s != "" && s[0] == '\"'
    ensures 1 <= n < |s| && s[n] == '\"' && s == "\"" + (s[1..n] + "\"" + s[1 + n..])
    ensures IsSpan(s[1..n]) && WellQuoted(s[1 + n..]) && Minify(s) == Onto(s[..1 + n], Minify(s[1 + n..]))
  {
    n := LiteralRest(s[1..]).len;
    LiteralEnds(s[1..]);
    assert s[1..][n - 1] == s[n];
    LiteralText(s, n, s[1 + n..]);
  }

  /** Both see the literal end at the same quote. */
  lemma StringPart(s: string, u: string) returns (x: string)
    requires WellQuoted(s) && ParseString(s).Text?
    ensures var r := ParseString(s);
            && Minify(s) == Onto(x, Minify(r.rest)) && WellQuoted(r.rest)
            && ParseString(x + u) == Text(r.text, u) && x != "" && x[0] == '\"'
  {
    var n := LiteralSplit(s);
    ParseSpan(s[1..n], s[1 + n..], u);
    x := s[..1 + n];
    QuotedText(s, n, u);
  }

  lemma QuotedText(s: string, n: nat, u: string)
    requires 1 <= n < |s| && s[0] == '\"' && s[n] == '\"'
    ensures s[..1 + n] + u == "\"" + (s[1..n] + "\"" + u)
  {
  }

  lemma LiteralText(s: string, n: nat, t: string)
    requires 1 <= n < |s| && s[0] == '\"' && s[n] == '\"' && t == s[1 + n..]
    ensures s == "\"" + (s[1..n] + "\"" + t)
  {
  }

  // ----- values -----

  lemma ValueStarts(s: string)
    requires ParseValue(s).Parsed?
    ensures s != "" && s[0] as int > 32 && s[0] != ']' && s[0] != '}'
  {
  }

  lemma WordPart(word: string, s: string, v: Json, u: string)
    requires word in {"null", "false", "true"} && word <= s && ParseValue(s) == Parsed(v, s[|word|..])
    requires v == if word == "null" then Null else Bool(word == "true")
    ensures Minify(s) == Onto(word, Minify(s[|word|..])) && WellQuoted(s) == WellQuoted(s[|word|..])
    ensures ParseValue(word + u) == Parsed(v, u)
  {
    var t := s[|word|..];
    assert s == word + t;
    Through(word, t);
    assert (word + u)[|word|..] == u;
    assert (word + u)[0] == word[0];
  }

  lemma NumberValue(s: string)
    requires s != "" && (s[0] == '-' || IsDigit(s[0]))
    ensures ParseValue(s) == Parsed(Number(ParseNumber(s).0), ParseNumber(s).1)
  {
  }

  lemma StringValue(s: string)
    requires ParseString(s).Text?
    ensures ParseValue(s) == Parsed(String(ParseString(s).text), ParseString(s).rest)
  {
  }

  lemma OpenValue(c: char, t: string)
    requires c == '[' || c == '{'
    ensures ParseValue([c] + t) == Inside(c, Skip(t))
  {
    assert ([c] + t)[0] == c && ([c] + t)[1..] == t;
  }

  /** The value parsed from s, and the text that is left of it: x. Before any u that can follow a value, x is read as
      the same value. */
  lemma {:induction false} ValuePart(s: string, u: string) returns (x: string)
    requires ParseValue(s).Parsed? && WellQuoted(s) && EndsValue(u)
    ensures var r := ParseValue(s);
            Minify(s) == Onto(x, Minify(r.rest)) && WellQuoted(r.rest) && ParseValue(x + u) == Parsed(r.value, u)
    decreases |s|, 1
  {
    ValueStarts(s);
    if "null" <= s {
      x := "null";
      WordPart(x, s, Null, u);
    } else if "false" <= s {
      x := "false";
      WordPart(x, s, Bool(false), u);
    } else if "true" <= s {
      x := "true";
      WordPart(x, s, Bool(true), u);
    } else if s[0] == '\"' {
      x := StringPart(s, u);
      StringValue(s);
      StringValue(x + u);
    } else if s[0] == '-' || IsDigit(s[0]) {
      x := NumberPart(s, u);
      Through(x, ParseNumber(s).1);
      NumberValue(s);
      NumberValue(x + u);
    } else {
      x := BracketPart(s, u);
    }
  }

  lemma {:induction false} BracketPart(s: string, u: string) returns (x: string)
    requires s != "" && (s[0] == '[' || s[0] == '{') && ParseValue(s).Parsed? && WellQuoted(s)
    ensures var r := ParseValue(s);
            Minify(s) == Onto(x, Minify(r.rest)) && WellQuoted(r.rest) && ParseValue(x + u) == Parsed(r.value, u)
    decreases |s|, 0
  {
    var c, t := s[0], s[1..];
    assert s == [c] + t;
    OpenValue(c, t);
    Through([c], t);
    var w := SpacePart(t);
    SkipTwice(t);
    var y := InsidePart(c, Skip(t), u);
    x := [c] + (w + y);
    OntoThree([c], w, y, Minify(ParseValue(s).rest));
    ThreeText([c], w, y, u);
    OpenValue(c, w + (y + u));
    SkipPast(w, y + u);
  }

  /** An array or an object behind its bracket and white space. */
  lemma {:induction false} InsidePart(c: char, t: string, u: string) returns (x: string)
    requires (c == '[' || c == '{') && Inside(c, t).Parsed? && WellQuoted(t) && Skip(t) == t
    ensures var r := Inside(c, t);
            Minify(t) == Onto(x, Minify(r.rest)) && WellQuoted(r.rest) && Inside(c, x + u) == Parsed(r.value, u)
    ensures x + u != "" && (x + u)[0] as int > 32
    decreases |t|, 4
  {
    if c == '[' {
      x := ArrayPart(t, u);
    } else {
      x := ObjectPart(t, u);
    }
  }

  function Inside(c: char, t: string): Parsed {
    if c == '[' then ParseArray(t) else ParseObject(t)
  }

  lemma OntoThree(a: string, b: string, c: string, m: Minified)
    ensures Onto(a, Onto(b, Onto(c, m))) == Onto(a + (b + c), m)
  {
    OntoOnto(b, c, m);
    OntoOnto(a, b + c, m);
  }

  lemma {:induction false} ArrayPart(t: string, u: string) returns (x: string)
    requires ParseArray(t).Parsed? && WellQuoted(t) && Skip(t) == t
    ensures var r := ParseArray(t);
            Minify(t) == Onto(x, Minify(r.rest)) && WellQuoted(r.rest) && ParseArray(x + u) == Parsed(r.value, u)
    ensures x != "" && x[0] as int > 32
    decreases |t|, 3
  {
    if At(t, 0) == ']' {
      x := "]";
      assert t == "]" + t[1..];
      Through("]", t[1..]);
      assert ("]" + u)[1..] == u;
    } else {
      x := ItemsPart(t, u);
    }
  }

  lemma {:induction false} ObjectPart(t: string, u: string) returns (x: string)
    requires ParseObject(t).Parsed? && WellQuoted(t) && Skip(t) == t
    ensures var r := ParseObject(t);
            Minify(t) == Onto(x, Minify(r.rest)) && WellQuoted(r.rest) && ParseObject(x + u) == Parsed(r.value, u)
    ensures x != "" && x[0] as int > 32
    decreases |t|, 3
  {
    if At(t, 0) == '}' {
      x := "}";
      assert t == "}" + t[1..];
      Through("}", t[1..]);
      assert ("}" + u)[1..] == u;
    } else {
      x := MembersPart(t, u);
    }
  }

  /** The rest of a list after a value: white space, then a comma and more, or the closing bracket. */
  lemma ListEnd(w: string, tail: string, u: string)
    requires Blank(w) && tail != "" && tail[0] in {',', ']', '}', ':'}
    ensures Skip(w + (tail + u)) == tail + u
    ensures tail[0] != ':' ==> EndsValue(w + (tail + u))
  {
    SkipPast(w, tail + u);
    assert w != "" ==> (w + (tail + u))[0] == w[0];
    assert w == "" ==> w + (tail + u) == tail + u;
  }

  lemma {:induction false} ItemsPart(s: string, u: string) returns (x: string)
    requires ParseItems(s).ParsedItems? && WellQuoted(s)
    ensures var r := ParseItems(s);
            Minify(s) == Onto(x, Minify(r.irest)) && WellQuoted(r.irest) && ParseItems(x + u) == ParsedItems(r.items, u)
    ensures Skip(s) == s ==> x != "" && x[0] as int > 32 && x[0] != ']'
    decreases |s|, 2
  {
    var w0 := SpacePart(s);
    var p := Skip(s);
    var v, after := ParseValue(p).value, ParseValue(p).rest;
    var turn := JsonReader.NextItem(s);
    var _ := ValuePart(p, "");
    var w1 := SpacePart(after);
    var tail := ItemsTail(v, Skip(after), u);
    ListEnd(w1, tail, u);
    var u1 := w1 + (tail + u);
    var x1 := ValuePart(p, u1);
    ValueStarts(x1 + u1);
    ValueNotEmpty(x1, u1, v);
    x := w0 + (x1 + (w1 + tail));
    OntoFour(w0, x1, w1, tail, Minify(ParseItems(s).irest));
    FourText(w0, x1, w1, tail, u);
    SkipPast(w0, x1 + u1);
    turn := JsonReader.NextItem(x + u);
  }

  /** Something is left of every value. */
  lemma ValueNotEmpty(x: string, u: string, v: Json)
    requires ParseValue(x + u) == Parsed(v, u)
    ensures x != "" && x[0] == (x + u)[0]
  {
    assert |u| < |x + u|;
  }

  lemma FourText(a: string, b: string, c: string, d: string, u: string)
    ensures (a + (b + (c + d))) + u == a + (b + (c + (d + u)))
  {
    Associate(a, b + (c + d), u);
    Associate(b, c + d, u);
    Associate(c, d, u);
  }

  lemma OntoFour(a: string, b: string, c: string, d: string, m: Minified)
    ensures Onto(a, Onto(b, Onto(c, Onto(d, m)))) == Onto(a + (b + (c + d)), m)
  {
    OntoThree(b, c, d, m);
    OntoOnto(a, b + (c + d), m);
  }

  /** What follows an element: a comma and more, or the closing bracket. */
  lemma {:induction false} ItemsTail(v: Json, t: string, u: string) returns (tail: string)
    requires JsonReader.AfterItem(v, t).ParsedItems? && WellQuoted(t)
    ensures tail != "" && (tail[0] == ',' || tail[0] == ']')
    ensures var r := JsonReader.AfterItem(v, t);
            && Minify(t) == Onto(tail, Minify(r.irest)) && WellQuoted(r.irest)
            && JsonReader.AfterItem(v, tail + u) == ParsedItems(r.items, u)
    decreases |t|, 3
  {
    var c, more := [t[0]], t[1..];
    assert t == c + more;
    Through(c, more);
    if t[0] == ',' {
      var y := ItemsPart(more, u);
      tail := c + y;
      OntoOnto(c, y, Minify(ParseItems(more).irest));
      Associate(c, y, u);
      assert (c + (y + u))[1..] == y + u;
    } else {
      tail := c;
      assert (c + u)[1..] == u;
    }
  }

  lemma {:induction false} MembersPart(s: string, u: string) returns (x: string)
    requires ParseMembers(s).ParsedMembers? && WellQuoted(s)
    ensures var r := ParseMembers(s);
            Minify(s) == Onto(x, Minify(r.mrest)) && WellQuoted(r.mrest) &&
            ParseMembers(x + u) == ParsedMembers(r.members, u)
    ensures Skip(s) == s ==> x != "" && x[0] as int > 32 && x[0] != '}'
    decreases |s|, 2
  {
    var turn := JsonReader.NextMember(s);
    var name, colon := JsonReader.NextName(s).name, JsonReader.NextName(s).t;
    var v, after := ParseValue(Skip(colon)).value, ParseValue(Skip(colon)).rest;
    var _ := NamePart(s, "");
    var w2 := SpacePart(colon);
    var _ := ValuePart(Skip(colon), "");
    var w3 := SpacePart(after);
    var tail := MembersTail(name, v, Skip(after), u);
    ListEnd(w3, tail, u);
    var u3 := w3 + (tail + u);
    var xv := ValuePart(Skip(colon), u3);
    ValueStarts(xv + u3);
    SkipPast(w2, xv + u3);
    var xn := NamePart(s, w2 + (xv + u3));
    x := xn + (w2 + (xv + (w3 + tail)));
    OntoFive(xn, w2, xv, w3, tail, Minify(ParseMembers(s).mrest));
    Associate(xn, w2 + (xv + (w3 + tail)), u);
    FourText(w2, xv, w3, tail, u);
    turn := JsonReader.NextMember(x + u);
  }

  lemma OntoFive(a: string, b: string, c: string, d: string, e: string, m: Minified)
    ensures Onto(a, Onto(b, Onto(c, Onto(d, Onto(e, m))))) == Onto(a + (b + (c + (d + e))), m)
  {
    OntoFour(b, c, d, e, m);
    OntoOnto(a, b + (c + (d + e)), m);
  }

  /** A name and its colon. */
  lemma NamePart(s: string, u: string) returns (x: string)
    requires JsonReader.NextName(s).NameTurn? && WellQuoted(s)
    ensures var r := JsonReader.NextName(s);
            Minify(s) == Onto(x, Minify(r.t)) && WellQuoted(r.t) &&
            JsonReader.NextName(x + u) == JsonReader.NameTurn(r.name, u)
    ensures x != "" && (Skip(s) == s ==> x[0] == '\"')
  {
    var w0 := SpacePart(s);
    var p := Skip(s);
    var after := ParseString(p).rest;
    var _ := StringPart(p, "");
    var w1 := SpacePart(after);
    var c := Skip(after);
    assert c == ":" + c[1..];
    Through(":", c[1..]);
    ListEnd(w1, ":", u);
    var xs := StringPart(p, w1 + (":" + u));
    x := w0 + (xs + (w1 + ":"));
    OntoFour(w0, xs, w1, ":", Minify(c[1..]));
    FourText(w0, xs, w1, ":", u);
    SkipPast(w0, xs + (w1 + (":" + u)));
    assert (":" + u)[1..] == u;
  }

  /** What follows a member: a comma and more, or the closing brace. */
  lemma {:induction false} MembersTail(name: string, v: Json, t: string, u: string) returns (tail: string)
    requires JsonReader.AfterMember(name, v, t).ParsedMembers? && WellQuoted(t)
    ensures tail != "" && (tail[0] == ',' || tail[0] == '}')
    ensures var r := JsonReader.AfterMember(name, v, t);
            && Minify(t) == Onto(tail, Minify(r.mrest)) && WellQuoted(r.mrest)
            && JsonReader.AfterMember(name, v, tail + u) == ParsedMembers(r.members, u)
    decreases |t|, 3
  {
    var c, more := [t[0]], t[1..];
    assert t == c + more;
    Through(c, more);
    if t[0] == ',' {
      var y := MembersPart(more, u);
      tail := c + y;
      OntoOnto(c, y, Minify(ParseMembers(more).mrest));
      Associate(c, y, u);
      assert (c + (y + u))[1..] == y + u;
    } else {
      tail := c;
      assert (c + u)[1..] == u;
    }
  }

  // ----- documents -----

  /** Minifying a whole document, white space anywhere between its tokens, changes nothing that the parser sees. */
  lemma MinifyKeepsMeaning(s: string)
    requires ParseDocument(s, true).Parsed? && WellQuoted(s)
    ensures Minify(s).Minified? && ParseDocument(Minify(s).text, true) == ParseDocument(s, true)
  {
    var w := SpacePart(s);
    var p := Skip(s);
    var r := ParseValue(p);
    var _ := ValuePart(p, "");
    var e := SpacePart(r.rest);
    assert Skip(r.rest) == "" && Minify("") == Minified("");
    assert EndsValue(e);
    var x := ValuePart(p, e);
    ValueStarts(x + e);
    SkipPast(w, x + e);
    OntoThree(w, x, e, Minified(""));
    assert (w + (x + e)) + "" == w + (x + e) && e + "" == e;
    SkipPast(e, "");
  }
}
