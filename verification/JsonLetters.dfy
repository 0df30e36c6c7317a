/** What the characters between the quotes of a JSON string stand for (section 7 of RFC 8259), in numbers that are
    independent of the parser. */
module JsonLetters {
  import opened CStrings
  import opened JsonStrings
  import opened JsonMinifyMeaning
  import opened Numerals
  import Utf8

  /** One character as it is, a backslash and a character, a \u with four hex digits that write ds, or a \u with four
      other characters. */
  datatype Letter = Byte(c: char) | Short(c: char) | Code(digits: string, ds: seq<nat>) | Broken(chars: string)

  predicate IsHexDigit(c: char) {
    c in "0123456789abcdefABCDEF"
  }

  /** No quote, and no terminator. Control characters and backslashes before any character are taken as they come. */
  ghost predicate Proper(l: Letter) {
    match l
    case Byte(c) => c != '\"' && c != '\\' && c != '\0'
    case Short(c) => c != 'u' && c != '\0'
    case Code(digits, ds) => |ds| == 4 && Writes(digits, ds, 16)
    case Broken(chars) =>
      && |chars| == 4 && '\"' !in chars && '\\' !in chars && '\0' !in chars
      && exists i | 0 <= i < 4 :: !IsHexDigit(chars[i])
  }

  ghost predicate AllProper(ls: seq<Letter>) {
    forall i | 0 <= i < |ls| :: Proper(ls[i])
  }

  function Spelling(l: Letter): string {
    match l
    case Byte(c) => [c]
    case Short(c) => ['\\', c]
    case Code(digits, _) => "\\u" + digits
    case Broken(chars) => "\\u" + chars
  }

  function Written(ls: seq<Letter>): string {
    if ls == [] then "" else Spelling(ls[0]) + Written(ls[1..])
  }

  /** The table of section 7, by character codes; any other character stands for itself. */
  function ShortFor(c: char): char {
    if c == '\"' then 0x22 as char
    else if c == '\\' then 0x5C as char
    else if c == '/' then 0x2F as char
    else if c == 'b' then 0x08 as char
    else if c == 'f' then 0x0C as char
    else if c == 'n' then 0x0A as char
    else if c == 'r' then 0x0D as char
    else if c == 't' then 0x09 as char
    else c
  }

  /** A byte, or a UTF-16 unit. What is no number counts as zero. */
  function Sense(l: Letter): Piece {
    match l
    case Byte(c) => Raw(c)
    case Short(c) => Raw(ShortFor(c))
    case Code(_, ds) => Unit(Positional(ds, 16) % 0x1_0000)
    case Broken(_) => Unit(0)
  }

  function Senses(ls: seq<Letter>): seq<Piece> {
    if ls == [] then [] else [Sense(ls[0])] + Senses(ls[1..])
  }

  // ----- one letter -----

  lemma HexDigitValue(c: char, d: nat)
    requires d < 16 && (c == "0123456789abcdef"[d] || c == "0123456789ABCDEF"[d])
    ensures HexValue(c) == d
  {
  }

  lemma FourDigits(ds: seq<nat>)
    requires |ds| == 4 && forall i | 0 <= i < 4 :: ds[i] < 16
    ensures Positional(ds, 16) == ((ds[0] * 16 + ds[1]) * 16 + ds[2]) * 16 + ds[3] < 0x1_0000
  {
    assert ds == [ds[0]] + [ds[1]] + [ds[2]] + [ds[3]];
    PositionalSnoc([ds[0]] + [ds[1]] + [ds[2]], ds[3], 16);
    PositionalSnoc([ds[0]] + [ds[1]], ds[2], 16);
    PositionalSnoc([ds[0]], ds[1], 16);
    PositionalSnoc([], ds[0], 16);
    assert [] + [ds[0]] == [ds[0]];
  }

  /** Four hex digits are read as the number they write. */
  lemma Hex4Reads(digits: string, ds: seq<nat>)
    requires |ds| == 4 && Writes(digits, ds, 16)
    ensures IsHex4(digits) && Hex4(digits) == Positional(ds, 16) < 0x1_0000
  {
    forall i | 0 <= i < 4
      ensures HexValue(digits[i]) == ds[i]
    {
      HexDigitValue(digits[i], ds[i]);
    }
    FourDigits(ds);
  }

  lemma HexDigitsOnly(c: char)
    ensures HexValue(c) >= 0 <==> IsHexDigit(c)
  {
  }

  /** And only hex digits are. */
  lemma Hex4Digits(digits: string) returns (ds: seq<nat>)
    requires IsHex4(digits)
    ensures |ds| == 4 && Writes(digits, ds, 16)
  {
    ds := seq(4, i requires 0 <= i < 4 => HexValue(digits[i]));
    forall i | 0 <= i < 4
      ensures digits[i] == "0123456789abcdef"[ds[i]] || digits[i] == "0123456789ABCDEF"[ds[i]]
    {
      HexDigitOf(digits[i]);
    }
  }

  lemma HexDigitOf(c: char)
    requires HexValue(c) >= 0
    ensures HexValue(c) < 16 && (c == "0123456789abcdef"[HexValue(c)] || c == "0123456789ABCDEF"[HexValue(c)])
  {
  }

  lemma ShortReads(c: char)
    ensures Unescaped(c) == ShortFor(c)
  {
  }

  // ----- many letters -----

  /** s begins with a \u whose four characters are read as u; t is the rest. */
  predicate Begins(s: string, u: nat, t: string) {
    |s| >= 6 && s[0] == '\\' && s[1] == 'u' && Hex4(s[2..6]) == u && s[6..] == t
  }

  lemma FirstPlain(l: Letter, t: string)
    requires Proper(l) && Sense(l).Raw?
    ensures var s := Spelling(l) + t;
            && Decode(s) == Before([Sense(l).c], Decode(t)) && (IsSpan(s) <==> IsSpan(t))
            && !(At(s, 0) == '\\' && At(s, 1) == 'u')
  {
    PrefixOfConcat(Spelling(l), t);
    if l.Short? {
      ShortReads(l.c);
    }
  }

  lemma FirstUnit(l: Letter, t: string)
    requires Proper(l) && Sense(l).Unit?
    ensures Begins(Spelling(l) + t, Sense(l).u, t) && (IsSpan(Spelling(l) + t) <==> IsSpan(t))
  {
    var d := FourOf(l);
    CodeText(d, t);
  }

  /** The four characters behind the \u. */
  lemma FourOf(l: Letter) returns (d: string)
    requires Proper(l) && Sense(l).Unit?
    ensures |d| == 4 && Spelling(l) == "\\u" + d && Hex4(d) == Sense(l).u
    ensures forall i | 0 <= i < 4 :: d[i] !in {'\"', '\\', '\0'}
  {
    d := if l.Code? then l.digits else l.chars;
    if l.Code? {
      Hex4Reads(d, l.ds);
      WritesPlain(d, l.ds);
    } else {
      NoHex(d);
      assert forall i | 0 <= i < 4 :: d[i] in d;
    }
  }

  lemma CodeText(d: string, t: string)
    requires |d| == 4
    ensures var s := "\\u" + d + t;
            && s[0] == '\\' && s[1] == 'u' && s[2..6] == d && s[6..] == t && |s| >= 6
            && forall i | 2 <= i < 6 :: s[i] == d[i - 2]
  {
  }

  lemma NoHex(chars: string)
    requires |chars| == 4 && exists i | 0 <= i < 4 :: !IsHexDigit(chars[i])
    ensures Hex4(chars) == 0
  {
    var i :| 0 <= i < 4 && !IsHexDigit(chars[i]);
    HexDigitsOnly(chars[i]);
  }

  lemma WritesPlain(digits: string, ds: seq<nat>)
    requires Writes(digits, ds, 16)
    ensures forall i | 0 <= i < |digits| :: digits[i] !in {'\"', '\\', '\0'}
  {
  }

  lemma {:induction false} WrittenIsSpan(ls: seq<Letter>)
    requires AllProper(ls)
    ensures IsSpan(Written(ls))
  {
    if ls != [] {
      WrittenIsSpan(ls[1..]);
      if Sense(ls[0]).Raw? {
        FirstPlain(ls[0], Written(ls[1..]));
      } else {
        FirstUnit(ls[0], Written(ls[1..]));
      }
    }
  }

  // ----- units -----

  /** A unit that is no high one, or that no unit follows. */
  lemma UnitAlone(s: string, u: nat, t: string)
    requires Begins(s, u, t) && (0xD800 <= u < 0xDC00 ==> !(At(t, 0) == '\\' && At(t, 1) == 'u'))
    ensures Decode(s) == Before(if u == 0 || 0xD800 <= u < 0xE000 then "" else Utf8.Encode(u), Decode(t))
  {
    assert At(s, 6) == At(t, 0) && At(s, 7) == At(t, 1);
  }

  /** A high unit and the unit after it. */
  lemma UnitPair(s: string, u: nat, t: string, v: nat, rest: string)
    requires Begins(s, u, t) && Begins(t, v, rest) && 0xD800 <= u < 0xDC00
    ensures Decode(s) == Before(if 0xDC00 <= v < 0xE000 then Utf8.Encode(Paired(u, v)) else "", Decode(rest))
  {
    Drop12(s, t, rest);
    JoinIsPaired(u, v);
  }

  /** The code point of a pair. */
  function Paired(hi: nat, lo: nat): (c: nat)
    requires 0xD800 <= hi < 0xDC00 && 0xDC00 <= lo < 0xE000
    ensures c < 0x11_0000
  {
    0x1_0000 + (hi - 0xD800) * 0x400 + (lo - 0xDC00)
  }

  /** The scalar values are what UTF-16 can write: a unit that is no surrogate, or a pair. */
  lemma ScalarsArePaired(c: nat)
    ensures Utf8.IsScalar(c) <==>
              || (c < 0x1_0000 && !(0xD800 <= c < 0xE000))
              || exists hi: nat, lo: nat :: 0xD800 <= hi < 0xDC00 && 0xDC00 <= lo < 0xE000 && c == Paired(hi, lo)
  {
    if 0x1_0000 <= c < 0x11_0000 {
      var k := c - 0x1_0000;
      var hi, lo := 0xD800 + k / 0x400, 0xDC00 + k % 0x400;
      assert c == Paired(hi, lo);
    }
  }

  lemma JoinIsPaired(hi: nat, lo: nat)
    requires 0xD800 <= hi < 0xDC00
    ensures 0xDC00 <= lo < 0xE000 ==> Join(hi, lo) == Paired(hi, lo)
  {
    if 0xDC00 <= lo < 0xE000 {
      JoinSum(hi, lo);
    }
  }

  lemma Drop12(s: string, more: string, rest: string)
    requires |s| >= 6 && |more| >= 6 && s[6..] == more && more[6..] == rest
    ensures |s| >= 12 && s[12..] == rest && s[8..12] == more[2..6] && At(s, 6) == more[0] && At(s, 7) == more[1]
  {
    assert s[8..12] == s[6..][2..6] && s[12..] == s[6..][6..];
  }

  lemma MeaningAlone(u: utf16, ps: seq<Piece>)
    requires 0xD800 <= u < 0xDC00 ==> ps == [] || ps[0].Raw?
    ensures Meaning([Unit(u)] + ps) == (if u == 0 || 0xD800 <= u < 0xE000 then "" else Utf8.Encode(u)) + Meaning(ps)
  {
    var all := [Unit(u)] + ps;
    assert all[1..] == ps && "" + Meaning(ps) == Meaning(ps);
    assert |ps| > 0 ==> all[1] == ps[0];
  }

  lemma MeaningPair(u: utf16, v: utf16, ps: seq<Piece>)
    requires 0xD800 <= u < 0xDC00
    ensures Meaning([Unit(u)] + ([Unit(v)] + ps))
         == (if 0xDC00 <= v < 0xE000 then Utf8.Encode(Paired(u, v)) else "") + Meaning(ps)
  {
    var all := [Unit(u)] + ([Unit(v)] + ps);
    assert all[2..] == ps && all[1] == Unit(v);
    JoinIsPaired(u, v);
  }

  /** The second scan makes of the letters what their numbers mean as UTF-16. */
  lemma {:induction false} LettersDecode(ls: seq<Letter>)
    requires AllProper(ls)
    ensures Decode(Written(ls)) == Text(Meaning(Senses(ls)), "")
    decreases |ls|
  {
    if ls != [] {
      LettersDecode(ls[1..]);
      if Sense(ls[0]).Raw? {
        FirstPlain(ls[0], Written(ls[1..]));
        assert ([Sense(ls[0])] + Senses(ls[1..]))[1..] == Senses(ls[1..]);
      } else if |ls| > 1 && Sense(ls[1]).Unit? && 0xD800 <= Sense(ls[0]).u < 0xDC00 {
        LettersDecode(ls[2..]);
        PairDecodes(ls);
      } else {
        AloneDecodes(ls);
      }
    }
  }

  lemma PairDecodes(ls: seq<Letter>)
    requires AllProper(ls) && |ls| > 1 && Sense(ls[0]).Unit? && Sense(ls[1]).Unit? && 0xD800 <= Sense(ls[0]).u < 0xDC00
    requires Decode(Written(ls[2..])) == Text(Meaning(Senses(ls[2..])), "")
    ensures Decode(Written(ls)) == Text(Meaning(Senses(ls)), "")
  {
    assert ls[1..][1..] == ls[2..] && ls[1..][0] == ls[1];
    FirstUnit(ls[0], Written(ls[1..]));
    FirstUnit(ls[1], Written(ls[2..]));
    UnitPair(Written(ls), Sense(ls[0]).u, Written(ls[1..]), Sense(ls[1]).u, Written(ls[2..]));
    MeaningPair(Sense(ls[0]).u, Sense(ls[1]).u, Senses(ls[2..]));
  }

  lemma AloneDecodes(ls: seq<Letter>)
    requires AllProper(ls) && ls != [] && Sense(ls[0]).Unit?
    requires |ls| > 1 && Sense(ls[1]).Unit? ==> !(0xD800 <= Sense(ls[0]).u < 0xDC00)
    requires Decode(Written(ls[1..])) == Text(Meaning(Senses(ls[1..])), "")
    ensures Decode(Written(ls)) == Text(Meaning(Senses(ls)), "")
  {
    FirstUnit(ls[0], Written(ls[1..]));
    if |ls| > 1 && Sense(ls[1]).Raw? {
      assert ls[1..][0] == ls[1];
      FirstPlain(ls[1], Written(ls[1..][1..]));
    }
    UnitAlone(Written(ls), Sense(ls[0]).u, Written(ls[1..]));
    MeaningAlone(Sense(ls[0]).u, Senses(ls[1..]));
  }

  /** Every literal body without a quote or backslash right behind a \u is written in such letters. */
  lemma {:induction false} LettersOf(b: string) returns (ls: seq<Letter>)
    requires IsSpan(b)
    ensures AllProper(ls) && Written(ls) == b
    decreases |b|
  {
    if b == "" {
      ls := [];
    } else if b[0] != '\\' {
      var more := LettersOf(b[1..]);
      ls := [Byte(b[0])] + more;
      assert b == [b[0]] + b[1..];
    } else if b[1] != 'u' {
      var more := LettersOf(b[2..]);
      ls := [Short(b[1])] + more;
      assert b == ['\\', b[1]] + b[2..];
    } else {
      var more := LettersOf(b[6..]);
      var l := CodeOf(b[2..6]);
      ls := [l] + more;
      assert b == "\\u" + b[2..6] + b[6..];
    }
    assert ls == [] || ls[1..] == ls[1..];
  }

  lemma CodeOf(d: string) returns (l: Letter)
    requires |d| == 4 && forall i | 0 <= i < 4 :: d[i] !in {'\"', '\\', '\0'}
    ensures Proper(l) && Spelling(l) == "\\u" + d
  {
    if IsHex4(d) {
      var ds := Hex4Digits(d);
      l := Code(d, ds);
    } else {
      var i :| 0 <= i < 4 && HexValue(d[i]) < 0;
      HexDigitsOnly(d[i]);
      l := Broken(d);
    }
  }

  /** With four hex digits behind each \u, the pieces of the body are those of its letters. */
  lemma {:induction false} PiecesAreSenses(ls: seq<Letter>)
    requires AllProper(ls) && forall i | 0 <= i < |ls| :: !ls[i].Broken?
    ensures IsBody(Written(ls)) && Pieces(Written(ls)) == Senses(ls)
  {
    if ls != [] {
      var l, more := ls[0], Written(ls[1..]);
      PiecesAreSenses(ls[1..]);
      FirstPiece(l, more);
    }
  }

  lemma FirstPiece(l: Letter, t: string)
    requires Proper(l) && !l.Broken? && IsBody(t)
    ensures IsBody(Spelling(l) + t) && Pieces(Spelling(l) + t) == [Sense(l)] + Pieces(t)
  {
    if l.Code? {
      CodePiece(l.digits, l.ds, t);
    } else {
      PrefixOfConcat(Spelling(l), t);
      if l.Short? {
        ShortReads(l.c);
      }
    }
  }

  lemma CodePiece(digits: string, ds: seq<nat>, t: string)
    requires |ds| == 4 && Writes(digits, ds, 16) && IsBody(t)
    ensures var s := "\\u" + digits + t; IsBody(s) && Pieces(s) == [Unit(Positional(ds, 16) % 0x1_0000)] + Pieces(t)
  {
    CodeText(digits, t);
    Hex4Reads(digits, ds);
  }

  // ----- whole tokens -----

  /** A token is read as its letters mean, up to just past its quote. */
  lemma ParseLetters(ls: seq<Letter>, t: string)
    requires AllProper(ls)
    ensures ParseString("\"" + (Written(ls) + "\"" + t)) == Text(Meaning(Senses(ls)), t)
  {
    WrittenIsSpan(ls);
    LettersDecode(ls);
    SpanScans(Written(ls), t);
    assert ("\"" + (Written(ls) + "\"" + t))[1..] == Written(ls) + "\"" + t;
  }

  /** And where its bytes are well-formed UTF-8, what is read is the UTF-8 of its code points. */
  lemma ParseLettersSpells(ls: seq<Letter>, t: string)
    requires AllProper(ls) && WellSpelled(Senses(ls))
    ensures var r := ParseString("\"" + (Written(ls) + "\"" + t));
            r.Text? && r.rest == t && Utf8.Spells(r.text, Points(Senses(ls)))
  {
    ParseLetters(ls, t);
    MeaningSpellsPoints(Senses(ls));
  }

  lemma OneLetterReads(l: Letter, t: string)
    requires Proper(l)
    ensures ParseString("\"" + (Spelling(l) + "\"" + t)) == Text(Meaning([Sense(l)] + []), t)
  {
    var ls := [l];
    assert AllProper(ls) && ls[1..] == [] && Spelling(l) + "" == Spelling(l);
    ParseLetters(ls, t);
  }

  /** Four hex digits, in either case and in any order of cases, are the code point they write. */
  lemma EscapeReads(u: utf16, digits: string, ds: seq<nat>, t: string)
    requires |ds| == 4 && Writes(digits, ds, 16) && Positional(ds, 16) == u && u > 0 && !(0xD800 <= u < 0xE000)
    ensures ParseString("\"" + ("\\u" + digits + "\"" + t)) == Text(Utf8.Encode(u), t)
  {
    CodeSense(digits, ds, u);
    OneLetterReads(Code(digits, ds), t);
    MeaningAlone(u, []);
    assert Utf8.Encode(u) + "" == Utf8.Encode(u);
  }

  lemma CodeSense(digits: string, ds: seq<nat>, u: utf16)
    requires Positional(ds, 16) == u
    ensures Sense(Code(digits, ds)) == Unit(u)
  {
  }

  /** Two of them, a high and a low one, are one code point. */
  lemma PairReads(hi: utf16, digits: string, ds: seq<nat>, lo: utf16, digits': string, ds': seq<nat>, t: string)
    requires |ds| == 4 && Writes(digits, ds, 16) && Positional(ds, 16) == hi && 0xD800 <= hi < 0xDC00
    requires |ds'| == 4 && Writes(digits', ds', 16) && Positional(ds', 16) == lo && 0xDC00 <= lo < 0xE000
    ensures ParseString("\"" + (("\\u" + digits) + ("\\u" + digits') + "\"" + t))
         == Text(Utf8.Encode(Paired(hi, lo)), t)
  {
    CodeSense(digits, ds, hi);
    CodeSense(digits', ds', lo);
    TwoLettersRead(Code(digits, ds), Code(digits', ds'), t);
    MeaningPair(hi, lo, []);
    assert Utf8.Encode(Paired(hi, lo)) + "" == Utf8.Encode(Paired(hi, lo));
  }

  lemma TwoLettersRead(l: Letter, l': Letter, t: string)
    requires Proper(l) && Proper(l')
    ensures ParseString("\"" + (Spelling(l) + Spelling(l') + "\"" + t))
         == Text(Meaning([Sense(l)] + ([Sense(l')] + [])), t)
  {
    var ls := [l, l'];
    assert AllProper(ls) && ls[1..] == [l'] && [l'][1..] == [] && Spelling(l') + "" == Spelling(l');
    assert Written([l']) == Spelling(l') && Written(ls) == Spelling(l) + Written([l']);
    assert Senses([l']) == [Sense(l')] + [] && Senses(ls) == [Sense(l)] + Senses([l']);
    ParseLetters(ls, t);
  }

  // ----- without a closing quote -----

  /** No quote, and a character behind every backslash. */
  predicate Steady(b: string)
    decreases |b|
  {
    b == "" || (if b[0] == '\\' then |b| >= 2 && Steady(b[2..]) else b[0] != '\"' && Steady(b[1..]))
  }

  lemma {:induction false} SpanIsSteady(b: string)
    requires IsSpan(b)
    ensures Steady(b)
    decreases |b|
  {
    if b != "" {
      if b[0] != '\\' {
        SpanIsSteady(b[1..]);
      } else if b[1] != 'u' {
        SpanIsSteady(b[2..]);
      } else {
        SpanIsSteady(b[6..]);
        PlainSteady(b[2..6], b[6..]);
        assert b[2..] == b[2..6] + b[6..];
      }
    }
  }

  lemma {:induction false} PlainSteady(w: string, t: string)
    requires Steady(t) && forall i | 0 <= i < |w| :: w[i] != '\"' && w[i] != '\\'
    ensures Steady(w + t)
  {
    if w == "" {
      assert w + t == t;
    } else {
      assert (w + t)[1..] == w[1..] + t;
      PlainSteady(w[1..], t);
    }
  }

  lemma BehindFirst(b: string, k: nat, t: string)
    requires k <= |b|
    ensures (b + "\"" + t)[k..] == b[k..] + "\"" + t && (b + "\\")[k..] == b[k..] + "\\"
  {
  }

  lemma {:induction false} CountOpen(b: string, t: string)
    requires Steady(b)
    ensures Count(b).Counted? && Count(b).rest == "" && Count(b + "\"" + t) == Counted(Count(b).len, "\"" + t)
    ensures Count(b + "\\") == PastEnd
    decreases |b|
  {
    if b == "" {
      assert "" + "\"" + t == "\"" + t && "" + "\\" == "\\";
    } else {
      var k := if b[0] == '\\' then 2 else 1;
      BehindFirst(b, k, t);
      CountOpen(b[k..], t);
    }
  }

  /** A token that ends with the text instead of a quote is taken as well. */
  lemma OpenReads(ls: seq<Letter>)
    requires AllProper(ls)
    ensures ParseString("\"" + Written(ls)) == Text(Meaning(Senses(ls)), "")
  {
    var b := Written(ls);
    WrittenIsSpan(ls);
    LettersDecode(ls);
    SpanScans(b, "");
    SpanIsSteady(b);
    CountOpen(b, "");
    assert ("\"" + b)[1..] == b;
  }

  /** If it ends behind a backslash, the counting scan steps past the terminator, */
  lemma CutAtBackslash(ls: seq<Letter>)
    requires AllProper(ls)
    ensures ParseString("\"" + (Written(ls) + "\\")) == Overrun
  {
    var b := Written(ls);
    WrittenIsSpan(ls);
    SpanIsSteady(b);
    CountOpen(b, "");
    assert ("\"" + (b + "\\"))[1..] == b + "\\";
  }

  /** and if it ends inside the four characters behind a \u, one of the scans does. */
  lemma CutInCode(ls: seq<Letter>, d: string)
    requires AllProper(ls) && |d| < 4
    ensures ParseString("\"" + (Written(ls) + ("\\u" + d))) == Overrun
  {
    var s := Written(ls) + ("\\u" + d);
    CutDecodes(ls, "\\u" + d);
    assert ("\"" + s)[1..] == s;
  }

  lemma {:induction false} CutDecodes(ls: seq<Letter>, x: string)
    requires AllProper(ls) && 2 <= |x| < 6 && x[0] == '\\' && x[1] == 'u'
    ensures Decode(Written(ls) + x) == Overrun
  {
    if ls == [] {
      assert "" + x == x;
    } else {
      var l, t := ls[0], Written(ls[1..]) + x;
      Associate(Spelling(l), Written(ls[1..]), x);
      CutDecodes(ls[1..], x);
      if Sense(l).Raw? {
        FirstPlain(l, t);
      } else {
        FirstUnit(l, t);
        if |ls| > 1 {
          CutDecodes(ls[2..], x);
          SecondLetter(ls, x);
        } else {
          assert t == x;
        }
        UnitThen(Written(ls) + x, Sense(l).u, t);
      }
    }
  }

  lemma SecondLetter(ls: seq<Letter>, x: string)
    requires AllProper(ls) && |ls| > 1 && Decode(Written(ls[2..]) + x) == Overrun
    ensures var t := Written(ls[1..]) + x;
            At(t, 0) == '\\' && At(t, 1) == 'u' && |t| >= 6 ==> Decode(t[6..]) == Overrun
  {
    assert ls[1..][1..] == ls[2..] && ls[1..][0] == ls[1];
    Associate(Spelling(ls[1]), Written(ls[2..]), x);
    if Sense(ls[1]).Unit? {
      FirstUnit(ls[1], Written(ls[2..]) + x);
    } else {
      FirstPlain(ls[1], Written(ls[2..]) + x);
    }
  }

  /** What follows a unit that is not read does not matter. */
  lemma UnitThen(s: string, u: nat, t: string)
    requires Begins(s, u, t) && Decode(t) == Overrun
    requires At(t, 0) == '\\' && At(t, 1) == 'u' && |t| >= 6 ==> Decode(t[6..]) == Overrun
    ensures Decode(s) == Overrun
  {
    assert At(s, 6) == At(t, 0) && At(s, 7) == At(t, 1);
    assert |t| >= 6 ==> s[12..] == t[6..];
  }
}
