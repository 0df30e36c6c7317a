/** Character data as TinyXML writes and reads it: EncodeString, GetEntity, GetChar and the two loops of ReadText. */
module XmlText {
  import opened CStrings
  import opened XmlBytes
  import Utf8

  // ----- writing -----

  function HexDigit(d: nat): char
    requires d < 16
  {
    if d < 10 then '0' + d as char else 'A' + (d - 10) as char
  }

  /** Five characters have names, control characters are written as "&#x%02X;", all others stand for themselves. */
  function EncodeByte(c: char): (e: string) {
    if c == '&' then "&amp;"
    else if c == '<' then "&lt;"
    else if c == '>' then "&gt;"
    else if c == '"' then "&quot;"
    else if c == '\'' then "&apos;"
    else if c < ' ' then "&#x" + [HexDigit(c as int / 16), HexDigit(c as int % 16), ';']
    else [c]
  }

  /** The text starts with what EncodeString takes for a character reference and passes through. */
  predicate IsReference(s: string) {
    |s| >= 3 && s[0] == '&' && s[1] == '#' && s[2] == 'x'
  }

  /** How much is passed through: up to a ';', or up to the last character. */
  function PassedThrough(s: string, n: nat): (m: nat)
    requires 1 <= n < |s|
    ensures n <= m < |s|
    decreases |s| - n
  {
    if n == |s| - 1 || s[n] == ';' then n else PassedThrough(s, n + 1)
  }

  function EncodeString(s: string): string
    decreases |s|
  {
    if s == "" then ""
    else if IsReference(s) then
      var n := PassedThrough(s, 1); s[..n] + EncodeString(s[n..])
    else EncodeByte(s[0]) + EncodeString(s[1..])
  }

  // ----- numeric references -----

  const M32: nat := 0x1_0000_0000
  const M64: nat := 0x1_0000_0000_0000_0000

  function DigitValue(c: char, base: nat): Option<nat> {
    if '0' <= c <= '9' then Some((c - '0') as nat)
    else if base == 16 && 'a' <= c <= 'f' then Some((c - 'a') as nat + 10)
    else if base == 16 && 'A' <= c <= 'F' then Some((c - 'A') as nat + 10)
    else None
  }

  function Digits(s: string, base: nat): Option<seq<nat>> {
    if s == "" then Some([])
    else
      var d, ds := DigitValue(s[0], base), Digits(s[1..], base);
      if d.Some? && ds.Some? then Some([d.value] + ds.value) else None
  }

  /** The last digit first, each times an unsigned 32-bit multiplier that grows by the base and wraps;
      the sum is kept in 64 bits. */
  function Accumulated(ds: seq<nat>, base: nat, mult: nat): nat
    decreases |ds|
  {
    if ds == [] then 0
    else
      var k := |ds| - 1;
      Add64(Times(mult, ds[k]), Accumulated(ds[..k], base, Times(mult, base)))
  }

  function Add64(a: nat, b: nat): (r: nat)
    ensures r < M64
  {
    (a + b) % M64
  }

  function Times(a: nat, b: nat): nat {
    (a * b) % M32
  }

  function FirstIndex(s: string, c: char): (i: nat)
    ensures i <= |s| && (i < |s| ==> s[i] == c) && forall k | 0 <= k < i :: s[k] != c
  {
    if s == "" || s[0] == c then 0 else 1 + FirstIndex(s[1..], c)
  }

  /** What follows the last c, or everything. */
  function AfterLast(s: string, c: char): string {
    if s == "" then "" else if s[|s| - 1] == c then "" else AfterLast(s[..|s| - 1], c) + [s[|s| - 1]]
  }

  // ----- reading -----

  datatype Got =
    | Got(bytes: string, rest: string)
    | NoChar       // the null pointer
    | Overrun      // the terminator was stepped over

  function Converted(ucs: nat, encoding: Encoding): (bytes: string)
    ensures |bytes| <= 4
  {
    if encoding.EncodingLegacy? then [(ucs % 256) as char]
    else if ucs < 0x20_0000 then Utf8.Encode(ucs)
    else ""
  }

  function GetEntity(s: string, encoding: Encoding): (g: Got)
    requires s != ""
    ensures !g.Overrun? && (g.Got? ==> |g.rest| < |s|)
  {
    if |s| > 2 && s[1] == '#' then
      if s[2] == 'x' then Numeric(s, 3, 'x', 16, encoding) else Numeric(s, 2, '#', 10, encoding)
    else Named(s)
  }

  function Numeric(s: string, from: nat, mark: char, base: nat, encoding: Encoding): (g: Got)
    requires from <= |s|
    ensures !g.Overrun? && (g.Got? ==> |g.rest| < |s|)
  {
    var w := s[from..];
    var i := FirstIndex(w, ';');
    if i == |w| then NoChar
    else match Digits(AfterLast(w[..i], mark), base)
      case Some(ds) => Got(Converted(Accumulated(ds, base, 1), encoding), w[i + 1..])
      case None => NoChar
  }

  /** An ampersand that starts nothing known is dropped. */
  function Named(s: string): (g: Got)
    requires s != ""
    ensures g.Got? && |g.rest| < |s|
  {
    if "&amp;" <= s then Got("&", s[5..])
    else if "&lt;" <= s then Got("<", s[4..])
    else if "&gt;" <= s then Got(">", s[4..])
    else if "&quot;" <= s then Got("\"", s[6..])
    else if "&apos;" <= s then Got("'", s[6..])
    else Got("", s[1..])
  }

  function GetChar(s: string, encoding: Encoding): (g: Got)
    requires s != ""
    ensures g.Got? ==> |g.rest| < |s|
  {
    var n := StepLength(s, encoding);
    if n == 1 then
      if s[0] == '&' then GetEntity(s, encoding) else Got([s[0]], s[1..])
    else if n <= |s| then Got(s[..n], s[n..])
    else Overrun
  }

  datatype Read =
    | Read(text: string, rest: string)
    | Unended(text: string)    // the text ended before the tag; the pointer is past the terminator
    | NoText
    | ReadOverrun

  function Before(bytes: string, r: Read): Read {
    match r
    case Read(text, rest) => Read(bytes + text, rest)
    case Unended(text) => Unended(bytes + text)
    case _ => r
  }

  /** ReadText with all whitespace kept. */
  function ReadKeeping(s: string, tag: string, encoding: Encoding): (r: Read)
    ensures r.Read? ==> |r.rest| + |tag| <= |s|
    decreases |s|
  {
    if s == "" then Unended("")
    else if tag <= s then Read("", s[|tag|..])
    else match GetChar(s, encoding)
      case Got(bytes, rest) => Before(bytes, ReadKeeping(rest, tag, encoding))
      case NoChar => NoText
      case Overrun => ReadOverrun
  }

  function SkipSpace(s: string, encoding: Encoding): (t: string)
    ensures |t| <= |s|
    decreases |s|
  {
    if s == "" then ""
    else if encoding.EncodingUtf8? && ZeroWidth(s) then SkipSpace(s[3..], encoding)
    else if IsSpace(s[0]) then SkipSpace(s[1..], encoding)
    else s
  }

  /** ReadText with condensed whitespace. */
  function ReadTrimming(s: string, tag: string, encoding: Encoding): (r: Read)
    ensures r.Read? && !(tag <= s) ==> |r.rest| + |tag| < |s|
  {
    if s == "" then NoText else Condense(SkipSpace(s, encoding), false, tag, encoding)
  }

  function Condense(s: string, whitespace: bool, tag: string, encoding: Encoding): (r: Read)
    ensures r.Read? ==> |r.rest| + |tag| <= |s|
    ensures r.Read? && !(tag <= s) ==> |r.rest| + |tag| < |s|
    decreases |s|
  {
    if s == "" then Unended("")
    else if tag <= s then Read("", s[|tag|..])
    else if IsSpace(s[0]) then Condense(s[1..], true, tag, encoding)
    else match GetChar(s, encoding)
      case Got(bytes, rest) => Before((if whitespace then " " else "") + bytes, Condense(rest, false, tag, encoding))
      case NoChar => NoText
      case Overrun => ReadOverrun
  }

  // ----- reading undoes writing -----

  /** No character reference anywhere. */
  ghost predicate Plain(s: string) {
    forall i | 0 <= i < |s| :: !IsReference(s[i..])
  }

  lemma PlainSuffix(s: string, n: nat)
    requires Plain(s) && n <= |s|
    ensures Plain(s[n..])
  {
    forall i | 0 <= i < |s[n..]| ensures !IsReference(s[n..][i..]) {
      assert s[n..][i..] == s[n + i..];
    }
  }

  predicate EndMark(q: char) {
    q == '"' || q == '\'' || q == '<' || q == '>'
  }

  lemma EncodedByteReads(c: char, u: string, encoding: Encoding)
    requires StepLength([c], encoding) == 1
    ensures GetChar(EncodeByte(c) + u, encoding) == Got([c], u)
  {
    if c < ' ' {
      ControlReads(c, u, encoding);
    } else if EncodeByte(c) != [c] {
      NameReads(c, u);
    }
  }

  lemma NameReads(c: char, u: string)
    requires c in {'&', '<', '>', '"', '\''}
    ensures GetEntity(EncodeByte(c) + u, EncodingUtf8) == GetEntity(EncodeByte(c) + u, EncodingLegacy) == Got([c], u)
  {
    var e := EncodeByte(c);
    PrefixOfConcat(e, u);
    assert (e + u)[1] == e[1] && (e + u)[2] == e[2];
  }

  lemma HexDigitValue(d: nat)
    requires d < 16
    ensures Digits([HexDigit(d)], 16) == Some([d])
  {
    assert DigitValue(HexDigit(d), 16) == Some(d);
    assert [HexDigit(d)][1..] == "" && [d] + [] == [d];
  }

  lemma TwoDigits(a: nat, b: nat)
    requires a < 16 && b < 16
    ensures var h := [HexDigit(a), HexDigit(b)]; AfterLast(h, 'x') == h && Digits(h, 16) == Some([a, b])
  {
    var h := [HexDigit(a), HexDigit(b)];
    assert h[..1] == [HexDigit(a)] && h[1..] == [HexDigit(b)] && h[..1][..0] == "";
    HexDigitValue(b);
    assert DigitValue(h[0], 16) == Some(a) && [a] + [b] == [a, b];
    assert AfterLast(h[..1], 'x') == h[..1];
  }

  /** What Numeric makes of digits h up to the first ';'. */
  lemma NumericReads(s: string, from: nat, h: string, u: string, mark: char, base: nat, encoding: Encoding)
    requires from <= |s| && s[from..] == h + ([';'] + u) && ';' !in h
    ensures Numeric(s, from, mark, base, encoding)
         == match Digits(AfterLast(h, mark), base) {
              case Some(ds) => Got(Converted(Accumulated(ds, base, 1), encoding), u)
              case None => NoChar
            }
  {
    var w := s[from..];
    assert w[|h|] == ';' && forall k | 0 <= k < |h| :: w[k] == h[k];
    assert FirstIndex(w, ';') == |h|;
    assert w[..|h|] == h && w[|h| + 1..] == u;
  }

  /** A hexadecimal reference with anything but a ';' in its middle. */
  lemma HexReads(h: string, u: string, encoding: Encoding)
    requires ';' !in h
    ensures GetEntity("&#x" + (h + ([';'] + u)), encoding)
         == match Digits(AfterLast(h, 'x'), 16) {
              case Some(ds) => Got(Converted(Accumulated(ds, 16, 1), encoding), u)
              case None => NoChar
            }
  {
    var s := "&#x" + (h + ([';'] + u));
    PrefixOfConcat("&#x", h + ([';'] + u));
    NumericReads(s, 3, h, u, 'x', 16, encoding);
  }

  lemma ControlReads(c: char, u: string, encoding: Encoding)
    requires c < ' '
    ensures GetEntity(EncodeByte(c) + u, encoding) == Got([c], u)
  {
    var a, b := c as int / 16, c as int % 16;
    var h := [HexDigit(a), HexDigit(b)];
    assert EncodeByte(c) + u == "&#x" + (h + ([';'] + u));
    HexReads(h, u, encoding);
    TwoDigits(a, b);
    AccumulatedTwo(a, b);
    ConvertedByte(c, encoding);
  }

  lemma ConvertedByte(c: char, encoding: Encoding)
    requires c as int < 0x80
    ensures Converted(c as int, encoding) == [c]
  {
  }

  lemma AccumulatedTwo(a: nat, b: nat)
    requires a < 16 && b < 16
    ensures Accumulated([a, b], 16, 1) == 16 * a + b
  {
    assert [a, b][..1] == [a] && [a][..0] == [];
    TimesSmall(1, b);
    TimesSmall(1, 16);
    TimesSmall(16, a);
    assert Accumulated([a], 16, 16) == Add64(16 * a, 0);
  }

  lemma TimesSmall(a: nat, b: nat)
    requires a < 256 && b < 256
    ensures Times(a, b) == a * b
  {
    assert a * b < 256 * 256 by {
      assert a * b <= 256 * b;
    }
  }

  lemma EncodeOne(s: string)
    requires s != "" && s[0] as int >= 0x80
    ensures EncodeString(s) == [s[0]] + EncodeString(s[1..])
  {
  }

  lemma {:induction false} EncodeHigh(s: string, n: nat)
    requires n <= |s| && forall i | 0 <= i < n :: s[i] as int >= 0x80
    ensures EncodeString(s) == s[..n] + EncodeString(s[n..])
    decreases n
  {
    if n > 0 {
      EncodeOne(s);
      EncodeHigh(s[1..], n - 1);
      assert s[1..][n - 1..] == s[n..];
      assert s[..n] == [s[0]] + s[1..][..n - 1];
      Associate([s[0]], s[1..][..n - 1], EncodeString(s[n..]));
    } else {
      assert s[0..] == s && s[..0] + EncodeString(s) == EncodeString(s);
    }
  }

  lemma HighReads(s: string, n: nat, v: string)
    requires 2 <= n <= |s| && StepLength(s, EncodingUtf8) == n
    ensures GetChar(s[..n] + v, EncodingUtf8) == Got(s[..n], v)
  {
    PrefixOfConcat(s[..n], v);
  }

  /** One reader's step at the front of clean text takes one character of it. */
  lemma EncodedStepReads(s: string, u: string, encoding: Encoding)
    requires s != "" && Clean(s, encoding) && !IsReference(s)
    ensures var n := StepLength(s, encoding);
            var e := EncodeString(s) + u;
            && e != "" && GetChar(e, encoding) == Got(s[..n], EncodeString(s[n..]) + u)
            && e[0] == EncodeByte(s[0])[0]
  {
    if StepLength(s, encoding) == 1 {
      OneByteReads(s, u, encoding);
    } else {
      MoreBytesRead(s, u);
    }
  }

  lemma OneByteReads(s: string, u: string, encoding: Encoding)
    requires s != "" && !IsReference(s) && StepLength(s, encoding) == 1
    ensures var e := EncodeString(s) + u;
            && e != "" && GetChar(e, encoding) == Got(s[..1], EncodeString(s[1..]) + u)
            && e[0] == EncodeByte(s[0])[0]
  {
    var c, v := s[0], EncodeString(s[1..]);
    assert s[..1] == [c];
    Associate(EncodeByte(c), v, u);
    EncodedByteReads(c, v + u, encoding);
    PrefixOfConcat(EncodeByte(c), v + u);
  }

  lemma MoreBytesRead(s: string, u: string)
    requires s != "" && Clean(s, EncodingUtf8) && StepLength(s, EncodingUtf8) > 1
    ensures var n := StepLength(s, EncodingUtf8);
            var e := EncodeString(s) + u;
            && e != "" && GetChar(e, EncodingUtf8) == Got(s[..n], EncodeString(s[n..]) + u)
            && e[0] == EncodeByte(s[0])[0]
  {
    var n := StepLength(s, EncodingUtf8);
    EncodeHigh(s, n);
    Associate(s[..n], EncodeString(s[n..]), u);
    HighReads(s, n, EncodeString(s[n..]) + u);
  }

  lemma ReadStep(s: string, tag: string, encoding: Encoding, bytes: string, rest: string)
    requires s != "" && !(tag <= s) && GetChar(s, encoding) == Got(bytes, rest)
    ensures ReadKeeping(s, tag, encoding) == Before(bytes, ReadKeeping(rest, tag, encoding))
  {
  }

  /** The main result: any bytes in legacy mode, any whole characters in UTF-8 mode, control characters and
      the closing quote itself included. */
  lemma {:induction false} ReadUndoesEncode(s: string, q: char, t: string, encoding: Encoding)
    requires Clean(s, encoding) && Plain(s) && EndMark(q)
    ensures ReadKeeping(EncodeString(s) + ([q] + t), [q], encoding) == Read(s, t)
    decreases |s|
  {
    var u := [q] + t;
    if s == "" {
      EndMarkReads(q, t, encoding);
    } else {
      var n := StepLength(s, encoding);
      PlainSuffix(s, n);
      ReadUndoesEncode(s[n..], q, t, encoding);
      EncodedTurnReads(s, q, u, encoding);
      assert s[..n] + s[n..] == s;
    }
  }

  lemma EndMarkReads(q: char, t: string, encoding: Encoding)
    ensures ReadKeeping(EncodeString("") + ([q] + t), [q], encoding) == Read("", t)
  {
    var u := [q] + t;
    assert EncodeString("") + u == u && u[1..] == t;
  }

  lemma EncodedTurnReads(s: string, q: char, u: string, encoding: Encoding)
    requires s != "" && Clean(s, encoding) && Plain(s) && EndMark(q)
    ensures var n := StepLength(s, encoding);
            ReadKeeping(EncodeString(s) + u, [q], encoding)
            == Before(s[..n], ReadKeeping(EncodeString(s[n..]) + u, [q], encoding))
  {
    assert s[0..] == s;
    var n := StepLength(s, encoding);
    EncodedStepReads(s, u, encoding);
    ReadStep(EncodeString(s) + u, [q], encoding, s[..n], EncodeString(s[n..]) + u);
  }
}
