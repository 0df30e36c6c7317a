/** String tokens: print_string_ptr writes them, parse_string reads them back. */
module JsonStrings {
  import opened CStrings
  import Utf8

  // ----- writing -----

  const BACKSPACE: char := '\U{8}'
  const FORMFEED: char := '\U{C}'

  function HexDigit(d: nat): char
    requires d < 16
  {
    if d < 10 then ('0' as int + d) as char else ('a' as int + d - 10) as char
  }

  /** What one character of the text becomes between the quotes. */
  function EscapeChar(c: char): string {
    if c as int > 31 && c != '\"' && c != '\\' then [c]
    else if c == '\\' then "\\\\"
    else if c == '\"' then "\\\""
    else if c == BACKSPACE then "\\b"
    else if c == FORMFEED then "\\f"
    else if c == '\n' then "\\n"
    else if c == '\r' then "\\r"
    else if c == '\t' then "\\t"
    else "\\u00" + [HexDigit(c as int / 16), HexDigit(c as int % 16)]
  }

  function Escape(s: string): string {
    if s == "" then "" else EscapeChar(s[0]) + Escape(s[1..])
  }

  function Quote(s: string): string {
    "\"" + Escape(s) + "\""
  }

  /** The flag print_string_ptr computes first: without it the text is copied verbatim. */
  predicate NeedsEscape(c: char) {
    0 < c as int < 32 || c == '\"' || c == '\\'
  }

  lemma {:induction false} EscapeConcat(a: string, b: string)
    ensures Escape(a + b) == Escape(a) + Escape(b)
  {
    if a == "" {
      assert a + b == b;
    } else {
      EscapeConcat(a[1..], b);
      assert (a + b)[1..] == a[1..] + b;
      Associate(EscapeChar(a[0]), Escape(a[1..]), Escape(b));
    }
  }

  /** The verbatim path and the escaping path agree where the first one is taken. */
  lemma {:induction false} EscapePlain(s: string)
    requires NulFree(s)
    requires forall c | c in s :: !NeedsEscape(c)
    ensures Escape(s) == s
  {
    if s != "" {
      assert s[0] in s;
      EscapePlain(s[1..]);
    }
  }

  lemma {:induction false} EscapeNulFree(s: string)
    requires NulFree(s)
    ensures NulFree(Escape(s)) && |Escape(s)| >= |s|
  {
    if s != "" {
      EscapeNulFree(s[1..]);
    }
  }

  // ----- reading -----

  /** `Overrun`: the C code would read past the terminator or write past its allocation. */
  datatype StringResult = Text(text: string, rest: string) | NotAString | Overrun

  function Before(prefix: string, r: StringResult): StringResult {
    match r
    case Text(text, rest) => Text(prefix + text, rest)
    case _ => r
  }

  function HexValue(c: char): int {
    if '0' <= c <= '9' then c as int - '0' as int
    else if 'A' <= c <= 'F' then 10 + c as int - 'A' as int
    else if 'a' <= c <= 'f' then 10 + c as int - 'a' as int
    else -1
  }

  predicate IsHex4(s: string) {
    |s| == 4 && forall i | 0 <= i < 4 :: HexValue(s[i]) >= 0
  }

  /** parse_hex4: zero as soon as one of the four is not a hex digit. */
  function Hex4(s: string): (h: nat)
    requires |s| == 4
    ensures h < 0x1_0000
  {
    if IsHex4(s) then ((HexValue(s[0]) * 16 + HexValue(s[1])) * 16 + HexValue(s[2])) * 16 + HexValue(s[3]) else 0
  }

  predicate IsHigh(u: nat) { 0xD800 <= u <= 0xDBFF }
  predicate IsLow(u: nat) { 0xDC00 <= u <= 0xDFFF }

  function Join(high: nat, low: nat): (c: nat)
    ensures IsHigh(high) && IsLow(low) ==> 0x1_0000 <= c <= 0x10FFFF
  {
    0x1_0000 + high % 0x400 * 0x400 + low % 0x400
  }

  function Unescaped(c: char): char {
    match c
    case 'b' => BACKSPACE
    case 'f' => FORMFEED
    case 'n' => '\n'
    case 'r' => '\r'
    case 't' => '\t'
    case _ => c
  }

  /** One turn of the second scan: the bytes it writes and the characters it reads. */
  datatype Turn = Turn(bytes: string, used: nat) | Leaves

  function NextTurn(s: string): (t: Turn)
    requires s != "" && s[0] != '\"'
    ensures t.Turn? ==> 1 <= t.used <= |s| && |t.bytes| <= 4
  {
    if s[0] != '\\' then Turn([s[0]], 1)
    else if |s| < 2 then Leaves
    else if s[1] != 'u' then Turn([Unescaped(s[1])], 2)
    else if |s| < 6 then Leaves
    else
      var u := Hex4(s[2..6]);
      if IsLow(u) || u == 0 then Turn("", 6)
      else if !IsHigh(u) then Turn(Utf8.Encode(u), 6)
      else if At(s, 6) != '\\' || At(s, 7) != 'u' then Turn("", 6)
      else if |s| < 12 then Leaves
      else if !IsLow(Hex4(s[8..12])) then Turn("", 12)
      else Turn(Utf8.Encode(Join(u, Hex4(s[8..12]))), 12)
  }

  /** The second scan, from just past the opening quote. A missing closing quote is accepted, as in the code. */
  function Decode(s: string): (r: StringResult)
    ensures r.Text? ==> |r.rest| <= |s|
    ensures !r.NotAString?
    decreases |s|
  {
    if s == "" then Text("", "")
    else if s[0] == '\"' then Text("", s[1..])
    else match NextTurn(s)
      case Leaves => Overrun
      case Turn(bytes, used) => Before(bytes, Decode(s[used..]))
  }

  /** The first scan: how many steps to the closing quote, and what is left from there. */
  datatype ScanResult = Counted(len: nat, rest: string) | PastEnd

  function Count(s: string): ScanResult
    decreases |s|
  {
    if s == "" || s[0] == '\"' then Counted(0, s)
    else if s[0] == '\\' && |s| < 2 then PastEnd
    else Longer(1, Count(if s[0] == '\\' then s[2..] else s[1..]))
  }

  function Longer(k: nat, c: ScanResult): ScanResult {
    match c
    case Counted(n, rest) => Counted(n + k, rest)
    case PastEnd => PastEnd
  }

  /** parse_string: what the first scan counts is allocated, and the second scan must fit in it. */
  function ParseString(s: string): StringResult {
    if At(s, 0) != '\"' then NotAString
    else if Count(s[1..]).PastEnd? then Overrun
    else match Decode(s[1..])
      case Text(text, rest) => if |text| <= Count(s[1..]).len then Text(text, rest) else Overrun
      case r => r
  }

  // ----- what a token means -----

  /** The body of a string token (section 7 of RFC 8259, plus the escapes of any other single character
      and raw control characters, which this parser also takes). */
  predicate IsBody(s: string)
    decreases |s|
  {
    if s == "" then true
    else if s[0] == '\"' || s[0] == '\0' then false
    else if s[0] != '\\' then IsBody(s[1..])
    else if |s| < 2 || s[1] == '\0' then false
    else if s[1] != 'u' then IsBody(s[2..])
    else |s| >= 6 && IsHex4(s[2..6]) && IsBody(s[6..])
  }

  type utf16 = u: nat | u < 0x1_0000

  /** A body is a sequence of plain bytes and of UTF-16 units written \uXXXX. */
  datatype Piece = Raw(c: char) | Unit(u: utf16)

  function Pieces(s: string): (ps: seq<Piece>)
    requires IsBody(s)
    decreases |s|
  {
    if s == "" then []
    else if s[0] != '\\' then [Raw(s[0])] + Pieces(s[1..])
    else if s[1] != 'u' then [Raw(Unescaped(s[1]))] + Pieces(s[2..])
    else [Unit(Hex4(s[2..6]))] + Pieces(s[6..])
  }

  /** UTF-16 to UTF-8: a high unit takes the unit after it, and the pair counts only when that one is low;
      lone low units, lone high units and U+0000 vanish. */
  function Meaning(ps: seq<Piece>): string {
    if ps == [] then ""
    else if ps[0].Raw? then [ps[0].c] + Meaning(ps[1..])
    else if IsLow(ps[0].u) || ps[0].u == 0 then Meaning(ps[1..])
    else if !IsHigh(ps[0].u) then Utf8.Encode(ps[0].u) + Meaning(ps[1..])
    else if |ps| > 1 && ps[1].Unit? then
      (if IsLow(ps[1].u) then Utf8.Encode(Join(ps[0].u, ps[1].u)) else "") + Meaning(ps[2..])
    else Meaning(ps[1..])
  }

  /** The bytes before the first unit. */
  function RawText(ps: seq<Piece>): (t: string)
    ensures |t| <= |ps|
  {
    if ps == [] || ps[0].Unit? then "" else [ps[0].c] + RawText(ps[1..])
  }

  /** The bytes between the units are well-formed UTF-8, whichever of them were escaped. */
  predicate WellSpelled(ps: seq<Piece>)
    decreases |ps|
  {
    if ps == [] then true
    else if ps[0].Unit? then WellSpelled(ps[1..])
    else var d := Utf8.Decode(RawText(ps)); d.Scalar? && WellSpelled(ps[d.size..])
  }

  /** The code points a token stands for: those its bytes spell and those of its units, in order. The units from 0xD800
      to 0xDBFF open a pair, which those from 0xDC00 to 0xDFFF close. */
  function Points(ps: seq<Piece>): (cs: seq<nat>)
    requires WellSpelled(ps)
    decreases |ps|
  {
    if ps == [] then []
    else if ps[0].Raw? then var d := Utf8.Decode(RawText(ps)); [d.c] + Points(ps[d.size..])
    else if ps[0].u == 0 || 0xDC00 <= ps[0].u <= 0xDFFF then Points(ps[1..])
    else if ps[0].u < 0xD800 || 0xDFFF < ps[0].u then [ps[0].u] + Points(ps[1..])
    else if |ps| > 1 && ps[1].Unit? then
      assert WellSpelled(ps[1..]) && ps[1..][1..] == ps[2..];
      (if 0xDC00 <= ps[1].u <= 0xDFFF then [0x1_0000 + (ps[0].u - 0xD800) * 0x400 + (ps[1].u - 0xDC00)] else [])
      + Points(ps[2..])
    else Points(ps[1..])
  }

  lemma {:induction false} RawPrefix(ps: seq<Piece>, k: nat)
    requires k <= |RawText(ps)|
    ensures Meaning(ps) == RawText(ps)[..k] + Meaning(ps[k..])
    decreases k
  {
    if k == 0 {
      assert ps[0..] == ps;
    } else {
      var t := RawText(ps[1..]);
      RawPrefix(ps[1..], k - 1);
      assert ps[1..][k - 1..] == ps[k..];
      SplitFirst([ps[0].c] + t, k);
      assert ([ps[0].c] + t)[1..] == t;
      ConsAssociate(ps[0].c, t[..k - 1], Meaning(ps[k..]));
    }
  }

  /** A UTF-8 decoder written from the RFC reads those code points back from the decoded bytes:
      no surrogate ever reaches the output and pairs come out as one scalar value. */
  lemma {:induction false} MeaningSpellsPoints(ps: seq<Piece>)
    requires WellSpelled(ps)
    ensures Utf8.Spells(Meaning(ps), Points(ps))
    decreases |ps|
  {
    if ps != [] {
      if ps[0].Raw? {
        var d := Utf8.Decode(RawText(ps));
        MeaningSpellsPoints(ps[d.size..]);
        RawSpellsPoint(ps);
      } else if IsHigh(ps[0].u) && |ps| > 1 && ps[1].Unit? {
        assert WellSpelled(ps[1..]) && ps[1..][1..] == ps[2..];
        MeaningSpellsPoints(ps[2..]);
        PairSpellsPoint(ps);
      } else {
        MeaningSpellsPoints(ps[1..]);
        if !IsLow(ps[0].u) && ps[0].u != 0 && !IsHigh(ps[0].u) {
          Utf8.SpellsMore(ps[0].u, Meaning(ps[1..]), Points(ps[1..]));
        }
      }
    }
  }

  lemma JoinSum(hi: nat, lo: nat)
    requires 0xD800 <= hi < 0xDC00 && 0xDC00 <= lo < 0xE000
    ensures Join(hi, lo) == 0x1_0000 + (hi - 0xD800) * 0x400 + (lo - 0xDC00)
  {
  }

  lemma PairSpellsPoint(ps: seq<Piece>)
    requires WellSpelled(ps) && |ps| > 1 && ps[0].Unit? && ps[1].Unit? && IsHigh(ps[0].u)
    requires WellSpelled(ps[2..]) && Utf8.Spells(Meaning(ps[2..]), Points(ps[2..]))
    ensures Utf8.Spells(Meaning(ps), Points(ps))
  {
    if IsLow(ps[1].u) {
      JoinSum(ps[0].u, ps[1].u);
      Utf8.SpellsMore(Join(ps[0].u, ps[1].u), Meaning(ps[2..]), Points(ps[2..]));
    } else {
      assert Meaning(ps) == Meaning(ps[2..]) && Points(ps) == Points(ps[2..]);
    }
  }

  lemma RawSpellsPoint(ps: seq<Piece>)
    requires WellSpelled(ps) && ps != [] && ps[0].Raw?
    requires var d := Utf8.Decode(RawText(ps)); Utf8.Spells(Meaning(ps[d.size..]), Points(ps[d.size..]))
    ensures Utf8.Spells(Meaning(ps), Points(ps))
  {
    var d := Utf8.Decode(RawText(ps));
    Utf8.EncodeDecode(RawText(ps));
    RawPrefix(ps, d.size);
    Utf8.SpellsMore(d.c, Meaning(ps[d.size..]), Points(ps[d.size..]));
  }

  /** A token in well-formed UTF-8, as section 8.1 of RFC 8259 asks, has such pieces. A backslash takes one byte, and
      the rest of its character follows as it is. */
  lemma {:induction false} WellFormedBody(s: string, cs: seq<nat>)
    requires IsBody(s) && Utf8.Spells(s, cs)
    ensures WellSpelled(Pieces(s))
    decreases |s|
  {
    if s != "" {
      if s[0] as int >= 0x80 {
        var n := Utf8.Decode(s).size;
        CharacterBytes(s);
        HighRun(s, n);
        WellFormedBody(s[n..], cs[1..]);
        HighSpelled(s);
      } else if s[0] != '\\' {
        WellFormedBody(s[1..], cs[1..]);
        AsciiSpelled(s[0], Pieces(s[1..]));
      } else if s[1] as int >= 0x80 {
        assert Pieces(s) == Pieces(s[1..]);
        WellFormedBody(s[1..], cs[1..]);
      } else if s[1] != 'u' {
        AsciiPoints(s, cs, 2);
        WellFormedBody(s[2..], cs[2..]);
        AsciiSpelled(Unescaped(s[1]), Pieces(s[2..]));
      } else {
        assert forall i | 2 <= i < 6 :: s[i] == s[2..6][i - 2];
        AsciiPoints(s, cs, 6);
        WellFormedBody(s[6..], cs[6..]);
        assert Pieces(s)[1..] == Pieces(s[6..]);
      }
    }
  }

  lemma {:induction false} AsciiPoints(s: string, cs: seq<nat>, k: nat)
    requires Utf8.Spells(s, cs) && k <= |s| && forall i | 0 <= i < k :: s[i] as int < 0x80
    ensures k <= |cs| && Utf8.Spells(s[k..], cs[k..])
    decreases k
  {
    if k == 0 {
      assert s[0..] == s && cs[0..] == cs;
    } else {
      AsciiPoints(s[1..], cs[1..], k - 1);
      assert s[1..][k - 1..] == s[k..] && cs[1..][k - 1..] == cs[k..];
    }
  }

  lemma AsciiSpelled(c: char, ps: seq<Piece>)
    requires c as int < 0x80 && WellSpelled(ps)
    ensures WellSpelled([Raw(c)] + ps)
  {
    var all := [Raw(c)] + ps;
    assert all[1..] == ps;
    assert Utf8.Decode(RawText(all)) == Utf8.Scalar(c as int, 1);
  }

  lemma CharacterBytes(s: string)
    requires Utf8.Decode(s).Scalar? && s[0] as int >= 0x80
    ensures forall i | 0 <= i < Utf8.Decode(s).size :: s[i] as int >= 0x80
  {
    var d := Utf8.Decode(s);
    Utf8.EncodeDecode(s);
    Utf8.DecodeEncode(d.c, "");
    forall i | 0 <= i < d.size
      ensures s[i] as int >= 0x80
    {
      assert s[i] == s[..d.size][i] == Utf8.Encode(d.c)[i];
    }
  }

  lemma HighHead(s: string)
    requires IsBody(s) && s != "" && s[0] as int >= 0x80
    ensures IsBody(s[1..]) && Pieces(s) == [Raw(s[0])] + Pieces(s[1..])
    ensures RawText(Pieces(s)) == [s[0]] + RawText(Pieces(s[1..]))
  {
    assert ([Raw(s[0])] + Pieces(s[1..]))[1..] == Pieces(s[1..]);
  }

  /** Bytes from 0x80 on are pieces as they stand. */
  lemma {:induction false} HighRun(s: string, k: nat)
    requires IsBody(s) && k <= |s| && forall i | 0 <= i < k :: s[i] as int >= 0x80
    ensures IsBody(s[k..]) && k <= |Pieces(s)| && Pieces(s)[k..] == Pieces(s[k..])
    ensures RawText(Pieces(s)) == s[..k] + RawText(Pieces(s[k..]))
    decreases k
  {
    if k == 0 {
      assert s[0..] == s && Pieces(s)[0..] == Pieces(s) && s[..0] == "";
    } else {
      HighHead(s);
      HighRun(s[1..], k - 1);
      SplitFirst(s, k);
      HighTail(Raw(s[0]), Pieces(s[1..]), k);
      ConsAssociate(s[0], s[1..][..k - 1], RawText(Pieces(s[k..])));
    }
  }

  lemma HighTail(p: Piece, ps: seq<Piece>, k: nat)
    requires 1 <= k <= |ps| + 1
    ensures ([p] + ps)[k..] == ps[k - 1..]
  {
  }

  lemma HighSpelled(s: string)
    requires IsBody(s) && Utf8.Decode(s).Scalar?
    requires var n := Utf8.Decode(s).size;
             && IsBody(s[n..]) && n <= |Pieces(s)| && Pieces(s)[n..] == Pieces(s[n..])
             && RawText(Pieces(s)) == s[..n] + RawText(Pieces(s[n..])) && WellSpelled(Pieces(s[n..]))
    requires s[0] as int >= 0x80
    ensures WellSpelled(Pieces(s))
  {
    var d := Utf8.Decode(s);
    Utf8.EncodeDecode(s);
    Utf8.DecodeEncode(d.c, RawText(Pieces(s[d.size..])));
  }

  /** Both scans of a token end at its closing quote, the decoded bytes are its meaning,
      and they fit in the bytes the first scan counted. */
  ghost predicate ScansAgreeOn(body: string, t: string)
    requires IsBody(body)
  {
    && Decode(body + "\"" + t) == Text(Meaning(Pieces(body)), t)
    && Count(body + "\"" + t).Counted? && Count(body + "\"" + t).rest == "\"" + t
    && |Meaning(Pieces(body))| <= Count(body + "\"" + t).len
  }

  lemma {:induction false} ScansAgree(body: string, t: string)
    requires IsBody(body)
    ensures ScansAgreeOn(body, t)
    decreases |body|
  {
    var s := body + "\"" + t;
    if body == "" {
      assert s == "\"" + t;
      assert s[1..] == t;
    } else if body[0] != '\\' {
      Tail(body, 1, t);
      ScansAgree(body[1..], t);
    } else if body[1] != 'u' {
      Tail(body, 2, t);
      ScansAgree(body[2..], t);
    } else {
      ScansAgree(body[6..], t);
      if IsPair(body) {
        ScansAgree(body[12..], t);
        AgreePair(body, t);
      } else {
        AgreeAlone(body, t);
      }
    }
  }

  /** A high unit followed by another unit: they are read together. */
  predicate IsPair(body: string)
    requires IsBody(body)
  {
    && |body| >= 12 && body[..2] == "\\u" && IsHigh(Hex4(body[2..6]))
    && body[6..8] == "\\u"
  }

  lemma AgreeAlone(body: string, t: string)
    requires IsBody(body) && |body| >= 6 && body[0] == '\\' && body[1] == 'u' && !IsPair(body)
    requires ScansAgreeOn(body[6..], t)
    ensures ScansAgreeOn(body, t)
  {
    var s, rest := body + "\"" + t, body[6..];
    UnitStep(body, t);
    if IsHigh(Hex4(body[2..6])) {
      LoneHigh(body, t);
    }
  }

  lemma LoneHigh(body: string, t: string)
    requires IsBody(body) && |body| >= 6 && body[0] == '\\' && body[1] == 'u' && !IsPair(body)
    requires IsHigh(Hex4(body[2..6]))
    ensures var s := body + "\"" + t; At(s, 6) != '\\' || At(s, 7) != 'u'
    ensures |Pieces(body)| > 1 ==> Pieces(body)[1].Raw?
  {
    var s, rest := body + "\"" + t, body[6..];
    assert At(s, 6) == (rest + "\"" + t)[0];
    if At(s, 6) == '\\' {
      assert rest[0] == '\\' && At(s, 7) == rest[1];
    }
  }

  lemma AgreePair(body: string, t: string)
    requires IsBody(body) && IsPair(body)
    requires IsBody(body[12..]) && ScansAgreeOn(body[12..], t)
    ensures ScansAgreeOn(body, t)
  {
    var s, rest := body + "\"" + t, body[6..];
    PairText(body, t);
    UnitStep(body, t);
    UnitStep(rest, t);
    Tail(body, 12, t);
    PairPieces(body);
  }

  lemma PairText(body: string, t: string)
    requires |body| >= 12 && body[6..8] == "\\u"
    ensures var s, rest := body + "\"" + t, body[6..];
            && rest[0] == '\\' && rest[1] == 'u' && rest[6..] == body[12..]
            && s[8..12] == rest[2..6] && At(s, 6) == rest[0] && At(s, 7) == rest[1]
  {
    var rest := body[6..];
    assert rest[0] == body[6..8][0] && rest[1] == body[6..8][1];
  }

  lemma PairPieces(body: string)
    requires IsBody(body) && IsPair(body) && IsBody(body[12..])
    ensures IsBody(body[6..]) && |body[6..]| >= 6
    ensures Pieces(body) == [Unit(Hex4(body[2..6])), Unit(Hex4(body[6..][2..6]))] + Pieces(body[12..])
    ensures Pieces(body)[2..] == Pieces(body[12..])
  {
    var rest := body[6..];
    assert rest[0] == body[6..8][0] && rest[1] == body[6..8][1];
    assert rest[6..] == body[12..];
    assert body[..2][0] == body[0] && body[..2][1] == body[1];
    assert Pieces(rest) == [Unit(Hex4(rest[2..6]))] + Pieces(body[12..]);
    TwoUnits(Unit(Hex4(body[2..6])), Unit(Hex4(rest[2..6])), Pieces(body[12..]));
  }

  lemma TwoUnits(p: Piece, q: Piece, ps: seq<Piece>)
    ensures [p] + ([q] + ps) == [p, q] + ps && ([p, q] + ps)[2..] == ps
  {
  }

  lemma UnitStep(body: string, t: string)
    requires IsBody(body) && |body| >= 6 && body[0] == '\\' && body[1] == 'u'
    ensures (body + "\"" + t)[6..] == body[6..] + "\"" + t
    ensures (body + "\"" + t)[2..6] == body[2..6]
    ensures Count(body + "\"" + t) == Longer(5, Count(body[6..] + "\"" + t))
  {
    Tail(body, 6, t);
    CountUnit(body[2..6], body[6..] + "\"" + t);
    assert body + "\"" + t == "\\u" + body[2..6] + (body[6..] + "\"" + t);
  }

  lemma Tail(body: string, k: nat, t: string)
    requires k <= |body|
    ensures (body + "\"" + t)[k..] == body[k..] + "\"" + t
  {
  }

  /** Plain bytes cost the first scan one step each. */
  lemma {:induction false} CountPlain(d: string, s: string)
    requires '\\' !in d && '\"' !in d
    ensures Count(d + s) == Longer(|d|, Count(s))
  {
    if d == "" {
      assert d + s == s;
    } else {
      assert d[0] in d;
      assert (d + s)[1..] == d[1..] + s;
      CountPlain(d[1..], s);
    }
  }

  /** A \uXXXX costs it five steps: one for the backslash and the u, four for the digits. */
  lemma CountUnit(digits: string, t: string)
    requires IsHex4(digits)
    ensures Count("\\u" + digits + t) == Longer(5, Count(t))
  {
    assert ("\\u" + digits + t)[2..] == digits + t;
    CountPlain(digits, t);
  }

  // ----- reading undoes writing -----

  lemma HexRoundTrip(d: nat)
    requires d < 16
    ensures HexValue(HexDigit(d)) == d
  {
  }

  lemma DecodeEscapedChar(c: char, more: string)
    requires c != '\0'
    ensures Decode(EscapeChar(c) + more) == Before([c], Decode(more))
  {
    EscapeKinds(c);
    var e := EscapeChar(c);
    if e == [c] {
      assert ([c] + more)[1..] == more;
    } else if |e| == 2 {
      DecodeShort(e[1], more);
    } else {
      DecodeControl(c, more);
    }
  }

  /** One character, two, or \u00 and two digits. */
  lemma EscapeKinds(c: char)
    requires c != '\0'
    ensures var e := EscapeChar(c);
            || (e == [c] && c != '\\' && c != '\"')
            || (e == ['\\', e[1]] && e[1] != 'u' && Unescaped(e[1]) == c)
            || (c as int < 32 && e == "\\u00" + [HexDigit(c as int / 16), HexDigit(c as int % 16)])
  {
  }

  lemma DecodeShort(c: char, more: string)
    requires c != 'u'
    ensures Decode(['\\', c] + more) == Before([Unescaped(c)], Decode(more))
  {
    assert (['\\', c] + more)[2..] == more;
  }

  lemma DecodeControl(c: char, more: string)
    requires 0 < c as int < 32
    ensures Decode("\\u00" + [HexDigit(c as int / 16), HexDigit(c as int % 16)] + more) == Before([c], Decode(more))
  {
    var digits := "00" + [HexDigit(c as int / 16), HexDigit(c as int % 16)];
    var all := "\\u00" + [HexDigit(c as int / 16), HexDigit(c as int % 16)] + more;
    assert all[2..6] == digits && all[6..] == more;
    HexRoundTrip(c as int / 16);
    HexRoundTrip(c as int % 16);
    assert Hex4(digits) == c as int;
  }

  lemma {:induction false} DecodeEscape(s: string, t: string)
    requires NulFree(s)
    ensures Decode(Escape(s) + ("\"" + t)) == Text(s, t)
  {
    if s == "" {
      assert Escape(s) + ("\"" + t) == "\"" + t;
    } else {
      Associate(EscapeChar(s[0]), Escape(s[1..]), "\"" + t);
      assert s[0] in s;
      DecodeEscapedChar(s[0], Escape(s[1..]) + ("\"" + t));
      DecodeEscape(s[1..], t);
      assert s == [s[0]] + s[1..];
    }
  }

  lemma {:induction false} EscapeIsBody(s: string)
    requires NulFree(s)
    ensures IsBody(Escape(s))
  {
    if s != "" {
      EscapeIsBody(s[1..]);
      assert s[0] in s;
      EscapedCharIsBody(s[0], Escape(s[1..]));
    }
  }

  lemma EscapedCharIsBody(c: char, more: string)
    requires c != '\0' && IsBody(more)
    ensures IsBody(EscapeChar(c) + more)
  {
    var e := EscapeChar(c);
    assert (e + more)[|e|..] == more;
    if NeedsEscape(c) && e[1] == 'u' {
      ControlIsBody(c, more);
    } else if NeedsEscape(c) {
      assert (e + more)[0] == '\\' && (e + more)[1] == e[1];
    }
  }

  lemma ControlIsBody(c: char, more: string)
    requires 0 < c as int < 32 && IsBody(more)
    ensures IsBody("\\u00" + [HexDigit(c as int / 16), HexDigit(c as int % 16)] + more)
  {
    var all := "\\u00" + [HexDigit(c as int / 16), HexDigit(c as int % 16)] + more;
    assert all[2..6] == "00" + [HexDigit(c as int / 16), HexDigit(c as int % 16)] && all[6..] == more;
    HexRoundTrip(c as int / 16);
    HexRoundTrip(c as int % 16);
  }

  /** parse_string undoes print_string_ptr on every C string, and stops just past the closing quote. */
  lemma ParseQuote(s: string, t: string)
    requires NulFree(s)
    ensures ParseString(Quote(s) + t) == Text(s, t)
  {
    assert (Quote(s) + t)[1..] == Escape(s) + ("\"" + t);
    DecodeEscape(s, t);
    EscapeIsBody(s);
    ScansAgree(Escape(s), t);
    Associate(Escape(s), "\"", t);
  }

  /** A token with four-digit escapes is read without leaving the text or the allocation, to exactly its meaning. */
  lemma ParseToken(body: string, t: string)
    requires IsBody(body)
    ensures ParseString("\"" + (body + "\"" + t)) == Text(Meaning(Pieces(body)), t)
  {
    ScansAgree(body, t);
    assert ("\"" + (body + "\"" + t))[1..] == body + "\"" + t;
  }

  /** And when the text is well-formed UTF-8, so is what is read: it spells the token's code points. */
  lemma ParseTokenSpells(body: string, cs: seq<nat>, t: string)
    requires IsBody(body) && Utf8.Spells(body, cs)
    ensures WellSpelled(Pieces(body))
    ensures ParseString("\"" + (body + "\"" + t)).Text?
    ensures Utf8.Spells(ParseString("\"" + (body + "\"" + t)).text, Points(Pieces(body)))
  {
    ParseToken(body, t);
    WellFormedBody(body, cs);
    MeaningSpellsPoints(Pieces(body));
  }
}
