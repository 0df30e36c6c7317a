/** The characters of a value or a text as they stand in a document, and what both loops of ReadText make of them. */
module XmlUnits {
  import opened CStrings
  import opened Numerals
  import opened XmlBytes
  import opened XmlCondense
  import opened XmlReferences
  import opened XmlText

  /** In a numeric reference everything up to the last mark is skipped. A stray ampersand begins nothing known. */
  datatype Unit =
    | Bytes(bytes: string)
    | Entity(name: string, c: char)
    | Hex(skipped: string, digits: string, ds: seq<nat>)
    | Dec(skipped: string, digits: string, ds: seq<nat>)
    | Stray

  function UnitText(u: Unit): string {
    match u
    case Bytes(bytes) => bytes
    case Entity(name, _) => name
    case Hex(skipped, digits, _) => "&#x" + (skipped + digits + ";")
    case Dec(skipped, digits, _) => "&#" + (skipped + digits + ";")
    case Stray => "&"
  }

  /** Decimal digits are summed up in 64 bits, so from 2^32 on the number is no longer the one they write. */
  function UnitValue(u: Unit, encoding: Encoding): string {
    match u
    case Bytes(bytes) => bytes
    case Entity(_, c) => [c]
    case Hex(_, _, ds) => Converted(Positional(ds, 16) % 0x1_0000_0000, encoding)
    case Dec(_, _, ds) =>
      Converted(if Positional(ds, 10) < 0x1_0000_0000 then Positional(ds, 10) else Accumulated(ds, 10, 1), encoding)
    case Stray => ""
  }

  /** A unit before the text t. */
  ghost predicate WellUnit(u: Unit, t: string, encoding: Encoding) {
    match u
    case Bytes(bytes) => bytes != "" && bytes != "&" && |bytes| == StepLength(bytes, encoding)
    case Entity(name, c) => IsNamed(name, c)
    case Hex(skipped, digits, ds) => EndsWith(skipped, 'x') && ';' !in skipped && Writes(digits, ds, 16)
    case Dec(skipped, digits, ds) =>
      EndsWith(skipped, '#') && ';' !in skipped && At(skipped, 0) != 'x' && Writes(digits, ds, 10)
    case Stray => (|t| < 2 || t[0] != '#') && forall name, c | IsNamed(name, c) :: !(name <= "&" + t)
  }

  predicate EndsWith(s: string, mark: char) {
    s == "" || s[|s| - 1] == mark
  }

  // ----- one unit -----

  lemma {:induction false} LastMark(skipped: string, h: string, mark: char)
    requires EndsWith(skipped, mark) && mark !in h
    ensures AfterLast(skipped + h, mark) == h
    decreases |h|
  {
    var s := skipped + h;
    if h != "" {
      var front, c := h[..|h| - 1], h[|h| - 1];
      assert c in h && s[|s| - 1] == c && s[..|s| - 1] == skipped + front && h == front + [c];
      LastMark(skipped, front, mark);
    } else {
      assert s == skipped;
    }
  }

  /** Digits, the same before and behind what is skipped. */
  lemma SkippedDigits(skipped: string, h: string, ds: seq<nat>, mark: char, base: nat)
    requires (base == 16 && mark == 'x') || (base == 10 && mark == '#')
    requires EndsWith(skipped, mark) && ';' !in skipped && Writes(h, ds, base)
    ensures ';' !in skipped + h && Digits(AfterLast(skipped + h, mark), base) == Some(ds)
  {
    DigitsRead(h, ds, base);
    DigitsArePure(h, base);
    LastMark(skipped, h, mark);
  }

  lemma HexUnitReads(u: Unit, t: string, encoding: Encoding)
    requires u.Hex? && WellUnit(u, t, encoding)
    ensures GetEntity(UnitText(u) + t, encoding) == Got(UnitValue(u, encoding), t)
  {
    var h := u.skipped + u.digits;
    SkippedDigits(u.skipped, u.digits, u.ds, 'x', 16);
    HexReads(h, t, encoding);
    HexSum(u.ds);
    ReferenceText("&#x", h, t);
  }

  lemma ReferenceText(start: string, h: string, t: string)
    ensures (start + (h + ";")) + t == start + (h + ([';'] + t))
  {
    Associate(start, h + ";", t);
    Associate(h, ";", t);
  }

  lemma DecUnitReads(u: Unit, t: string, encoding: Encoding)
    requires u.Dec? && WellUnit(u, t, encoding)
    ensures GetEntity(UnitText(u) + t, encoding) == Got(UnitValue(u, encoding), t)
  {
    var h := u.skipped + u.digits;
    var s, w := UnitText(u) + t, h + ([';'] + t);
    SkippedDigits(u.skipped, u.digits, u.ds, '#', 10);
    ReferenceText("&#", h, t);
    PrefixOfConcat("&#", w);
    assert s[2] == w[0];
    FirstOfDec(u.skipped, u.digits, u.ds, t);
    NumericReads(s, 2, h, t, '#', 10, encoding);
    if Positional(u.ds, 10) < M32 {
      SmallSum(u.ds, 10, 1);
    }
  }

  lemma FirstOfDec(skipped: string, h: string, ds: seq<nat>, t: string)
    requires At(skipped, 0) != 'x' && Writes(h, ds, 10)
    ensures (skipped + h + ([';'] + t))[0] != 'x'
  {
  }

  lemma StrayReads(t: string, encoding: Encoding)
    requires WellUnit(Stray, t, encoding)
    ensures GetEntity("&" + t, encoding) == Got("", t)
  {
    var s := "&" + t;
    assert s[1..] == t && (|s| > 1 ==> s[1] == t[0]);
    assert IsNamed("&amp;", '&') && IsNamed("&lt;", '<') && IsNamed("&gt;", '>');
    assert IsNamed("&quot;", '"') && IsNamed("&apos;", '\'');
  }

  lemma AmpersandIsOne(s: string, encoding: Encoding)
    requires s != "" && s[0] == '&'
    ensures GetChar(s, encoding) == GetEntity(s, encoding)
  {
  }

  /** Each unit is read as its value, up to its end. */
  lemma UnitReads(u: Unit, t: string, encoding: Encoding)
    requires WellUnit(u, t, encoding)
    ensures UnitText(u) != "" && GetChar(UnitText(u) + t, encoding) == Got(UnitValue(u, encoding), t)
  {
    match u
    case Bytes(bytes) => PrefixOfConcat(bytes, t);
    case Entity(name, c) =>
      NamedReads(name, c, t, encoding);
      AmpersandIsOne(name + t, encoding);
    case Hex(_, _, _) =>
      HexUnitReads(u, t, encoding);
      AmpersandIsOne(UnitText(u) + t, encoding);
    case Dec(_, _, _) =>
      DecUnitReads(u, t, encoding);
      AmpersandIsOne(UnitText(u) + t, encoding);
    case Stray =>
      StrayReads(t, encoding);
      AmpersandIsOne("&" + t, encoding);
  }

  // ----- from a text to its units -----

  lemma {:induction false} LastMarkOf(w: string, mark: char) returns (skipped: string)
    ensures w == skipped + AfterLast(w, mark) && EndsWith(skipped, mark)
    decreases |w|
  {
    if w == "" {
      skipped := "";
    } else if w[|w| - 1] == mark {
      skipped := w;
      assert w + "" == w;
    } else {
      var front := w[..|w| - 1];
      skipped := LastMarkOf(front, mark);
      Associate(skipped, AfterLast(front, mark), [w[|w| - 1]]);
      assert w == front + [w[|w| - 1]];
    }
  }

  lemma NumericOf(s: string, from: nat, mark: char, base: nat, encoding: Encoding)
    returns (skipped: string, h: string, ds: seq<nat>)
    requires from <= |s| && base in {10, 16} && Numeric(s, from, mark, base, encoding).Got?
    ensures EndsWith(skipped, mark) && ';' !in skipped && Writes(h, ds, base)
    ensures var g := Numeric(s, from, mark, base, encoding);
            g.bytes == Converted(Accumulated(ds, base, 1), encoding) && s[from..] == (skipped + h + ";") + g.rest
  {
    var w := s[from..];
    var i := FirstIndex(w, ';');
    skipped := LastMarkOf(w[..i], mark);
    h := AfterLast(w[..i], mark);
    ds := Digits(h, base).value;
    DigitsRead(h, ds, base);
    UpToFirst(w, ';');
    NotInFront(skipped, h, ';');
  }

  lemma UpToFirst(w: string, c: char)
    requires FirstIndex(w, c) < |w|
    ensures var i := FirstIndex(w, c); c !in w[..i] && w == w[..i] + [c] + w[i + 1..]
  {
  }

  lemma NotInFront(a: string, b: string, c: char)
    requires c !in a + b
    ensures c !in a
  {
    forall k | 0 <= k < |a|
      ensures a[k] != c
    {
      assert (a + b)[k] == a[k];
    }
  }

  lemma HexOf(s: string, encoding: Encoding) returns (u: Unit)
    requires |s| > 2 && s[0] == '&' && s[1] == '#' && s[2] == 'x' && GetEntity(s, encoding).Got?
    ensures var g := GetEntity(s, encoding);
            WellUnit(u, g.rest, encoding) && s == UnitText(u) + g.rest && g.bytes == UnitValue(u, encoding)
  {
    var skipped, h, ds := NumericOf(s, 3, 'x', 16, encoding);
    u := Hex(skipped, h, ds);
    HexSum(ds);
    assert s == "&#x" + s[3..];
    Associate("&#x", skipped + h + ";", GetEntity(s, encoding).rest);
  }

  lemma DecOf(s: string, encoding: Encoding) returns (u: Unit)
    requires |s| > 2 && s[0] == '&' && s[1] == '#' && s[2] != 'x' && GetEntity(s, encoding).Got?
    ensures var g := GetEntity(s, encoding);
            WellUnit(u, g.rest, encoding) && s == UnitText(u) + g.rest && g.bytes == UnitValue(u, encoding)
  {
    var skipped, h, ds := NumericOf(s, 2, '#', 10, encoding);
    u := Dec(skipped, h, ds);
    var g := GetEntity(s, encoding);
    assert s == "&#" + s[2..];
    Associate("&#", skipped + h + ";", g.rest);
    assert skipped != "" ==> skipped[0] == s[2];
    if Positional(ds, 10) < M32 {
      SmallSum(ds, 10, 1);
    }
  }

  lemma NamedOf(s: string, encoding: Encoding) returns (u: Unit)
    requires s != "" && s[0] == '&' && (|s| <= 2 || s[1] != '#')
    ensures var g := GetEntity(s, encoding);
            && g.Got? && WellUnit(u, g.rest, encoding) && s == UnitText(u) + g.rest && g.bytes == UnitValue(u, encoding)
  {
    var g := GetEntity(s, encoding);
    if name, c :| IsNamed(name, c) && name <= s {
      u := Entity(name, c);
      assert s == name + s[|name|..];
      NamedReads(name, c, s[|name|..], encoding);
    } else {
      u := Stray;
      assert s == "&" + s[1..];
      StrayReads(s[1..], encoding);
    }
  }

  /** Whatever was read as one character was such a unit. */
  lemma UnitOf(s: string, encoding: Encoding) returns (u: Unit)
    requires s != "" && GetChar(s, encoding).Got?
    ensures var g := GetChar(s, encoding);
            WellUnit(u, g.rest, encoding) && s == UnitText(u) + g.rest && g.bytes == UnitValue(u, encoding)
  {
    if s[0] == '&' {
      AmpersandIsOne(s, encoding);
      if |s| > 2 && s[1] == '#' {
        if s[2] == 'x' {
          u := HexOf(s, encoding);
        } else {
          u := DecOf(s, encoding);
        }
      } else {
        u := NamedOf(s, encoding);
      }
    } else {
      var n := StepLength(s, encoding);
      u := Bytes(s[..n]);
      assert s[..n][0] == s[0];
    }
  }

  // ----- values -----

  function UnitsText(us: seq<Unit>): string {
    if us == [] then "" else UnitText(us[0]) + UnitsText(us[1..])
  }

  function UnitsValue(us: seq<Unit>, encoding: Encoding): string {
    if us == [] then "" else UnitValue(us[0], encoding) + UnitsValue(us[1..], encoding)
  }

  /** Units before the text t, none of which begins with the mark that ends them. */
  ghost predicate WellUnits(us: seq<Unit>, mark: char, t: string, encoding: Encoding) {
    us == [] ||
    (&& WellUnit(us[0], UnitsText(us[1..]) + t, encoding) && At(UnitText(us[0]), 0) != mark
     && WellUnits(us[1..], mark, t, encoding))
  }

  lemma {:induction false} UnitsRead(us: seq<Unit>, q: char, t: string, encoding: Encoding)
    requires WellUnits(us, q, [q] + t, encoding)
    ensures ReadKeeping(UnitsText(us) + ([q] + t), [q], encoding) == Read(UnitsValue(us, encoding), t)
  {
    var u := [q] + t;
    if us == [] {
      assert "" + u == u && u[1..] == t;
    } else {
      UnitsRead(us[1..], q, t, encoding);
      NextUnit(us, q, u, encoding);
      ReadStep(UnitsText(us) + u, [q], encoding, UnitValue(us[0], encoding), UnitsText(us[1..]) + u);
    }
  }

  lemma NextUnit(us: seq<Unit>, mark: char, t: string, encoding: Encoding)
    requires us != [] && WellUnits(us, mark, t, encoding)
    ensures var s := UnitsText(us) + t;
            && s != "" && s[0] == At(UnitText(us[0]), 0) && !([mark] <= s)
            && GetChar(s, encoding) == Got(UnitValue(us[0], encoding), UnitsText(us[1..]) + t)
  {
    Associate(UnitText(us[0]), UnitsText(us[1..]), t);
    UnitReads(us[0], UnitsText(us[1..]) + t, encoding);
  }

  lemma FirstUnit(s: string, encoding: Encoding) returns (u: Unit)
    requires s != "" && GetChar(s, encoding).Got?
    ensures var g := GetChar(s, encoding);
            && WellUnit(u, g.rest, encoding) && s == UnitText(u) + g.rest && g.bytes == UnitValue(u, encoding)
            && UnitText(u) != "" && s[0] == At(UnitText(u), 0)
  {
    u := UnitOf(s, encoding);
    UnitReads(u, GetChar(s, encoding).rest, encoding);
  }

  lemma {:induction false} UnitsOf(s: string, q: char, encoding: Encoding) returns (us: seq<Unit>)
    requires ReadKeeping(s, [q], encoding).Read?
    ensures var r := ReadKeeping(s, [q], encoding);
            && WellUnits(us, q, [q] + r.rest, encoding) && s == UnitsText(us) + ([q] + r.rest)
            && r.text == UnitsValue(us, encoding)
    decreases |s|
  {
    if [q] <= s {
      us := [];
      assert s == "" + ([q] + s[1..]);
    } else {
      var g := GetChar(s, encoding);
      var u := FirstUnit(s, encoding);
      var more := UnitsOf(g.rest, q, encoding);
      us := [u] + more;
      assert us[1..] == more;
      Associate(UnitText(u), UnitsText(more), [q] + ReadKeeping(s, [q], encoding).rest);
    }
  }

  /** A value is read up to its quote if and only if it consists of such units, none beginning with the quote, and the
      result is theirs. */
  lemma ReadsExactly(s: string, q: char, v: string, t: string, encoding: Encoding)
    ensures ReadKeeping(s, [q], encoding) == Read(v, t) <==>
              exists us :: WellUnits(us, q, [q] + t, encoding) && s == UnitsText(us) + ([q] + t)
                           && v == UnitsValue(us, encoding)
  {
    if ReadKeeping(s, [q], encoding) == Read(v, t) {
      var us := UnitsOf(s, q, encoding);
    }
    forall us | WellUnits(us, q, [q] + t, encoding) && s == UnitsText(us) + ([q] + t) && v == UnitsValue(us, encoding)
      ensures ReadKeeping(s, [q], encoding) == Read(v, t)
    {
      UnitsRead(us, q, t, encoding);
    }
  }

  lemma {:induction false} UnitsUnended(us: seq<Unit>, q: char, encoding: Encoding)
    requires WellUnits(us, q, "", encoding)
    ensures ReadKeeping(UnitsText(us), [q], encoding) == Unended(UnitsValue(us, encoding))
  {
    if us != [] {
      var s, rest := UnitsText(us), UnitsText(us[1..]);
      UnitsUnended(us[1..], q, encoding);
      NextUnit(us, q, "", encoding);
      assert s + "" == s && rest + "" == rest;
      ReadStep(s, [q], encoding, UnitValue(us[0], encoding), rest);
    }
  }

  lemma {:induction false} UnendedUnitsOf(s: string, q: char, encoding: Encoding) returns (us: seq<Unit>)
    requires ReadKeeping(s, [q], encoding).Unended?
    ensures WellUnits(us, q, "", encoding) && s == UnitsText(us)
    ensures ReadKeeping(s, [q], encoding).text == UnitsValue(us, encoding)
    decreases |s|
  {
    if s == "" {
      us := [];
    } else {
      var g := GetChar(s, encoding);
      var u := FirstUnit(s, encoding);
      var more := UnendedUnitsOf(g.rest, q, encoding);
      us := [u] + more;
      assert us[1..] == more && g.rest + "" == g.rest;
    }
  }

  /** Reading steps over the terminator if and only if the whole rest of the text consists of such units: the quote is
      missing. */
  lemma UnendedExactly(s: string, q: char, v: string, encoding: Encoding)
    ensures ReadKeeping(s, [q], encoding) == Unended(v) <==>
              exists us :: WellUnits(us, q, "", encoding) && s == UnitsText(us) && v == UnitsValue(us, encoding)
  {
    if ReadKeeping(s, [q], encoding) == Unended(v) {
      var us := UnendedUnitsOf(s, q, encoding);
    }
    forall us | WellUnits(us, q, "", encoding) && s == UnitsText(us) && v == UnitsValue(us, encoding)
      ensures ReadKeeping(s, [q], encoding) == Unended(v)
    {
      UnitsUnended(us, q, encoding);
    }
  }

  // ----- texts -----

  /** Space, tab, line feed, vertical tab, form feed or carriage return, as it is and not as a reference. */
  predicate IsWhite(u: Unit) {
    u.Bytes? && |u.bytes| == 1 && u.bytes[0] as int in {0x20, 0x09, 0x0A, 0x0B, 0x0C, 0x0D}
  }

  /** The values of the runs of other units. */
  function WordsOf(us: seq<Unit>, encoding: Encoding): (ws: seq<string>)
    ensures us != [] && !IsWhite(us[0]) ==> ws != []
  {
    if us == [] then []
    else
      var v, more := UnitValue(us[0], encoding), WordsOf(us[1..], encoding);
      if IsWhite(us[0]) then more
      else if |us| == 1 || IsWhite(us[1]) then [v] + more
      else [v + more[0]] + more[1..]
  }

  /** Words with one space between them, and one before them behind other white space. */
  function Condensed(us: seq<Unit>, pending: bool, encoding: Encoding): string {
    var ws := WordsOf(us, encoding);
    if ws == [] then "" else (if pending || IsWhite(us[0]) then " " else "") + Join(ws)
  }

  lemma WhiteUnit(u: Unit, t: string, encoding: Encoding)
    requires WellUnit(u, t, encoding)
    ensures IsWhite(u) <==> IsSpace(At(UnitText(u), 0))
    ensures IsWhite(u) ==> |UnitText(u)| == 1
  {
    UnitReads(u, t, encoding);
  }

  lemma {:induction false} TextRead(us: seq<Unit>, pending: bool, t: string, encoding: Encoding)
    requires WellUnits(us, '<', "<" + t, encoding)
    ensures Condense(UnitsText(us) + ("<" + t), pending, "<", encoding) == Read(Condensed(us, pending, encoding), t)
  {
    var u := "<" + t;
    if us == [] {
      assert "" + u == u && u[1..] == t;
    } else {
      var s, rest := UnitsText(us) + u, UnitsText(us[1..]) + u;
      NextUnit(us, '<', u, encoding);
      WhiteUnit(us[0], rest, encoding);
      TextRead(us[1..], IsWhite(us[0]), t, encoding);
      if IsWhite(us[0]) {
        Associate(UnitText(us[0]), UnitsText(us[1..]), u);
        assert s[1..] == rest;
      } else {
        JoinUnit(us, pending, encoding);
      }
    }
  }

  lemma JoinUnit(us: seq<Unit>, pending: bool, encoding: Encoding)
    requires us != [] && !IsWhite(us[0])
    ensures var p, ws, more := if pending then " " else "", WordsOf(us, encoding), WordsOf(us[1..], encoding);
            p + Join(ws) == (p + UnitValue(us[0], encoding))
              + (if more == [] then "" else (if IsWhite(us[1]) then " " else "") + Join(more))
  {
    var p, v, more := if pending then " " else "", UnitValue(us[0], encoding), WordsOf(us[1..], encoding);
    if |us| == 1 || IsWhite(us[1]) {
      JoinWord(p, v, more);
    } else {
      JoinOn(p, v, more);
    }
  }

  lemma JoinWord(p: string, v: string, more: seq<string>)
    ensures p + Join([v] + more) == (p + v) + (if more == [] then "" else " " + Join(more))
  {
    assert ([v] + more)[1..] == more;
    if more == [] {
      assert (p + v) + "" == p + v;
    } else {
      Associate(v, " ", Join(more));
      Associate(p, v, " " + Join(more));
    }
  }

  lemma JoinOn(p: string, v: string, more: seq<string>)
    requires more != []
    ensures p + Join([v + more[0]] + more[1..]) == (p + v) + ("" + Join(more))
  {
    var ws := [v + more[0]] + more[1..];
    assert ws[1..] == more[1..] && "" + Join(more) == Join(more);
    if |more| == 1 {
      Associate(p, v, more[0]);
    } else {
      var rest := " " + Join(more[1..]);
      assert Join(ws) == v + more[0] + " " + Join(more[1..]);
      Associate(v + more[0], " ", Join(more[1..]));
      Associate(v, more[0], rest);
      Associate(more[0], " ", Join(more[1..]));
      Associate(p, v, more[0] + rest);
    }
  }

  lemma {:induction false} TextUnitsOf(s: string, pending: bool, encoding: Encoding) returns (us: seq<Unit>)
    requires Condense(s, pending, "<", encoding).Read?
    ensures var t := Condense(s, pending, "<", encoding).rest;
            WellUnits(us, '<', "<" + t, encoding) && s == UnitsText(us) + ("<" + t)
    decreases |s|
  {
    if "<" <= s {
      us := [];
      assert s == "" + ("<" + s[1..]);
    } else {
      var u := if IsSpace(s[0]) then Bytes([s[0]]) else Stray;
      var rest, white := s[1..], IsSpace(s[0]);
      if white {
        SpaceIsOne(s, encoding);
        assert s == [s[0]] + rest;
      } else {
        u := FirstUnit(s, encoding);
        rest := GetChar(s, encoding).rest;
      }
      var more := TextUnitsOf(rest, white, encoding);
      us := [u] + more;
      assert us[1..] == more;
      Associate(UnitText(u), UnitsText(more), "<" + Condense(s, pending, "<", encoding).rest);
    }
  }

  lemma SpaceIsOne(s: string, encoding: Encoding)
    requires s != "" && IsSpace(s[0])
    ensures WellUnit(Bytes([s[0]]), s[1..], encoding)
  {
  }

  /** A text is read up to the next '<' if and only if it consists of such units, none beginning with '<', and the
      result are its words with one space between them. White space written as a reference is no white space. */
  lemma TextReadsExactly(s: string, v: string, t: string, encoding: Encoding)
    ensures Condense(s, false, "<", encoding) == Read(v, t) <==>
              exists us :: WellUnits(us, '<', "<" + t, encoding) && s == UnitsText(us) + ("<" + t)
                           && v == Condensed(us, false, encoding)
  {
    if Condense(s, false, "<", encoding) == Read(v, t) {
      var us := TextUnitsOf(s, false, encoding);
      TextRead(us, false, t, encoding);
    }
    forall us
      | WellUnits(us, '<', "<" + t, encoding) && s == UnitsText(us) + ("<" + t) && v == Condensed(us, false, encoding)
      ensures Condense(s, false, "<", encoding) == Read(v, t)
    {
      TextRead(us, false, t, encoding);
    }
  }
}
