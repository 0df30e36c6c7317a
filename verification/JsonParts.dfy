/** What cJSON_Minify drops and what it keeps, by a grammar of the text: white space, comments, string literals and
    other characters. */
module JsonParts {
  import opened CStrings
  import opened JsonMinify

  datatype Part =
    | Blank(c: char)
    | Line(text: string)    // two slashes up to the end of the line
    | Block(text: string)   // slash star up to star slash
    | ShortBlock            // slash star slash is closed at once
    | Quoted(units: seq<Unit>)
    | Mark(c: char)

  /** A character of a string literal, or a backslash and any character. */
  datatype Unit = Bare(c: char) | Escaped(c: char)

  function UnitText(u: Unit): string {
    match u
    case Bare(c) => [c]
    case Escaped(c) => ['\\', c]
  }

  function UnitsText(us: seq<Unit>): string {
    if us == [] then "" else UnitText(us[0]) + UnitsText(us[1..])
  }

  function PartText(p: Part): string {
    match p
    case Blank(c) => [c]
    case Line(text) => "//" + text
    case Block(text) => "/*" + text + "*/"
    case ShortBlock => "/*/"
    case Quoted(units) => "\"" + UnitsText(units) + "\""
    case Mark(c) => [c]
  }

  function TextOf(ps: seq<Part>): string {
    if ps == [] then "" else PartText(ps[0]) + TextOf(ps[1..])
  }

  /** Only string literals and other characters are kept. */
  function KeptOf(ps: seq<Part>): string {
    if ps == [] then "" else (if ps[0].Quoted? || ps[0].Mark? then PartText(ps[0]) else "") + KeptOf(ps[1..])
  }

  ghost predicate WellUnit(u: Unit) {
    u.Bare? ==> u.c != '\"' && u.c != '\\'
  }

  /** A part before the text t: a line comment ends with its line, a block comment at its first star slash, and a slash
      on its own begins no comment. */
  ghost predicate WellPart(p: Part, t: string) {
    match p
    case Blank(c) => c in " \t\r\n"
    case Line(text) => '\n' !in text && (t == "" || t[0] == '\n')
    case Block(text) =>
      && (text != "" ==> text[0] != '/')
      && forall i | 0 < i < |text| :: !(text[i - 1] == '*' && text[i] == '/')
    case ShortBlock => true
    case Quoted(units) => forall i | 0 <= i < |units| :: WellUnit(units[i])
    case Mark(c) => c !in " \t\r\n\"" && (c == '/' ==> t == "" || t[0] !in "/*")
  }

  ghost predicate WellParts(ps: seq<Part>) {
    forall i | 0 <= i < |ps| :: WellPart(ps[i], TextOf(ps[i + 1..]))
  }

  // ----- from parts to what is left -----

  lemma {:induction false} LineEndOf(text: string, t: string)
    requires '\n' !in text && (t == "" || t[0] == '\n')
    ensures LineEnd(text + t) == t
  {
    if text == "" {
      assert "" + t == t;
    } else {
      assert (text + t)[1..] == text[1..] + t;
      LineEndOf(text[1..], t);
    }
  }

  /** Where a block comment ends, whatever its first character. */
  lemma {:induction false} CommentEndOf(text: string, t: string)
    requires forall i | 0 < i < |text| :: !(text[i - 1] == '*' && text[i] == '/')
    ensures CommentEnd(text + "*/" + t) == "*/" + t
  {
    if text == "" {
      assert "" + "*/" + t == "*/" + t;
    } else {
      var s := text + "*/" + t;
      assert s[0] == text[0] && s[1] == if |text| > 1 then text[1] else '*';
      assert s[1..] == text[1..] + "*/" + t;
      CommentEndOf(text[1..], t);
    }
  }

  lemma {:induction false} UnitsScanned(us: seq<Unit>, t: string)
    requires forall i | 0 <= i < |us| :: WellUnit(us[i])
    ensures LiteralRest(UnitsText(us) + ("\"" + t)) == Literal(|UnitsText(us)| + 1)
  {
    if us == [] {
      assert "" + ("\"" + t) == "\"" + t;
    } else {
      var u, more := UnitText(us[0]), UnitsText(us[1..]) + ("\"" + t);
      Associate(u, UnitsText(us[1..]), "\"" + t);
      PrefixOfConcat(u, more);
      UnitsScanned(us[1..], t);
    }
  }

  lemma QuotedMinified(us: seq<Unit>, t: string)
    requires forall i | 0 <= i < |us| :: WellUnit(us[i])
    ensures Minify("\"" + UnitsText(us) + "\"" + t) == Onto("\"" + UnitsText(us) + "\"", Minify(t))
  {
    var q := "\"" + UnitsText(us) + "\"";
    UnitsScanned(us, t);
    assert (q + t)[1..] == UnitsText(us) + ("\"" + t);
    LiteralMinified(q + t, q, t);
  }

  lemma LineMinified(text: string, t: string)
    requires '\n' !in text && (t == "" || t[0] == '\n')
    ensures Minify("//" + text + t) == Minify(t)
  {
    var s := "//" + text + t;
    assert s[1..] == ("/" + text) + t;
    LineEndOf("/" + text, t);
  }

  /** `tail` is what follows the first two characters: the star just passed may close the comment. */
  lemma BlockMinified(s: string, text: string, t: string)
    requires |s| >= 2 && s[0] == '/' && s[1..] == text + "*/" + t && s[1] == '*'
    requires forall i | 0 < i < |text| :: !(text[i - 1] == '*' && text[i] == '/')
    ensures Minify(s) == Minify(t)
  {
    CommentEndOf(text, t);
    assert ("*/" + t)[2..] == t;
  }

  lemma LongMinified(text: string, t: string)
    requires text != "" ==> text[0] != '/'
    requires forall i | 0 < i < |text| :: !(text[i - 1] == '*' && text[i] == '/')
    ensures Minify("/*" + text + "*/" + t) == Minify(t)
  {
    var s := "/*" + text + "*/" + t;
    assert s[1..] == ("*" + text) + "*/" + t;
    BlockMinified(s, "*" + text, t);
  }

  lemma ShortMinified(t: string)
    ensures Minify("/*/" + t) == Minify(t)
  {
    var s := "/*/" + t;
    assert s[1..] == "" + "*/" + t;
    BlockMinified(s, "", t);
  }

  lemma PartMinified(p: Part, t: string)
    requires WellPart(p, t)
    ensures Minify(PartText(p) + t) == Onto(if p.Quoted? || p.Mark? then PartText(p) else "", Minify(t))
  {
    OntoEmpty(Minify(t));
    var s := PartText(p) + t;
    match p
    case Blank(c) => assert s[1..] == t;
    case Line(text) => LineMinified(text, t);
    case Block(text) => LongMinified(text, t);
    case ShortBlock => ShortMinified(t);
    case Quoted(units) => QuotedMinified(units, t);
    case Mark(c) => assert s[1..] == t;
  }

  lemma OntoEmpty(m: Minified)
    ensures Onto("", m) == m
  {
    if m.Minified? {
      assert "" + m.text == m.text;
    }
  }

  lemma {:induction false} PartsMinified(ps: seq<Part>)
    requires WellParts(ps)
    ensures Minify(TextOf(ps)) == Minified(KeptOf(ps))
  {
    if ps != [] {
      var t := TextOf(ps[1..]);
      assert ps[0 + 1..] == ps[1..];
      TailWell(ps);
      PartMinified(ps[0], t);
      PartsMinified(ps[1..]);
    }
  }

  lemma TailWell(ps: seq<Part>)
    requires WellParts(ps) && ps != []
    ensures WellParts(ps[1..])
  {
    forall i | 0 <= i < |ps| - 1 ensures WellPart(ps[1..][i], TextOf(ps[1..][i + 1..])) {
      assert ps[1..][i] == ps[i + 1] && ps[1..][i + 1..] == ps[i + 1 + 1..];
    }
  }

  lemma HeadWell(p: Part, ps: seq<Part>)
    requires WellParts(ps) && WellPart(p, TextOf(ps))
    ensures WellParts([p] + ps) && TextOf([p] + ps) == PartText(p) + TextOf(ps)
    ensures KeptOf([p] + ps) == (if p.Quoted? || p.Mark? then PartText(p) else "") + KeptOf(ps)
  {
    var all := [p] + ps;
    assert all[1..] == ps;
    forall i | 0 <= i < |all| ensures WellPart(all[i], TextOf(all[i + 1..])) {
      if i > 0 {
        assert all[i] == ps[i - 1] && all[i + 1..] == ps[i - 1 + 1..];
      }
    }
  }

  // ----- from a text to its parts -----

  lemma {:induction false} LineOf(s: string) returns (text: string)
    ensures s == text + LineEnd(s) && '\n' !in text && (LineEnd(s) == "" || LineEnd(s)[0] == '\n')
  {
    if s == "" || s[0] == '\n' {
      text := "";
    } else {
      var more := LineOf(s[1..]);
      text := [s[0]] + more;
    }
  }

  lemma {:induction false} BlockOf(s: string) returns (text: string)
    requires CommentEnd(s) != ""
    ensures s == text + "*/" + CommentEnd(s)[2..]
    ensures forall i | 0 < i < |text| :: !(text[i - 1] == '*' && text[i] == '/')
  {
    if StarSlash(s) {
      text := "";
      assert s == "*/" + s[2..];
    } else {
      var more := BlockOf(s[1..]);
      text := [s[0]] + more;
      assert s == [s[0]] + s[1..];
      assert more != "" ==> more[0] == s[1];
    }
  }

  lemma {:induction false} UnitsOf(s: string) returns (us: seq<Unit>)
    requires LiteralRest(s).Literal?
    ensures (forall i | 0 <= i < |us| :: WellUnit(us[i])) && s[..LiteralRest(s).len] == UnitsText(us) + "\""
    decreases |s|
  {
    if s[0] == '\"' {
      us := [];
    } else {
      var u := if s[0] == '\\' then Escaped(s[1]) else Bare(s[0]);
      var k := |UnitText(u)|;
      var more := UnitsOf(s[k..]);
      us := [u] + more;
      assert us[1..] == more;
      UnitsSplit(s, k, LiteralRest(s).len);
    }
  }

  lemma UnitsSplit(s: string, k: nat, n: nat)
    requires k <= n <= |s|
    ensures s[..n] == s[..k] + s[k..][..n - k]
  {
  }

  ghost predicate Begins(s: string, p: Part, t: string) {
    s == PartText(p) + t && |t| < |s| && WellPart(p, t) && Minify(t).Minified?
  }

  lemma LinePart(s: string) returns (p: Part, t: string)
    requires At(s, 0) == At(s, 1) == '/' && Minify(s).Minified?
    ensures Begins(s, p, t)
  {
    var text := LineOf(s[1..]);
    t := LineEnd(s[1..]);
    p := Line(text[1..]);
    assert s == "/" + (text + t) && text[0] == '/' && text == "/" + text[1..];
  }

  lemma BlockPart(s: string) returns (p: Part, t: string)
    requires At(s, 0) == '/' && At(s, 1) == '*' && Minify(s).Minified?
    ensures Begins(s, p, t)
  {
    var text := BlockOf(s[1..]);
    t := CommentEnd(s[1..])[2..];
    assert s == "/" + (text + "*/" + t);
    if text == "" {
      p := ShortBlock;
    } else {
      p := Block(text[1..]);
      assert text == "*" + text[1..];
      assert forall i | 0 < i < |text[1..]| :: text[1..][i - 1] == text[i] && text[1..][i] == text[i + 1];
    }
  }

  lemma QuotedPart(s: string) returns (p: Part, t: string)
    requires At(s, 0) == '\"' && Minify(s).Minified?
    ensures Begins(s, p, t)
  {
    var us := UnitsOf(s[1..]);
    var n := LiteralRest(s[1..]).len;
    p, t := Quoted(us), s[1 + n..];
    assert s == "\"" + s[1..][..n] + t;
  }

  lemma FirstPart(s: string) returns (p: Part, t: string)
    requires s != "" && Minify(s).Minified?
    ensures Begins(s, p, t)
  {
    if s[0] == '/' && At(s, 1) == '/' {
      p, t := LinePart(s);
    } else if s[0] == '/' && At(s, 1) == '*' {
      p, t := BlockPart(s);
    } else if s[0] == '\"' {
      p, t := QuotedPart(s);
    } else {
      p, t := if IsSpace(s[0]) then Blank(s[0]) else Mark(s[0]), s[1..];
    }
  }

  lemma {:induction false} PartsOf(s: string) returns (ps: seq<Part>)
    requires Minify(s).Minified?
    ensures WellParts(ps) && TextOf(ps) == s && KeptOf(ps) == Minify(s).text
    decreases |s|
  {
    if s == "" {
      ps := [];
    } else {
      var p, t := FirstPart(s);
      var more := PartsOf(t);
      HeadWell(p, more);
      PartMinified(p, t);
      ps := [p] + more;
    }
  }

  /** The minifier leaves t of a text if and only if the text consists of such parts, the kept ones giving t: white
      space and comments vanish, and an unclosed comment or string is all it can stumble over. */
  lemma MinifiesExactly(s: string, t: string)
    ensures Minify(s) == Minified(t) <==> exists ps :: WellParts(ps) && TextOf(ps) == s && KeptOf(ps) == t
  {
    if Minify(s) == Minified(t) {
      var ps := PartsOf(s);
    }
    forall ps | WellParts(ps) && TextOf(ps) == s && KeptOf(ps) == t ensures Minify(s) == Minified(t) {
      PartsMinified(ps);
    }
  }
}
