/** The layout of printed elements, and how their values are written. */
module XmlLayout {
  import opened CStrings
  import opened Numerals
  import opened XmlAttributes
  import opened XmlText
  import opened XmlTree

  // ----- rows -----

  /** What stands on one row, and at what depth. */
  datatype Row = Row(depth: nat, text: string)

  /** The attributes of a start tag, each behind one space. */
  function AttrsOf(c: seq<Pair>): string {
    if c == [] then ""
    else
      var q := if '\"' !in c[0].value then "\"" else "\'";
      " " + (EncodeString(c[0].name) + "=" + q + EncodeString(c[0].value) + q) + AttrsOf(c[1..])
  }

  function Start(name: string, attrs: seq<Pair>): string {
    "<" + name + AttrsOf(Shown(attrs))
  }

  lemma {:induction false} StartIs(c: seq<Pair>)
    ensures PrintAttrs(c) == AttrsOf(c)
  {
    if c != [] {
      AttrQuoted(c[0]);
      StartIs(c[1..]);
    }
  }

  /** A row for a text, for an element without children or with one text alone, and for every other start and end tag.
      */
  function Rows(n: Tree, depth: nat): seq<Row>
    decreases n, 0
  {
    match n
    case Text(v) => [Row(depth, EncodeString(v))]
    case Element(name, attrs, kids) =>
      if kids == [] then [Row(depth, Start(name, attrs) + " />")]
      else if |kids| == 1 && kids[0].Text? then
        [Row(depth, Start(name, attrs) + ">" + EncodeString(kids[0].value) + "</" + name + ">")]
      else [Row(depth, Start(name, attrs) + ">")] + AllRows(kids, depth + 1) + [Row(depth, "</" + name + ">")]
  }

  function AllRows(ns: seq<Tree>, depth: nat): seq<Row>
    decreases ns, 0
  {
    if ns == [] then [] else Rows(ns[0], depth) + AllRows(ns[1..], depth)
  }

  /** Each row on its line, indented by `width` spaces a level. */
  function Lines(rows: seq<Row>, width: nat): string {
    if rows == [] then "" else Spaces(width * rows[0].depth) + rows[0].text + "\n" + Lines(rows[1..], width)
  }

  function Spaces(n: nat): string {
    seq(n, _ => ' ')
  }

  /** All rows on one line, with nothing between them. */
  function OnOneLine(rows: seq<Row>): string {
    if rows == [] then "" else rows[0].text + OnOneLine(rows[1..])
  }

  /** The rows in any style. */
  function Styled(rows: seq<Row>, style: Style): string {
    if rows == [] then ""
    else Repeat(style.indent, rows[0].depth) + rows[0].text + style.lineBreak + Styled(rows[1..], style)
  }

  lemma {:induction false} StyledConcat(a: seq<Row>, b: seq<Row>, style: Style)
    ensures Styled(a + b, style) == Styled(a, style) + Styled(b, style)
  {
    if a == [] {
      assert a + b == b && "" + Styled(b, style) == Styled(b, style);
    } else {
      assert (a + b)[1..] == a[1..] + b;
      StyledConcat(a[1..], b, style);
      var line := Repeat(style.indent, a[0].depth) + a[0].text + style.lineBreak;
      Associate(line, Styled(a[1..], style), Styled(b, style));
    }
  }

  lemma StyledOne(r: Row, style: Style)
    ensures Styled([r], style) == Repeat(style.indent, r.depth) + r.text + style.lineBreak
  {
    var x := Repeat(style.indent, r.depth) + r.text + style.lineBreak;
    assert [r][1..] == [] && x + "" == x;
  }

  lemma {:induction false} PrintedInRows(n: Tree, depth: nat, style: Style)
    ensures PrintNode(n, depth, style) == Styled(Rows(n, depth), style)
    decreases n, 0
  {
    match n
    case Text(v) => StyledOne(Row(depth, EncodeString(v)), style);
    case Element(name, attrs, kids) =>
      StartIs(Shown(attrs));
      if kids != [] && !Simple(kids) {
        PrintedAllRows(kids, depth + 1, style);
        TagRows(OpenTag(name, attrs), EndTag(name), depth, AllRows(kids, depth + 1), style);
      } else {
        OneRow(n, depth, style);
      }
  }

  lemma OneRow(n: Tree, depth: nat, style: Style)
    requires n.Element? && (n.kids == [] || Simple(n.kids))
    ensures PrintNode(n, depth, style) == Styled(Rows(n, depth), style)
  {
    var w, o := Repeat(style.indent, depth), OpenTag(n.name, n.attrs);
    StartIs(Shown(n.attrs));
    StyledOne(Rows(n, depth)[0], style);
    if n.kids == [] {
      Associate(w, o, " />");
    } else {
      var v, e := EncodeString(n.kids[0].value), EndTag(n.name);
      SimpleText(w, o, v, n.name);
    }
  }

  lemma SimpleText(w: string, o: string, v: string, name: string)
    ensures w + o + (">" + v + ("</" + name + ">")) == w + (o + ">" + v + "</" + name + ">")
  {
    var e := "</" + name + ">";
    Associate(o + ">" + v, "</", name);
    Associate(o + ">" + v, "</" + name, ">");
    Associate(o + ">", v, e);
    Associate(o, ">", v + e);
    Associate(">", v, e);
    Associate(w, o, ">" + v + e);
  }

  lemma TagRows(o: string, e: string, depth: nat, rows: seq<Row>, style: Style)
    ensures Styled([Row(depth, o + ">")] + rows + [Row(depth, e)], style)
         == Repeat(style.indent, depth) + o
            + (">" + (style.lineBreak + Styled(rows, style) + Repeat(style.indent, depth)) + e) + style.lineBreak
  {
    StyledConcat([Row(depth, o + ">")] + rows, [Row(depth, e)], style);
    StyledConcat([Row(depth, o + ">")], rows, style);
    StyledOne(Row(depth, o + ">"), style);
    StyledOne(Row(depth, e), style);
    TagText(Repeat(style.indent, depth), o, style.lineBreak, Styled(rows, style), e);
  }

  lemma TagText(w: string, o: string, nl: string, x: string, e: string)
    ensures (w + (o + ">") + nl + x) + (w + e + nl) == w + o + (">" + (nl + x + w) + e) + nl
  {
    var y := w + o;
    Associate(w, o, ">");
    Associate(w + o, ">", nl + x + w + e);
    Associate(">", nl + x + w, e);
    Associate(y + ">", nl, x);
    Associate(y + ">" + (nl + x), w + e, nl);
    Associate(nl + x, w, e);
    Associate(y + ">", nl + x, w + e);
    assert (w + (o + ">") + nl + x) + (w + e + nl) == ((y + ">") + (nl + x)) + ((w + e) + nl);
  }

  lemma {:induction false} PrintedAllRows(ns: seq<Tree>, depth: nat, style: Style)
    ensures PrintNodes(ns, depth, style) == Styled(AllRows(ns, depth), style)
    decreases ns, 0
  {
    if ns != [] {
      PrintedInRows(ns[0], depth, style);
      PrintedAllRows(ns[1..], depth, style);
      StyledConcat(Rows(ns[0], depth), AllRows(ns[1..], depth), style);
    }
  }

  lemma {:induction false} FourSpaces(n: nat)
    ensures Repeat("    ", n) == Spaces(4 * n)
  {
    if n > 0 {
      FourSpaces(n - 1);
      assert Spaces(4 * n) == "    " + Spaces(4 * (n - 1));
    }
  }

  lemma {:induction false} PrettyLines(rows: seq<Row>)
    ensures Styled(rows, Pretty) == Lines(rows, 4)
  {
    if rows != [] {
      FourSpaces(rows[0].depth);
      PrettyLines(rows[1..]);
    }
  }

  lemma {:induction false} NoIndent(n: nat)
    ensures Repeat("", n) == ""
  {
    if n > 0 {
      NoIndent(n - 1);
    }
  }

  lemma {:induction false} StreamLine(rows: seq<Row>)
    ensures Styled(rows, Stream) == OnOneLine(rows)
  {
    if rows != [] {
      NoIndent(rows[0].depth);
      StreamLine(rows[1..]);
      assert "" + rows[0].text + "" == rows[0].text;
    }
  }

  /** Printing puts every row on its own line, indented by four spaces a level; stream printing puts the same rows on
      one line with nothing between them. */
  lemma PrintedAndStreamed(n: Tree, depth: nat)
    ensures PrintNode(n, depth, Pretty) == Lines(Rows(n, depth), 4)
    ensures PrintNode(n, depth, Stream) == OnOneLine(Rows(n, depth))
  {
    PrintedInRows(n, depth, Pretty);
    PrintedInRows(n, depth, Stream);
    PrettyLines(Rows(n, depth));
    StreamLine(Rows(n, depth));
  }

  /** A value stands in double quotes exactly if it holds none. */
  lemma AttrQuoted(a: Pair)
    ensures var q := if '\"' !in a.value then "\"" else "\'";
            PrintAttr(a) == EncodeString(a.name) + "=" + q + EncodeString(a.value) + q
  {
    var q := if '\"' !in a.value then "\"" else "\'";
    var n, v := EncodeString(a.name), EncodeString(a.value);
    assert "=" + q == ['=', q[0]];
    Associate(n, "=", q);
    Associate(n, "=" + q, v + q);
    Associate(n + ("=" + q), v, q);
  }

  // ----- values -----

  /** How a character is written: by its name, by two hexadecimal digits in upper case, or as it is. */
  lemma WrittenAs(c: char)
    ensures c == '&' ==> EncodeByte(c) == "&amp;"
    ensures c == '<' ==> EncodeByte(c) == "&lt;"
    ensures c == '>' ==> EncodeByte(c) == "&gt;"
    ensures c == '\"' ==> EncodeByte(c) == "&quot;"
    ensures c == '\'' ==> EncodeByte(c) == "&apos;"
    ensures c as int < 0x20 ==>
              EncodeByte(c) == "&#x" + ["0123456789ABCDEF"[c as int / 16], "0123456789ABCDEF"[c as int % 16]] + ";"
    ensures c as int >= 0x20 && c !in {'&', '<', '>', '\"', '\''} ==> EncodeByte(c) == [c]
  {
    HexDigitIs(c as int % 16);
    if c as int < 0x20 {
      HexDigitIs(c as int / 16);
    }
  }

  lemma HexDigitIs(d: nat)
    requires d < 16
    ensures HexDigit(d) == "0123456789ABCDEF"[d]
  {
  }

  /** A text is written character by character, */
  lemma EncodedFirst(c: char, t: string)
    requires !("&#x" <= [c] + t)
    ensures EncodeString([c] + t) == EncodeByte(c) + EncodeString(t)
  {
    var s := [c] + t;
    assert s[1..] == t;
    ReferenceIs(s);
  }

  lemma ReferenceIs(s: string)
    ensures IsReference(s) <==> "&#x" <= s
  {
    if |s| >= 3 {
      assert s[..3] == [s[0], s[1], s[2]];
    }
  }

  lemma {:induction false} PassesTo(x: string, t: string, n: nat)
    requires 1 <= n <= |x| && t != "" && (|t| == 1 || t[0] == ';')
    requires forall k | n <= k < |x| :: x[k] != ';'
    ensures PassedThrough(x + t, n) == |x|
    decreases |x| - n
  {
    if n < |x| {
      PassesTo(x, t, n + 1);
    }
  }

  /** but what begins with "&#x" passes through as it is, up to the next ';' if there is one, */
  lemma PassesThrough(x: string, t: string)
    requires ';' !in x
    ensures EncodeString("&#x" + x + ";" + t) == "&#x" + x + ";" + EncodeString(t)
  {
    var r := "&#x" + x;
    var s := r + ";" + t;
    assert s == r + (";" + t) && s[..3] == "&#x";
    ReferenceIs(s);
    PassesTo(r, ";" + t, 1);
    PrefixOfConcat(r, ";" + t);
    EncodedFirst(';', t);
    Associate(r, ";", EncodeString(t));
  }

  /** and otherwise up to the last character. */
  lemma PassesToTheLast(x: string, c: char)
    requires ';' !in x && "&#x" <= x + [c]
    ensures EncodeString(x + [c]) == x + EncodeByte(c)
  {
    var s := x + [c];
    ReferenceIs(s);
    PassesTo(x, [c], 1);
    PrefixOfConcat(x, [c]);
    assert [c] + "" == [c] && EncodeByte(c) + "" == EncodeByte(c);
    EncodedFirst(c, "");
  }
}
