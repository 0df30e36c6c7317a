/** XML printing is undone by parsing. */
module XmlRoundTrip {
  import opened CStrings
  import opened XmlBytes
  import opened XmlText
  import opened XmlCondense
  import opened XmlAttributes
  import opened XmlTree

  // ----- what can be printed and read back -----

  predicate ValidName(name: string, encoding: Encoding) {
    && name != "" && NameStart(name[0]) && NameLength(name) == |name|
    && !(encoding.EncodingUtf8? && ZeroWidth(name))
  }

  ghost predicate ValidValue(v: string, encoding: Encoding) {
    Clean(v, encoding) && Plain(v)
  }

  ghost predicate ValidAttrs(attrs: seq<Pair>, encoding: Encoding) {
    && Unique(attrs)
    && forall i | 0 <= i < |attrs| :: ValidName(attrs[i].name, encoding) && ValidValue(attrs[i].value, encoding)
  }

  ghost predicate ValidText(v: string, encoding: Encoding) {
    ValidValue(v, encoding) && !LosesStart(v, encoding)
  }

  /** Children may be mixed, but two texts in a row would be read as one. */
  ghost predicate Valid(n: Tree, encoding: Encoding)
    decreases n, 0
  {
    match n
    case Text(v) => ValidText(v, encoding)
    case Element(name, attrs, kids) =>
      ValidName(name, encoding) && ValidAttrs(attrs, encoding) && ValidKids(kids, encoding)
  }

  ghost predicate ValidKids(ns: seq<Tree>, encoding: Encoding)
    decreases ns, 0
  {
    ns == [] || (Valid(ns[0], encoding) && ValidKids(ns[1..], encoding)
                 && (ns[0].Text? && |ns| > 1 ==> ns[1].Element?))
  }

  // ----- what comes back -----

  /** The tree with every text condensed and blank texts gone. */
  function Settled(n: Tree): (r: Tree)
    ensures r.Element? <==> n.Element?
    decreases n, 0
  {
    match n
    case Text(v) => Text(Join(Words(v, false)))
    case Element(name, attrs, kids) => Element(name, attrs, SettledKids(kids))
  }

  function SettledKids(ns: seq<Tree>): seq<Tree>
    decreases ns, 0
  {
    if ns == [] then [] else Kept(Settled(ns[0])) + SettledKids(ns[1..])
  }

  function Kept(n: Tree): seq<Tree> {
    if n.Text? && Blank(n.value) then [] else [n]
  }

  function KeptContent(n: Tree, c: Content): Content {
    match c
    case Content(kids, rest) => Content(Kept(n) + kids, rest)
    case _ => c
  }

  /** Every text has something to show and no space that condensing would take. */
  ghost predicate Neat(n: Tree)
    decreases n, 0
  {
    match n
    case Text(v) => Tight(v) && !Blank(v)
    case Element(_, _, kids) => NeatKids(kids)
  }

  ghost predicate NeatKids(ns: seq<Tree>)
    decreases ns, 0
  {
    ns == [] || (Neat(ns[0]) && NeatKids(ns[1..]))
  }

  lemma {:induction false} SettledExactly(n: Tree)
    requires n.Element?
    ensures Settled(n) == n <==> Neat(n)
    decreases n, 0
  {
    SettledKidsExactly(n.kids);
  }

  lemma {:induction false} SettledKidsExactly(ns: seq<Tree>)
    ensures SettledKids(ns) == ns <==> NeatKids(ns)
    ensures |SettledKids(ns)| <= |ns|
    decreases ns, 0
  {
    if ns != [] {
      var k, more := Kept(Settled(ns[0])), SettledKids(ns[1..]);
      SettledKidsExactly(ns[1..]);
      if ns[0].Element? {
        SettledExactly(ns[0]);
      } else {
        SurvivesExactly(ns[0].value);
      }
      if k == [] {
        assert |k + more| < |ns|;
      } else {
        assert (k + more)[1..] == more && (k + more)[0] == k[0];
        assert ns == [ns[0]] + ns[1..];
      }
    }
  }

  ghost predicate Blanks(style: Style) {
    AllSpace(style.indent) && AllSpace(style.lineBreak)
  }

  // ----- names -----

  lemma NameStops(name: string, t: string, encoding: Encoding)
    requires ValidName(name, encoding) && t != "" && !NameChar(t[0])
    ensures NameLength(name + t) == |name| && (name + t)[..|name|] == name && (name + t)[|name|..] == t
    ensures !NoName(name + t) && SkipSpace(name + t, encoding) == name + t
  {
    var s := name + t;
    NameLengthIs(name, t);
    assert s[0] == name[0];
    if ZeroWidth(s) {
      assert forall k | 0 <= k < |name| :: s[k] == name[k];
      assert s[|name|] == t[0];
    }
  }

  lemma {:induction false} NameLengthIs(name: string, t: string)
    requires NameLength(name) == |name| && (t == "" || !NameChar(t[0]))
    ensures NameLength(name + t) == |name|
  {
    if name == "" {
      assert "" + t == t;
    } else {
      assert (name + t)[1..] == name[1..] + t;
      NameLengthIs(name[1..], t);
    }
  }

  lemma {:induction false} NameEncodes(name: string)
    requires NameLength(name) == |name|
    ensures EncodeString(name) == name
  {
    if name != "" {
      NameEncodes(name[1..]);
      assert [name[0]] + name[1..] == name;
    }
  }

  // ----- start tags -----

  lemma AttrReads(a: Pair, t: string, encoding: Encoding)
    requires ValidName(a.name, encoding) && ValidValue(a.value, encoding)
    ensures ParseAttr(PrintAttr(a) + t, encoding) == AttrParsed(a, t)
    ensures PrintAttr(a) != "" && NameStart(PrintAttr(a)[0])
    ensures SkipSpace(PrintAttr(a) + t, encoding) == PrintAttr(a) + t
  {
    var q := if '"' in a.value then '\'' else '"';
    var v := EncodeString(a.value) + ([q] + t);
    NameEncodes(a.name);
    AttrText(a.name, q, EncodeString(a.value), t);
    NameStops(a.name, ['=', q] + v, encoding);
    QuotedReads(a.name, q, v, Read(a.value, t), encoding) by {
      ReadUndoesEncode(a.value, q, t, encoding);
    }
  }

  lemma AttrText(name: string, q: char, e: string, t: string)
    ensures (name + (['=', q] + (e + [q]))) + t == name + (['=', q] + (e + ([q] + t)))
  {
    Associate(e, [q], t);
    Associate(['=', q], e + [q], t);
    Associate(name, ['=', q] + (e + [q]), t);
  }

  lemma QuotedReads(name: string, q: char, v: string, r: Read, encoding: Encoding)
    requires ValidName(name, encoding) && (q == '"' || q == '\'')
    requires r.Read? && ReadKeeping(v, [q], encoding) == r
    ensures ParseAttr(name + (['=', q] + v), encoding) == AttrParsed(Pair(name, r.text), r.rest)
  {
    var u := ['=', q] + v;
    NameStops(name, u, encoding);
    assert u[1..] == [q] + v;
    assert SkipSpace(u, encoding) == u;
    QuotedValue(name, q, v, r, encoding);
  }

  lemma QuotedValue(name: string, q: char, v: string, r: Read, encoding: Encoding)
    requires q == '"' || q == '\''
    requires r.Read? && ReadKeeping(v, [q], encoding) == r
    ensures AfterEquals(name, [q] + v, encoding) == AttrParsed(Pair(name, r.text), r.rest)
  {
    assert ([q] + v)[1..] == v;
    assert SkipSpace([q] + v, encoding) == [q] + v;
  }

  lemma SkipOne(s: string, encoding: Encoding)
    ensures SkipSpace(" " + s, encoding) == SkipSpace(s, encoding)
  {
    assert (" " + s)[1..] == s;
  }

  /** The end of a start tag that is not an attribute. */
  predicate TagEnd(t: string) {
    " />" <= t || ">" <= t
  }

  function AfterTag(attrs: seq<Pair>, t: string): TagParsed
    requires TagEnd(t)
  {
    if t[0] == ' ' then Empty(attrs, t[3..]) else Open(attrs, t[1..])
  }

  lemma TagEnds(t: string, attrs: seq<Pair>, encoding: Encoding)
    requires TagEnd(t)
    ensures ParseTag(t, attrs, encoding) == AfterTag(attrs, t)
  {
    if t[0] == ' ' {
      assert t[1] == " />"[1] && t[2] == " />"[2];
      assert SkipSpace(t[1..], encoding) == t[1..];
      assert t[1..][2..] == t[3..];
    } else {
      assert SkipSpace(t, encoding) == t;
    }
  }

  lemma TagStep(a: Pair, t: string, before: seq<Pair>, encoding: Encoding)
    requires ValidName(a.name, encoding) && ValidValue(a.value, encoding) && t != ""
             && IndexOf(before, a.name) == |before|
    ensures ParseTag(" " + PrintAttr(a) + t, before, encoding) == ParseTag(t, before + [a], encoding)
  {
    var s := PrintAttr(a) + t;
    assert " " + PrintAttr(a) + t == " " + s;
    SkipOne(s, encoding);
    AttrReads(a, t, encoding);
    assert s[0] == PrintAttr(a)[0];
  }

  lemma {:induction false} TagReads(attrs: seq<Pair>, before: seq<Pair>, t: string, encoding: Encoding)
    requires ValidAttrs(before + attrs, encoding) && TagEnd(t)
    ensures ParseTag(PrintAttrs(attrs) + t, before, encoding) == AfterTag(before + attrs, t)
    decreases attrs
  {
    if attrs == [] {
      assert before + [] == before && "" + t == t;
      TagEnds(t, before, encoding);
    } else {
      var a := attrs[0];
      var more := PrintAttrs(attrs[1..]) + t;
      Associate(" " + PrintAttr(a), PrintAttrs(attrs[1..]), t);
      MoveOver(before, attrs);
      NotBefore(before, attrs);
      TagStep(a, more, before, encoding);
      TagReads(attrs[1..], before + [a], t, encoding);
    }
  }

  lemma MoveOver(before: seq<Pair>, attrs: seq<Pair>)
    requires attrs != []
    ensures (before + [attrs[0]]) + attrs[1..] == before + attrs && (before + attrs)[|before|] == attrs[0]
  {
  }

  lemma NotBefore(before: seq<Pair>, attrs: seq<Pair>)
    requires Unique(before + attrs) && attrs != []
    ensures IndexOf(before, attrs[0].name) == |before|
  {
    var all := before + attrs;
    assert all[|before|] == attrs[0];
    assert forall i | 0 <= i < |before| :: all[i] == before[i];
  }

  lemma AllShown(attrs: seq<Pair>, encoding: Encoding)
    requires ValidAttrs(attrs, encoding)
    ensures Shown(attrs) == attrs
  {
    ShowsAllExactly(attrs);
  }

  /** What comes before the content: the name is read, then the attributes, and the tag ends. */
  lemma OpenTagReads(name: string, attrs: seq<Pair>, t: string, encoding: Encoding)
    requires ValidName(name, encoding) && ValidAttrs(attrs, encoding) && TagEnd(t)
    ensures ParseElement(OpenTag(name, attrs) + t, encoding)
         == if t[0] == ' ' then Parsed(Element(name, attrs, []), t[3..])
            else Closed(name, attrs, ParseContent(t[1..], encoding))
  {
    AllShown(attrs, encoding);
    var u := PrintAttrs(attrs) + t;
    Regroup5("<", name, PrintAttrs(attrs), t);
    TagStart(attrs, t);
    assert [] + attrs == attrs;
    TagReads(attrs, [], t, encoding);
    HeadReads(name, u, AfterTag(attrs, t), encoding);
  }

  lemma Regroup5(a: string, b: string, c: string, t: string)
    ensures (a + b + c) + t == a + (b + (c + t))
  {
  }

  lemma HeadReads(name: string, u: string, tag: TagParsed, encoding: Encoding)
    requires ValidName(name, encoding) && u != "" && !NameChar(u[0]) && ParseTag(u, [], encoding) == tag
    ensures tag.Empty? ==> ParseElement("<" + (name + u), encoding) == Parsed(Element(name, tag.attrs, []), tag.rest)
    ensures tag.Open? ==>
              ParseElement("<" + (name + u), encoding) == Closed(name, tag.attrs, ParseContent(tag.rest, encoding))
  {
    assert ("<" + (name + u))[1..] == name + u;
    NameStops(name, u, encoding);
  }

  lemma TagStart(attrs: seq<Pair>, t: string)
    requires TagEnd(t)
    ensures PrintAttrs(attrs) + t != "" && !NameChar((PrintAttrs(attrs) + t)[0])
  {
    if attrs == [] {
      assert "" + t == t;
    }
  }

  // ----- content -----

  lemma {:induction false} ContentSkips(w: string, s: string, encoding: Encoding)
    requires AllSpace(w)
    ensures SkipSpace(w + s, encoding) == SkipSpace(s, encoding)
    ensures ParseContent(w + s, encoding) == ParseContent(s, encoding)
  {
    SpaceSkips(w, s, encoding);
  }

  lemma {:induction false} SpaceSkips(w: string, s: string, encoding: Encoding)
    requires AllSpace(w)
    ensures SkipSpace(w + s, encoding) == SkipSpace(s, encoding)
  {
    if w == "" {
      assert "" + s == s;
    } else {
      assert (w + s)[1..] == w[1..] + s;
      SpaceSkips(w[1..], s, encoding);
    }
  }

  /** A text is read up to the next tag and the whitespace before that tag goes with it. */
  lemma TextReads(v: string, w: string, t: string, encoding: Encoding)
    requires ValidText(v, encoding) && AllSpace(w)
    ensures ParseContent(EncodeString(v) + (w + ("<" + t)), encoding)
         == KeptContent(Settled(Text(v)), ParseContent("<" + t, encoding))
  {
    var u := w + ("<" + t);
    var x := SkipSeps(v, false);
    PrintedSkip(v, w, t, encoding);
    SkippedWords(v, false);
    if x == "" {
      SameSkip(EncodeString(v) + u, "<" + t, encoding);
    } else {
      assert x[0..] == x;
      EncodedStepReads(x, u, encoding);
      PrintedTextCondenses(x, w, t, encoding);
      TextContent(EncodeString(v) + u, EncodeString(x) + u, Join(Words(v, false)), t, encoding);
    }
  }

  lemma SameSkip(a: string, b: string, encoding: Encoding)
    requires SkipSpace(a, encoding) == SkipSpace(b, encoding)
    ensures ParseContent(a, encoding) == KeptContent(Text(""), ParseContent(b, encoding))
  {
    var c := ParseContent(b, encoding);
    assert c.Content? ==> [] + c.kids == c.kids;
  }

  lemma TextContent(s: string, p: string, text: string, rest: string, encoding: Encoding)
    requires SkipSpace(s, encoding) == p && p != "" && p[0] != '<' && ReadTrimming(p, "<", encoding) == Read(text, rest)
    ensures ParseContent(s, encoding) == KeptContent(Text(text), ParseContent("<" + rest, encoding))
  {
    var c := ParseContent("<" + rest, encoding);
    assert c.Content? ==> [] + c.kids == c.kids;
  }

  lemma EndReads(w: string, t: string, encoding: Encoding)
    requires AllSpace(w)
    ensures ParseContent(w + ("</" + t), encoding) == Content([], "</" + t)
  {
    ContentSkips(w, "</" + t, encoding);
  }

  lemma RepeatBlank(indent: string, n: nat)
    requires AllSpace(indent)
    ensures AllSpace(Repeat(indent, n))
  {
  }

  /** An element's text after its indentation. */
  function Body(n: Tree, depth: nat, style: Style): string
    requires n.Element?
  {
    OpenTag(n.name, n.attrs)
    + (if n.kids == [] then " />" else ">" + PrintContent(n.kids, depth, style) + EndTag(n.name))
  }

  lemma BodyIs(n: Tree, depth: nat, style: Style)
    requires n.Element?
    ensures PrintNode(n, depth, style) == Repeat(style.indent, depth) + (Body(n, depth, style) + style.lineBreak)
  {
  }

  lemma BodyStarts(n: Tree, depth: nat, style: Style, encoding: Encoding)
    requires n.Element? && ValidName(n.name, encoding)
    ensures var b := Body(n, depth, style); |b| > 1 && b[0] == '<' && b[1] == n.name[0]
  {
    var o := OpenTag(n.name, n.attrs);
    assert |o| > 1 && o[0] == '<' && o[1] == n.name[0];
    StartKept(o, if n.kids == [] then " />" else ">" + PrintContent(n.kids, depth, style) + EndTag(n.name));
  }

  lemma StartKept(o: string, t: string)
    requires |o| > 1
    ensures |o + t| > 1 && (o + t)[0] == o[0] && (o + t)[1] == o[1]
  {
  }

  lemma Regroup(a: string, b: string, c: string, t: string)
    ensures (a + (">" + b + c)) + t == a + (">" + (b + (c + t)))
  {
  }

  lemma Regroup2(a: string, b: string, c: string, t: string)
    ensures (a + (b + c)) + t == a + (b + (c + t))
  {
  }

  lemma EndTagText(name: string, t: string)
    ensures EndTag(name) + t == "</" + (name + ">" + t)
  {
  }

  lemma {:induction false} BodyReads(n: Tree, depth: nat, style: Style, t: string, encoding: Encoding)
    requires n.Element? && Valid(n, encoding) && Blanks(style)
    ensures ParseElement(Body(n, depth, style) + t, encoding) == Parsed(Settled(n), t)
    decreases n, 2
  {
    if n.kids == [] {
      assert Body(n, depth, style) + t == OpenTag(n.name, n.attrs) + (" />" + t);
      OpenTagReads(n.name, n.attrs, " />" + t, encoding);
      assert (" />" + t)[3..] == t;
    } else {
      var inner := PrintContent(n.kids, depth, style) + (EndTag(n.name) + t);
      Regroup(OpenTag(n.name, n.attrs), PrintContent(n.kids, depth, style), EndTag(n.name), t);
      OpenTagReads(n.name, n.attrs, ">" + inner, encoding);
      assert (">" + inner)[1..] == inner;
      ContentReads(n.kids, depth, style, n.name + ">" + t, encoding);
      EndTagText(n.name, t);
      PrefixOfConcat(EndTag(n.name), t);
    }
  }

  lemma {:induction false} ContentReads(kids: seq<Tree>, depth: nat, style: Style, t: string, encoding: Encoding)
    requires kids != [] && ValidKids(kids, encoding) && Blanks(style)
    ensures ParseContent(PrintContent(kids, depth, style) + ("</" + t), encoding)
            == Content(SettledKids(kids), "</" + t)
    decreases kids, 1
  {
    var end := "</" + t;
    RepeatBlank(style.indent, depth);
    if Simple(kids) {
      SimpleReads(kids, t, encoding);
    } else {
      var w := Repeat(style.indent, depth);
      var nodes := PrintNodes(kids, depth + 1, style);
      Regroup5(style.lineBreak, nodes, w, end);
      ContentSkips(style.lineBreak, nodes + (w + end), encoding);
      NodesRead(kids, depth + 1, style, w, t, encoding);
    }
  }

  lemma SimpleReads(kids: seq<Tree>, t: string, encoding: Encoding)
    requires Simple(kids) && ValidKids(kids, encoding)
    ensures ParseContent(EncodeString(kids[0].value) + ("</" + t), encoding) == Content(SettledKids(kids), "</" + t)
  {
    var v := kids[0].value;
    EndTexts(t);
    TextReads(v, "", "/" + t, encoding);
    EndReads("", t, encoding);
    OneSettled(kids);
  }

  lemma EndTexts(t: string)
    ensures "" + ("<" + ("/" + t)) == "</" + t == "<" + ("/" + t) == "" + ("</" + t)
  {
  }

  lemma OneSettled(kids: seq<Tree>)
    requires Simple(kids)
    ensures SettledKids(kids) == Kept(Settled(kids[0])) + [] && kids[0] == Text(kids[0].value)
  {
    assert kids[1..] == [];
  }

  lemma {:induction false} NodesRead(ns: seq<Tree>, depth: nat, style: Style, w: string, t: string, encoding: Encoding)
    requires ValidKids(ns, encoding) && Blanks(style) && AllSpace(w)
    ensures ParseContent(PrintNodes(ns, depth, style) + (w + ("</" + t)), encoding)
            == Content(SettledKids(ns), "</" + t)
    decreases ns, 0
  {
    var end := w + ("</" + t);
    if ns == [] {
      assert "" + end == end;
      EndReads(w, t, encoding);
    } else {
      var more := PrintNodes(ns[1..], depth, style) + end;
      NodesRead(ns[1..], depth, style, w, t, encoding);
      Associate(PrintNode(ns[0], depth, style), PrintNodes(ns[1..], depth, style), end);
      if ns[0].Text? {
        TextThenMore(ns, depth, style, w, t, encoding);
      } else {
        BodyReads(ns[0], depth, style, style.lineBreak + more, encoding);
        ElementThenMore(ns[0], depth, style, more, encoding);
      }
    }
  }

  lemma TagContent(s: string, n: Tree, t: string, encoding: Encoding)
    requires |s| > 1 && s[0] == '<' && NameStart(s[1]) && ParseElement(s, encoding) == Parsed(n, t)
    ensures ParseContent(s, encoding) == Prepend(n, ParseContent(t, encoding))
  {
    assert SkipSpace(s, encoding) == s;
  }

  lemma ElementThenMore(n: Tree, depth: nat, style: Style, more: string, encoding: Encoding)
    requires n.Element? && Valid(n, encoding) && Blanks(style)
    requires ParseElement(Body(n, depth, style) + (style.lineBreak + more), encoding)
             == Parsed(Settled(n), style.lineBreak + more)
    ensures ParseContent(PrintNode(n, depth, style) + more, encoding)
            == KeptContent(Settled(n), ParseContent(more, encoding))
  {
    var ind, b := Repeat(style.indent, depth), Body(n, depth, style);
    var s := b + (style.lineBreak + more);
    BodyIs(n, depth, style);
    Regroup2(ind, b, style.lineBreak, more);
    RepeatBlank(style.indent, depth);
    ContentSkips(ind, s, encoding);
    BodyStarts(n, depth, style, encoding);
    StartKept(b, style.lineBreak + more);
    TagContent(s, Settled(n), style.lineBreak + more, encoding);
    ContentSkips(style.lineBreak, more, encoding);
  }

  lemma Regroup4(a: string, b: string, c: string, x: string, t: string)
    ensures (a + b + c) + (x + t) == a + (b + ((c + x) + t))
  {
  }

  lemma TextThenMore(ns: seq<Tree>, depth: nat, style: Style, w: string, t: string, encoding: Encoding)
    requires ns != [] && ns[0].Text? && ValidKids(ns, encoding) && Blanks(style) && AllSpace(w)
    ensures var more := PrintNodes(ns[1..], depth, style) + (w + ("</" + t));
            ParseContent(PrintNode(ns[0], depth, style) + more, encoding)
            == KeptContent(Settled(ns[0]), ParseContent(more, encoding))
  {
    var ind, v := Repeat(style.indent, depth), ns[0].value;
    var more := PrintNodes(ns[1..], depth, style) + (w + ("</" + t));
    RepeatBlank(style.indent, depth);
    var x, u := MoreStarts(ns[1..], depth, style, w, t, encoding);
    var gap := style.lineBreak + x;
    Regroup4(ind, EncodeString(v), style.lineBreak, x, "<" + u);
    ContentSkips(ind, EncodeString(v) + (gap + ("<" + u)), encoding);
    TextReads(v, gap, u, encoding);
    ContentSkips(x, "<" + u, encoding);
  }

  /** After a text there is whitespace and then a tag. */
  lemma MoreStarts(ns: seq<Tree>, depth: nat, style: Style, w: string, t: string, encoding: Encoding)
    returns (x: string, u: string)
    requires ValidKids(ns, encoding) && Blanks(style) && AllSpace(w) && (ns == [] || ns[0].Element?)
    ensures AllSpace(x) && PrintNodes(ns, depth, style) + (w + ("</" + t)) == x + ("<" + u)
  {
    if ns == [] {
      x, u := w, "/" + t;
    } else {
      x := Repeat(style.indent, depth);
      RepeatBlank(style.indent, depth);
      BodyIs(ns[0], depth, style);
      BodyStarts(ns[0], depth, style, encoding);
      var b := Body(ns[0], depth, style);
      var more := PrintNodes(ns[1..], depth, style);
      u := b[1..] + (style.lineBreak + (more + (w + ("</" + t))));
      Associate(x + (b + style.lineBreak), more, w + ("</" + t));
      Regroup2(x, b, style.lineBreak, more + (w + ("</" + t)));
      assert b == "<" + b[1..];
      Associate("<", b[1..], style.lineBreak + (more + (w + ("</" + t))));
    }
  }

  /** The main result: printed at any depth, with any whitespace for indentation and line breaks, an element is read
      back as the same tree, up to the condensing of its texts, and what is left is its line break and whatever
      follows. */
  lemma ParseUndoesPrint(n: Tree, depth: nat, style: Style, t: string, encoding: Encoding)
    requires n.Element? && Valid(n, encoding) && Blanks(style)
    ensures ParseElement(PrintNode(n, depth, style) + t, encoding) == Parsed(Settled(n), style.lineBreak + t)
  {
    var ind := Repeat(style.indent, depth);
    var s := Body(n, depth, style) + (style.lineBreak + t);
    BodyIs(n, depth, style);
    Regroup2(ind, Body(n, depth, style), style.lineBreak, t);
    RepeatBlank(style.indent, depth);
    SpaceSkips(ind, s, encoding);
    BodyStarts(n, depth, style, encoding);
    BodyReads(n, depth, style, style.lineBreak + t, encoding);
    StartKept(Body(n, depth, style), style.lineBreak + t);
    assert SkipSpace(s, encoding) == s;
  }

  /** In both of the printer's own modes the very same tree comes back exactly when its texts are neat. */
  lemma RoundTripExactly(n: Tree, style: Style, encoding: Encoding)
    requires n.Element? && Valid(n, encoding) && (style == Pretty || style == Stream)
    ensures ParseElement(PrintNode(n, 0, style), encoding) == Parsed(n, style.lineBreak) <==> Neat(n)
  {
    ParseUndoesPrint(n, 0, style, "", encoding);
    assert PrintNode(n, 0, style) + "" == PrintNode(n, 0, style) && style.lineBreak + "" == style.lineBreak;
    SettledExactly(n);
  }
}
