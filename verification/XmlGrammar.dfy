/** A grammar of elements in any layout, with the tree each text stands for, and its gaps, names, values and attributes
    as the parser reads them. */
module XmlGrammar {
  import opened CStrings
  import opened XmlAttributes
  import opened XmlBytes
  import opened XmlText
  import opened XmlTree
  import opened XmlUnits
  import Utf8
  import XmlNames

  // ----- the grammar -----

  predicate White(c: char) {
    c as int in {0x20, 0x09, 0x0A, 0x0B, 0x0C, 0x0D}
  }

  /** The characters without a width. */
  predicate Widthless(s: string) {
    s == Utf8.Encode(0xFEFF) || s == Utf8.Encode(0xFFFE) || s == Utf8.Encode(0xFFFF)
  }

  /** White space, and in UTF-8 characters without a width. */
  predicate Gap(w: string, encoding: Encoding)
    decreases |w|
  {
    || w == ""
    || (White(w[0]) && Gap(w[1..], encoding))
    || (encoding.EncodingUtf8? && |w| >= 3 && Widthless(w[..3]) && Gap(w[3..], encoding))
  }

  /** Nothing that would go on with a gap. */
  predicate Solid(s: string, encoding: Encoding) {
    && (s != "" ==> !White(s[0]))
    && (encoding.EncodingUtf8? && |s| >= 3 ==> !Widthless(s[..3]))
  }

  /** All bytes from 0x7F on are taken for letters. */
  predicate Begins(c: char) {
    XmlNames.BeginsName(c) || c as int >= 0x7F
  }

  predicate GoesOn(c: char) {
    XmlNames.InName(c) || c as int >= 0x7F
  }

  predicate IsName(name: string, encoding: Encoding) {
    name != "" && Begins(name[0]) && (forall i | 0 <= i < |name| :: GoesOn(name[i])) && Solid(name, encoding)
  }

  /** White space that a name or a bare value cannot swallow, or nothing. */
  predicate Apart(w: string) {
    w != "" ==> White(w[0])
  }

  datatype Value = Quoted(q: char, units: seq<Unit>) | Bare(text: string)

  function ValueText(v: Value): string {
    match v
    case Quoted(q, units) => [q] + UnitsText(units) + [q]
    case Bare(text) => text
  }

  function ReadAs(v: Value, encoding: Encoding): string {
    match v
    case Quoted(_, units) => UnitsValue(units, encoding)
    case Bare(text) => text
  }

  /** A value before the text t. One without quotes goes up to white space or the end of the tag. */
  ghost predicate WellValue(v: Value, t: string, encoding: Encoding) {
    match v
    case Quoted(q, units) => q in {'"', '\''} && WellUnits(units, q, [q] + t, encoding)
    case Bare(text) =>
      && (forall i | 0 <= i < |text| :: !White(text[i]) && text[i] !in {'/', '>', '"', '\''})
      && t != "" && (White(t[0]) || t[0] in {'/', '>'}) && Solid(text + t, encoding)
  }

  datatype XAttr = XAttr(gap: string, name: string, before: string, after: string, value: Value)

  function AttrText(a: XAttr): string {
    a.name + (a.before + ("=" + (a.after + ValueText(a.value))))
  }

  function AttrsText(attrs: seq<XAttr>): string {
    if attrs == [] then "" else attrs[0].gap + (AttrText(attrs[0]) + AttrsText(attrs[1..]))
  }

  ghost predicate WellAttr(a: XAttr, t: string, encoding: Encoding) {
    && IsName(a.name, encoding) && Gap(a.before, encoding) && Apart(a.before) && Gap(a.after, encoding)
    && WellValue(a.value, t, encoding)
  }

  ghost predicate WellAttrs(attrs: seq<XAttr>, t: string, encoding: Encoding) {
    attrs != [] ==>
      && Gap(attrs[0].gap, encoding) && WellAttr(attrs[0], AttrsText(attrs[1..]) + t, encoding)
      && WellAttrs(attrs[1..], t, encoding)
  }

  function Pairs(attrs: seq<XAttr>, encoding: Encoding): (c: seq<Pair>)
    ensures |c| == |attrs|
  {
    if attrs == [] then [] else [Pair(attrs[0].name, ReadAs(attrs[0].value, encoding))] + Pairs(attrs[1..], encoding)
  }

  datatype Node =
    | Tag(inner: string, name: string, attrs: seq<XAttr>, gap: string, body: Body)
    | Chars(units: seq<Unit>)
  datatype Body = NoBody | Kids(nodes: Nodes, gap: string)
  datatype Nodes = NoNodes | Nodes(lead: string, head: Node, more: Nodes)

  function TagText(x: Node): string
    requires x.Tag?
    decreases x, 0
  {
    "<" + (x.inner + (x.name + (AttrsText(x.attrs) + (x.gap + BodyText(x.name, x.body)))))
  }

  function BodyText(name: string, body: Body): string
    decreases body
  {
    match body
    case NoBody => "/>"
    case Kids(nodes, gap) => ">" + (NodesText(nodes) + (gap + ("</" + name + ">")))
  }

  function NodeText(x: Node): string
    decreases x, 1
  {
    match x
    case Tag(_, _, _, _, _) => TagText(x)
    case Chars(units) => UnitsText(units)
  }

  function NodesText(ns: Nodes): string
    decreases ns
  {
    match ns
    case NoNodes => ""
    case Nodes(lead, head, more) => lead + (NodeText(head) + NodesText(more))
  }

  /** A tag before the text t: whole names, white space between the name and what follows, no attribute name twice, and
      the end tag of its own name. */
  ghost predicate WellTag(x: Node, t: string, encoding: Encoding)
    requires x.Tag?
    decreases x, 0
  {
    && Gap(x.inner, encoding) && IsName(x.name, encoding)
    && (if x.attrs == [] then Apart(x.gap) else x.attrs[0].gap != "" && Apart(x.attrs[0].gap))
    && WellAttrs(x.attrs, x.gap + (BodyText(x.name, x.body) + t), encoding)
    && (forall i, j | 0 <= i < j < |x.attrs| :: x.attrs[i].name != x.attrs[j].name)
    && Gap(x.gap, encoding) && WellBody(x.name, x.body, t, encoding)
  }

  ghost predicate WellBody(name: string, body: Body, t: string, encoding: Encoding)
    decreases body
  {
    match body
    case NoBody => true
    case Kids(nodes, gap) => Gap(gap, encoding) && WellNodes(nodes, gap + ("</" + name + ">" + t), encoding)
  }

  /** Inside an element a tag has its name, or a character without a width, right behind the '<'; a text goes up to the
      next '<' and does not begin with a gap. */
  ghost predicate WellNode(x: Node, t: string, encoding: Encoding)
    decreases x, 1
  {
    match x
    case Tag(inner, name, _, _, _) => WellTag(x, t, encoding) && (inner != "" ==> Begins(inner[0]))
    case Chars(units) =>
      && units != [] && t != "" && t[0] == '<' && WellUnits(units, '<', t, encoding)
      && Solid(UnitsText(units) + t, encoding)
  }

  ghost predicate WellNodes(ns: Nodes, t: string, encoding: Encoding)
    decreases ns
  {
    match ns
    case NoNodes => true
    case Nodes(lead, head, more) =>
      Gap(lead, encoding) && WellNode(head, NodesText(more) + t, encoding) && WellNodes(more, t, encoding)
  }

  function TreeOf(x: Node, encoding: Encoding): Tree
    requires x.Tag?
    decreases x, 0
  {
    Element(x.name, Pairs(x.attrs, encoding), if x.body.NoBody? then [] else KidsOf(x.body.nodes, encoding))
  }

  function KidsOf(ns: Nodes, encoding: Encoding): seq<Tree> {
    match ns
    case NoNodes => []
    case Nodes(_, head, more) => TreesOf(head, encoding) + KidsOf(more, encoding)
  }

  /** A text of nothing but white space, all of it written as references, leaves no node. */
  function TreesOf(x: Node, encoding: Encoding): seq<Tree>
    decreases x, 1
  {
    match x
    case Tag(_, _, _, _, _) => [TreeOf(x, encoding)]
    case Chars(units) =>
      var v := Condensed(units, false, encoding);
      if forall i | 0 <= i < |v| :: White(v[i]) then [] else [Text(v)]
  }

  // ----- gaps -----

  lemma WhiteIs(c: char)
    ensures White(c) <==> IsSpace(c)
  {
  }

  lemma WidthlessIs(s: string)
    ensures ZeroWidth(s) <==> |s| >= 3 && Widthless(s[..3])
  {
    assert Utf8.Encode(0xFEFF) == [0xEF as char, 0xBB as char, 0xBF as char];
    assert Utf8.Encode(0xFFFE) == [0xEF as char, 0xBF as char, 0xBE as char];
    assert Utf8.Encode(0xFFFF) == [0xEF as char, 0xBF as char, 0xBF as char];
    if |s| >= 3 {
      assert s[..3] == [s[0], s[1], s[2]];
    }
  }

  lemma SolidStays(s: string, encoding: Encoding)
    ensures Solid(s, encoding) <==> SkipSpace(s, encoding) == s
  {
    WidthlessIs(s);
  }

  lemma {:induction false} GapSkips(w: string, s: string, encoding: Encoding)
    requires Gap(w, encoding) && Solid(s, encoding)
    ensures SkipSpace(w + s, encoding) == s
    decreases |w|
  {
    var t := w + s;
    if w == "" {
      assert t == s;
      SolidStays(s, encoding);
    } else if White(w[0]) {
      assert t[1..] == w[1..] + s;
      GapSkips(w[1..], s, encoding);
    } else {
      WidthlessIs(t);
      assert t[..3] == w[..3] && t[3..] == w[3..] + s;
      GapSkips(w[3..], s, encoding);
    }
  }

  lemma {:induction false} GapOf(s: string, encoding: Encoding) returns (w: string)
    ensures s == w + SkipSpace(s, encoding) && Gap(w, encoding) && Solid(SkipSpace(s, encoding), encoding)
    decreases |s|
  {
    w := "";
    WidthlessIs(s);
    if s != "" {
      var k := if encoding.EncodingUtf8? && ZeroWidth(s) then 3 else if IsSpace(s[0]) then 1 else 0;
      if k > 0 {
        var v := GapOf(s[k..], encoding);
        w := s[..k] + v;
        assert s == s[..k] + s[k..];
        Associate(s[..k], v, SkipSpace(s, encoding));
        assert w[..k] == s[..k] && w[k..] == v;
      }
    }
  }

  // ----- names -----

  lemma BeginsIs(c: char)
    ensures (Begins(c) <==> NameStart(c)) && (GoesOn(c) <==> NameChar(c)) && (White(c) ==> !GoesOn(c))
  {
  }

  lemma NameIsRead(name: string, t: string, encoding: Encoding)
    requires IsName(name, encoding) && t != "" && !GoesOn(t[0])
    ensures var s := name + t;
            && Solid(s, encoding) && !NoName(s) && NameLength(s) == |name| && s[..|name|] == name && s[|name|..] == t
  {
    var s := name + t;
    PrefixOfConcat(name, t);
    forall i | 0 <= i < |name|
      ensures NameChar(s[i])
    {
      BeginsIs(name[i]);
    }
    BeginsIs(name[0]);
    BeginsIs(t[0]);
    assert s[|name|] == t[0];
    SolidName(name, t, encoding);
  }

  lemma SolidName(name: string, t: string, encoding: Encoding)
    requires IsName(name, encoding) && t != "" && !GoesOn(t[0])
    ensures Solid(name + t, encoding)
  {
    var s := name + t;
    WidthlessIs(s);
    if |name| >= 3 {
      assert s[..3] == name[..3];
    } else {
      assert s[|name|] == t[0] && t[0] as int < 0x7F;
    }
  }

  lemma NameOf(s: string, encoding: Encoding)
    requires Solid(s, encoding) && !NoName(s) && NameLength(s) < |s|
    ensures var n := NameLength(s); IsName(s[..n], encoding) && !GoesOn(s[n]) && s == s[..n] + s[n..]
  {
    var n := NameLength(s);
    BeginsIs(s[0]);
    BeginsIs(s[n]);
    forall i | 0 <= i < n
      ensures GoesOn(s[i])
    {
      BeginsIs(s[i]);
    }
    SolidPrefix(s, n, encoding);
    Halves(s, n);
  }

  lemma Halves(s: string, n: nat)
    requires n <= |s|
    ensures s == s[..n] + s[n..]
  {
  }

  lemma SolidPrefix(s: string, n: nat, encoding: Encoding)
    requires Solid(s, encoding) && 0 < n <= |s|
    ensures Solid(s[..n], encoding)
  {
    if n >= 3 {
      assert s[..n][..3] == s[..3];
    }
  }

  // ----- values -----

  lemma {:induction false} BareReads(text: string, t: string)
    requires (forall i | 0 <= i < |text| :: !White(text[i]) && text[i] !in {'/', '>', '"', '\''})
    requires t != "" && (White(t[0]) || t[0] in {'/', '>'})
    ensures BareLength(text + t) == |text|
  {
    if text == "" {
      assert text + t == t;
    } else {
      assert (text + t)[1..] == text[1..] + t;
      BareReads(text[1..], t);
    }
  }

  lemma {:induction false} BareOf(s: string)
    ensures forall i | 0 <= i < BareLength(s) :: !White(s[i]) && s[i] !in {'/', '>', '"', '\''}
    ensures var n := BareLength(s); n < |s| ==> White(s[n]) || s[n] in {'/', '>', '"', '\''}
  {
    if s != "" && BareLength(s) > 0 {
      BareOf(s[1..]);
      assert forall i | 0 < i < |s| :: s[i] == s[1..][i - 1];
    }
  }

  lemma ValueReads(v: Value, t: string, encoding: Encoding)
    requires WellValue(v, t, encoding)
    ensures var s := ValueText(v) + t;
            s != "" && Solid(s, encoding) && ValueOf(s, encoding) == Read(ReadAs(v, encoding), t)
  {
    match v
    case Quoted(q, units) =>
      QuotedValueReads(q, units, t, encoding);
    case Bare(text) =>
      BareReads(text, t);
      PrefixOfConcat(text, t);
      assert (text + t)[|text|] == t[0];
  }

  lemma QuotedValueReads(q: char, units: seq<Unit>, t: string, encoding: Encoding)
    requires WellValue(Quoted(q, units), t, encoding)
    ensures var s := [q] + UnitsText(units) + [q] + t;
            Solid(s, encoding) && ValueOf(s, encoding) == Read(UnitsValue(units, encoding), t)
  {
    var s := [q] + UnitsText(units) + [q] + t;
    QuotedText(q, UnitsText(units), t);
    WidthlessIs(s);
    UnitsRead(units, q, t, encoding);
  }

  lemma QuotedText(q: char, x: string, t: string)
    ensures [q] + x + [q] + t == [q] + (x + ([q] + t))
    ensures ([q] + x + [q] + t)[1..] == x + ([q] + t)
  {
    Associate([q] + x, [q], t);
    Associate([q], x, [q] + t);
  }

  lemma ValueFrom(s: string, encoding: Encoding) returns (v: Value)
    requires s != "" && Solid(s, encoding) && ValueOf(s, encoding).Read? && ValueOf(s, encoding).rest != ""
    ensures var r := ValueOf(s, encoding);
            WellValue(v, r.rest, encoding) && s == ValueText(v) + r.rest && r.text == ReadAs(v, encoding)
  {
    var rest := ValueOf(s, encoding).rest;
    if s[0] == '"' || s[0] == '\'' {
      var units := UnitsOf(s[1..], s[0], encoding);
      v := Quoted(s[0], units);
      QuotedText(s[0], UnitsText(units), rest);
      assert s == [s[0]] + s[1..];
    } else {
      var n := BareLength(s);
      v := Bare(s[..n]);
      BareOf(s);
      assert s == s[..n] + s[n..];
    }
  }

  // ----- attributes -----

  lemma AttrReads(a: XAttr, t: string, encoding: Encoding)
    requires WellAttr(a, t, encoding)
    ensures var s := AttrText(a) + t;
            && s != "" && Begins(s[0]) && Solid(s, encoding)
            && ParseAttr(s, encoding) == AttrParsed(Pair(a.name, ReadAs(a.value, encoding)), t)
  {
    var v := ValueText(a.value) + t;
    var rest := "=" + (a.after + v);
    AttrGroups(a, t);
    GapThen(a.before, rest);
    NameIsRead(a.name, a.before + rest, encoding);
    SolidStays(a.name + (a.before + rest), encoding);
    EqualsReads(a, v, encoding);
    ValueReads(a.value, t, encoding);
    GapSkips(a.after, v, encoding);
  }

  lemma AttrGroups(a: XAttr, t: string)
    ensures AttrText(a) + t == a.name + (a.before + ("=" + (a.after + (ValueText(a.value) + t))))
  {
    var v := ValueText(a.value);
    Associate(a.name, a.before + ("=" + (a.after + v)), t);
    Associate(a.before, "=" + (a.after + v), t);
    Associate("=", a.after + v, t);
    Associate(a.after, v, t);
  }

  lemma GapThen(w: string, t: string)
    requires Apart(w) && t != "" && !GoesOn(t[0])
    ensures w + t != "" && !GoesOn((w + t)[0])
  {
    if w != "" {
      BeginsIs(w[0]);
    } else {
      assert w + t == t;
    }
  }

  lemma EqualsReads(a: XAttr, v: string, encoding: Encoding)
    requires Gap(a.before, encoding)
    ensures AfterAttrName(a.name, a.before + ("=" + (a.after + v)), encoding)
         == AfterEquals(a.name, a.after + v, encoding)
  {
    var s := "=" + (a.after + v);
    WidthlessIs(s);
    GapSkips(a.before, s, encoding);
    assert s[1..] == a.after + v;
  }

  lemma AttrFrom(s: string, encoding: Encoding) returns (a: XAttr)
    requires Solid(s, encoding) && ParseAttr(s, encoding).AttrParsed? && ParseAttr(s, encoding).rest != ""
    ensures var r := ParseAttr(s, encoding);
            && WellAttr(a, r.rest, encoding) && a.gap == "" && s == AttrText(a) + r.rest
            && r.attr == Pair(a.name, ReadAs(a.value, encoding))
  {
    SolidStays(s, encoding);
    NameOf(s, encoding);
    var n := NameLength(s);
    var before, after, value := EqualsFrom(s[..n], s[n..], encoding);
    a := XAttr("", s[..n], before, after, value);
    ApartFrom(before, "=" + (after + (ValueText(value) + ParseAttr(s, encoding).rest)), encoding);
    AttrGroups(a, ParseAttr(s, encoding).rest);
  }

  lemma EqualsFrom(name: string, s: string, encoding: Encoding) returns (before: string, after: string, value: Value)
    requires AfterAttrName(name, s, encoding).AttrParsed? && AfterAttrName(name, s, encoding).rest != ""
    ensures var r := AfterAttrName(name, s, encoding);
            && Gap(before, encoding) && Gap(after, encoding) && WellValue(value, r.rest, encoding)
            && s == before + ("=" + (after + (ValueText(value) + r.rest)))
            && r.attr == Pair(name, ReadAs(value, encoding))
  {
    before := GapOf(s, encoding);
    var q := SkipSpace(s, encoding);
    after := GapOf(q[1..], encoding);
    value := ValueFrom(SkipSpace(q[1..], encoding), encoding);
    assert q == "=" + q[1..];
  }

  /** A gap behind a name begins with white space. */
  lemma ApartFrom(w: string, t: string, encoding: Encoding)
    requires Gap(w, encoding) && w + t != "" && !GoesOn((w + t)[0])
    ensures Apart(w)
  {
    WidthlessIs(w);
  }

  /** No name twice, here or before. */
  ghost predicate Fresh(attrs: seq<XAttr>, done: seq<Pair>) {
    && (forall i, j | 0 <= i < j < |attrs| :: attrs[i].name != attrs[j].name)
    && (forall i, k | 0 <= i < |attrs| && 0 <= k < |done| :: attrs[i].name != done[k].name)
  }

  lemma FreshStep(attrs: seq<XAttr>, done: seq<Pair>, v: string)
    requires attrs != []
    ensures Fresh(attrs, done) <==>
              Fresh(attrs[1..], done + [Pair(attrs[0].name, v)]) && IndexOf(done, attrs[0].name) == |done|
  {
    var name, more, all := attrs[0].name, attrs[1..], done + [Pair(attrs[0].name, v)];
    if Fresh(more, all) && IndexOf(done, name) == |done| {
      assert all[|done|].name == name;
      forall i, j | 0 <= i < j < |attrs|
        ensures attrs[i].name != attrs[j].name
      {
        assert attrs[j] == more[j - 1] && (i > 0 ==> attrs[i] == more[i - 1]);
      }
      forall i, k | 0 <= i < |attrs| && 0 <= k < |done|
        ensures attrs[i].name != done[k].name
      {
        assert all[k] == done[k] && (i > 0 ==> attrs[i] == more[i - 1]);
      }
    }
  }

  lemma PairsMove(done: seq<Pair>, attrs: seq<XAttr>, encoding: Encoding)
    requires attrs != []
    ensures done + Pairs(attrs, encoding)
         == (done + [Pair(attrs[0].name, ReadAs(attrs[0].value, encoding))]) + Pairs(attrs[1..], encoding)
  {
  }

  /** All attributes, a gap and the end of the tag. */
  lemma {:induction false} AttrsRead(attrs: seq<XAttr>, w: string, e: string, done: seq<Pair>, encoding: Encoding)
    requires Gap(w, encoding) && e != "" && e[0] in {'/', '>'}
    requires WellAttrs(attrs, w + e, encoding) && Fresh(attrs, done)
    ensures ParseTag(AttrsText(attrs) + (w + e), done, encoding) == EndOfTag(e, done + Pairs(attrs, encoding))
    decreases |attrs|
  {
    WidthlessIs(e);
    if attrs == [] {
      assert "" + (w + e) == w + e && done + [] == done;
      GapSkips(w, e, encoding);
    } else {
      var a, rest := attrs[0], AttrsText(attrs[1..]) + (w + e);
      var p := Pair(a.name, ReadAs(a.value, encoding));
      FreshStep(attrs, done, p.value);
      PairsMove(done, attrs, encoding);
      AttrReads(a, rest, encoding);
      GapSkips(a.gap, AttrText(a) + rest, encoding);
      AttrsGroups(attrs, w + e);
      AttrsRead(attrs[1..], w, e, done + [p], encoding);
      TagTurn(AttrsText(attrs) + (w + e), AttrText(a) + rest, p, rest, done, encoding);
    }
  }

  lemma TagTurn(s: string, p: string, a: Pair, rest: string, done: seq<Pair>, encoding: Encoding)
    requires SkipSpace(s, encoding) == p && p != "" && Begins(p[0]) && ParseAttr(p, encoding) == AttrParsed(a, rest)
    requires rest != "" && IndexOf(done, a.name) == |done|
    ensures ParseTag(s, done, encoding) == ParseTag(rest, done + [a], encoding)
  {
  }

  lemma AttrsGroups(attrs: seq<XAttr>, t: string)
    requires attrs != []
    ensures AttrsText(attrs) + t == attrs[0].gap + (AttrText(attrs[0]) + (AttrsText(attrs[1..]) + t))
  {
    Associate(attrs[0].gap, AttrText(attrs[0]) + AttrsText(attrs[1..]), t);
    Associate(AttrText(attrs[0]), AttrsText(attrs[1..]), t);
  }

  lemma {:induction false} AttrsFrom(s: string, done: seq<Pair>, encoding: Encoding)
    returns (attrs: seq<XAttr>, w: string, e: string)
    requires var r := ParseTag(s, done, encoding); r.Empty? || r.Open?
    ensures Gap(w, encoding) && e != "" && e[0] in {'/', '>'} && s == AttrsText(attrs) + (w + e)
    ensures WellAttrs(attrs, w + e, encoding) && Fresh(attrs, done)
    ensures ParseTag(s, done, encoding) == EndOfTag(e, done + Pairs(attrs, encoding))
    decreases |s|
  {
    var p := SkipSpace(s, encoding);
    var gap := GapOf(s, encoding);
    if p[0] == '/' || p[0] == '>' {
      attrs, w, e := [], gap, p;
      assert "" + (w + e) == w + e && done + [] == done;
    } else {
      var r := ParseAttr(p, encoding);
      var a := AttrFrom(p, encoding);
      var more: seq<XAttr>;
      more, w, e := AttrsFrom(r.rest, done + [r.attr], encoding);
      attrs := [a.(gap := gap)] + more;
      assert attrs[1..] == more && AttrText(attrs[0]) == AttrText(a);
      AttrsGroups(attrs, w + e);
      FreshStep(attrs, done, r.attr.value);
      PairsMove(done, attrs, encoding);
    }
  }
}
