/** The elements TiXmlElement::Parse accepts are those the grammar writes. */
module XmlAccepts {
  import opened CStrings
  import opened XmlAttributes
  import opened XmlBytes
  import opened XmlGrammar
  import opened XmlText
  import opened XmlTree
  import opened XmlUnits

  lemma TagGroups(x: Node, t: string)
    requires x.Tag?
    ensures TagText(x) + t
         == "<" + (x.inner + (x.name + (AttrsText(x.attrs) + (x.gap + (BodyText(x.name, x.body) + t)))))
  {
    var b := BodyText(x.name, x.body);
    Associate(x.gap, b, t);
    Associate(AttrsText(x.attrs), x.gap + b, t);
    Associate(x.name, AttrsText(x.attrs) + (x.gap + b), t);
    Associate(x.inner, x.name + (AttrsText(x.attrs) + (x.gap + b)), t);
    Associate("<", x.inner + (x.name + (AttrsText(x.attrs) + (x.gap + b))), t);
  }

  lemma BodyGroups(name: string, ns: Nodes, gap: string, t: string)
    ensures BodyText(name, Kids(ns, gap)) + t == ">" + (NodesText(ns) + (gap + ("</" + name + ">" + t)))
  {
    var e := "</" + name + ">";
    Associate(gap, e, t);
    Associate(NodesText(ns), gap + e, t);
    Associate(">", NodesText(ns) + (gap + e), t);
  }

  lemma NodesGroups(ns: Nodes, t: string)
    requires ns.Nodes?
    ensures NodesText(ns) + t == ns.lead + (NodeText(ns.head) + (NodesText(ns.more) + t))
  {
    Associate(ns.lead, NodeText(ns.head) + NodesText(ns.more), t);
    Associate(NodeText(ns.head), NodesText(ns.more), t);
  }

  lemma BodyStarts(name: string, body: Body, t: string)
    ensures var e := BodyText(name, body) + t; e != "" && e[0] == if body.NoBody? then '/' else '>'
  {
  }

  /** What follows the name of a tag cannot go on with it. */
  lemma NameEnds(x: Node, t: string, encoding: Encoding)
    requires x.Tag? && WellTag(x, t, encoding)
    ensures var u := AttrsText(x.attrs) + (x.gap + (BodyText(x.name, x.body) + t)); u != "" && !GoesOn(u[0])
  {
    var e := BodyText(x.name, x.body) + t;
    BodyStarts(x.name, x.body, t);
    if x.attrs == [] {
      assert "" + (x.gap + e) == x.gap + e;
      GapThen(x.gap, e);
    } else {
      AttrsGroups(x.attrs, x.gap + e);
      BeginsIs(x.attrs[0].gap[0]);
    }
  }

  /** An element before any text. */
  lemma {:induction false} TagReads(lead: string, x: Node, t: string, encoding: Encoding)
    requires Gap(lead, encoding) && x.Tag? && WellTag(x, t, encoding)
    ensures ParseElement(lead + (TagText(x) + t), encoding) == Parsed(TreeOf(x, encoding), t)
    decreases x, 1
  {
    var e := BodyText(x.name, x.body) + t;
    var u := AttrsText(x.attrs) + (x.gap + e);
    var p := "<" + (x.inner + (x.name + u));
    TagGroups(x, t);
    WidthlessIs(p);
    GapSkips(lead, p, encoding);
    NameEnds(x, t, encoding);
    NameIsRead(x.name, u, encoding);
    GapSkips(x.inner, x.name + u, encoding);
    assert p[1..] == x.inner + (x.name + u);
    NamedRead(lead + p, p, x.name, u, encoding);
    BodyReads(x, t, encoding);
  }

  lemma NamedRead(s: string, p: string, name: string, u: string, encoding: Encoding)
    requires SkipSpace(s, encoding) == p && p != "" && p[0] == '<' && SkipSpace(p[1..], encoding) == name + u && u != ""
    requires !NoName(name + u) && NameLength(name + u) == |name|
    ensures ParseElement(s, encoding) == AfterName(name, u, encoding)
  {
    PrefixOfConcat(name, u);
    assert (name + u)[..|name|] == name;
  }

  lemma {:induction false} BodyReads(x: Node, t: string, encoding: Encoding)
    requires x.Tag? && WellTag(x, t, encoding)
    ensures AfterName(x.name, AttrsText(x.attrs) + (x.gap + (BodyText(x.name, x.body) + t)), encoding)
         == Parsed(TreeOf(x, encoding), t)
    decreases x, 0
  {
    var e, pairs := BodyText(x.name, x.body) + t, Pairs(x.attrs, encoding);
    BodyStarts(x.name, x.body, t);
    HeadReads(x.attrs, x.gap, e, encoding);
    match x.body
    case NoBody =>
      assert e[2..] == t && e[1] == '>';
    case Kids(ns, gap) =>
      NodesRead(ns, gap, "</" + x.name + ">" + t, encoding);
      EndReads(x.name, pairs, ns, gap, t, encoding);
  }

  lemma HeadReads(attrs: seq<XAttr>, w: string, e: string, encoding: Encoding)
    requires Gap(w, encoding) && e != "" && e[0] in {'/', '>'} && WellAttrs(attrs, w + e, encoding)
    requires forall i, j | 0 <= i < j < |attrs| :: attrs[i].name != attrs[j].name
    ensures ParseTag(AttrsText(attrs) + (w + e), [], encoding) == EndOfTag(e, Pairs(attrs, encoding))
  {
    var pairs := Pairs(attrs, encoding);
    AttrsRead(attrs, w, e, [], encoding);
    assert [] + pairs == pairs;
  }

  lemma EndReads(name: string, pairs: seq<Pair>, ns: Nodes, gap: string, t: string, encoding: Encoding)
    requires var e := "</" + name + ">" + t;
             ParseContent(NodesText(ns) + (gap + e), encoding) == Content(KidsOf(ns, encoding), e)
    ensures var e := BodyText(name, Kids(ns, gap)) + t;
            Closed(name, pairs, ParseContent(e[1..], encoding)) == Parsed(Element(name, pairs, KidsOf(ns, encoding)), t)
  {
    var e := BodyText(name, Kids(ns, gap)) + t;
    BodyGroups(name, ns, gap, t);
    assert e[1..] == NodesText(ns) + (gap + ("</" + name + ">" + t));
    PrefixOfConcat(EndTag(name), t);
  }

  /** The nodes inside an element, a gap and an end tag. */
  lemma {:induction false} NodesRead(ns: Nodes, w: string, e: string, encoding: Encoding)
    requires Gap(w, encoding) && |e| >= 2 && e[0] == '<' && e[1] == '/' && WellNodes(ns, w + e, encoding)
    ensures ParseContent(NodesText(ns) + (w + e), encoding) == Content(KidsOf(ns, encoding), e)
    decreases ns
  {
    var s := NodesText(ns) + (w + e);
    match ns
    case NoNodes =>
      assert s == w + e;
      WidthlessIs(e);
      GapSkips(w, e, encoding);
    case Nodes(lead, head, more) =>
      var t := NodesText(more) + (w + e);
      NodesGroups(ns, w + e);
      NodesRead(more, w, e, encoding);
      if head.Tag? {
        TagReads("", head, t, encoding);
        TagInside(lead, head, t, encoding);
      } else {
        CharsInside(lead, head.units, t, encoding);
      }
  }

  function With(ts: seq<Tree>, c: Content): Content {
    match c
    case Content(kids, rest) => Content(ts + kids, rest)
    case _ => c
  }

  lemma TagInside(lead: string, x: Node, t: string, encoding: Encoding)
    requires Gap(lead, encoding) && x.Tag? && WellNode(x, t, encoding)
    requires ParseElement("" + (TagText(x) + t), encoding) == Parsed(TreeOf(x, encoding), t)
    ensures ParseContent(lead + (TagText(x) + t), encoding) == With(TreesOf(x, encoding), ParseContent(t, encoding))
  {
    var p := TagText(x) + t;
    assert "" + p == p;
    TagBegins(x, t, encoding);
    AngleIsSolid(p, encoding);
    GapSkips(lead, p, encoding);
    TagContent(lead + p, p, TreeOf(x, encoding), t, encoding);
  }

  lemma AngleIsSolid(p: string, encoding: Encoding)
    requires p != "" && p[0] == '<'
    ensures Solid(p, encoding)
  {
    WidthlessIs(p);
  }

  lemma TagBegins(x: Node, t: string, encoding: Encoding)
    requires x.Tag? && WellNode(x, t, encoding)
    ensures var p := TagText(x) + t; |p| >= 2 && p[0] == '<' && Begins(p[1]) && (x.inner != "" ==> p[1] == x.inner[0])
  {
    var u := AttrsText(x.attrs) + (x.gap + (BodyText(x.name, x.body) + t));
    TagGroups(x, t);
    FirstChar(x.name, u);
    FirstChar(x.inner, x.name + u);
  }

  lemma TagContent(s: string, p: string, n: Tree, t: string, encoding: Encoding)
    requires SkipSpace(s, encoding) == p && |p| >= 2 && p[0] == '<' && Begins(p[1])
    requires ParseElement(p, encoding) == Parsed(n, t)
    ensures ParseContent(s, encoding) == With([n], ParseContent(t, encoding))
  {
    BeginsIs(p[1]);
  }

  lemma CharsInside(lead: string, us: seq<Unit>, t: string, encoding: Encoding)
    requires Gap(lead, encoding) && WellNode(Chars(us), t, encoding)
    ensures ParseContent(lead + (UnitsText(us) + t), encoding)
         == With(TreesOf(Chars(us), encoding), ParseContent(t, encoding))
  {
    var p, v := UnitsText(us) + t, Condensed(us, false, encoding);
    assert t == "<" + t[1..];
    NextUnit(us, '<', t, encoding);
    TextRead(us, false, t[1..], encoding);
    GapSkips(lead, p, encoding);
    SolidStays(p, encoding);
    CharsContent(lead + p, p, us, t, encoding);
  }

  lemma CharsContent(s: string, p: string, us: seq<Unit>, t: string, encoding: Encoding)
    requires SkipSpace(s, encoding) == p && p != "" && p[0] != '<' && t != "" && t[0] == '<'
    requires ReadTrimming(p, "<", encoding) == Read(Condensed(us, false, encoding), t[1..])
    ensures ParseContent(s, encoding) == With(TreesOf(Chars(us), encoding), ParseContent(t, encoding))
  {
    var c := ParseContent(t, encoding);
    assert t == "<" + t[1..];
    BlankIs(Condensed(us, false, encoding));
    assert c.Content? ==> [] + c.kids == c.kids;
  }

  lemma BlankIs(v: string)
    ensures Blank(v) <==> forall i | 0 <= i < |v| :: White(v[i])
  {
    if Blank(v) {
      forall i | 0 <= i < |v|
        ensures White(v[i])
      {
        WhiteIs(v[i]);
      }
    } else {
      var i :| 0 <= i < |v| && !IsSpace(v[i]);
      WhiteIs(v[i]);
      assert !White(v[i]);
    }
  }

  // ----- from an element to its text -----

  /** s is a gap, the element x and the text t, and x stands for n. */
  ghost predicate IsWritten(s: string, lead: string, x: Node, n: Tree, t: string, encoding: Encoding) {
    && Gap(lead, encoding) && x.Tag? && WellTag(x, t, encoding)
    && s == lead + (TagText(x) + t) && TreeOf(x, encoding) == n
  }

  /** Every element that was read was written by the grammar. */
  lemma {:induction false} TagOf(s: string, encoding: Encoding) returns (lead: string, x: Node)
    requires ParseElement(s, encoding).Parsed?
    ensures var r := ParseElement(s, encoding); IsWritten(s, lead, x, r.node, r.rest, encoding)
    decreases |s|, 1
  {
    var p, rest := SkipSpace(s, encoding), ParseElement(s, encoding).rest;
    lead := GapOf(s, encoding);
    var inner := GapOf(p[1..], encoding);
    var q := SkipSpace(p[1..], encoding);
    var n := NameLength(q);
    NameOf(q, encoding);
    assert q[..n] + q[n..] == q && p == "<" + p[1..];
    NamedRead(s, p, q[..n], q[n..], encoding);
    var y := NamedOf(q[..n], q[n..], encoding);
    x := y.(inner := inner);
    GapBeforeName(y, inner, rest, encoding);
  }

  lemma GapBeforeName(y: Node, inner: string, t: string, encoding: Encoding)
    requires y.Tag? && WellTag(y, t, encoding) && Gap(inner, encoding)
    ensures var x := y.(inner := inner);
            && WellTag(x, t, encoding) && TreeOf(x, encoding) == TreeOf(y, encoding)
            && TagText(x) + t
               == "<" + (inner + (y.name + (AttrsText(y.attrs) + (y.gap + (BodyText(y.name, y.body) + t)))))
  {
    TagGroups(y.(inner := inner), t);
  }

  /** x, without a gap before its name, is the element read from s behind that name. */
  ghost predicate NamedAs(x: Node, name: string, s: string, encoding: Encoding) {
    var r := AfterName(name, s, encoding);
    && r.Parsed? && x.Tag? && x.inner == "" && x.name == name && WellTag(x, r.rest, encoding)
    && s == AttrsText(x.attrs) + (x.gap + (BodyText(name, x.body) + r.rest)) && TreeOf(x, encoding) == r.node
  }

  lemma {:induction false} NamedOf(name: string, s: string, encoding: Encoding) returns (x: Node)
    requires IsName(name, encoding) && s != "" && !GoesOn(s[0]) && AfterName(name, s, encoding).Parsed?
    ensures NamedAs(x, name, s, encoding)
    decreases |s|, 1
  {
    var attrs, w, e := AttrsFrom(s, [], encoding);
    assert [] + Pairs(attrs, encoding) == Pairs(attrs, encoding);
    ApartFromAttrs(attrs, w, e, encoding);
    if e[0] == '/' {
      x := Tag("", name, attrs, w, NoBody);
      EmptyText(e);
      NamedFrom(x, name, s, w, e, e[2..], encoding);
    } else {
      var body := BodyOf(name, attrs, e, encoding);
      x := Tag("", name, attrs, w, body);
      NamedFrom(x, name, s, w, e, AfterName(name, s, encoding).rest, encoding);
    }
  }

  lemma EmptyText(e: string)
    requires |e| >= 2 && e[0] == '/' && e[1] == '>'
    ensures e == "/>" + e[2..]
  {
  }

  lemma NamedFrom(x: Node, name: string, s: string, w: string, e: string, rest: string, encoding: Encoding)
    requires x.Tag? && x.inner == "" && x.name == name && x.gap == w && IsName(name, encoding)
    requires if x.attrs == [] then Apart(w) else x.attrs[0].gap != "" && Apart(x.attrs[0].gap)
    requires Gap(w, encoding) && WellAttrs(x.attrs, w + e, encoding) && Fresh(x.attrs, [])
    requires WellBody(name, x.body, rest, encoding)
    requires e == BodyText(name, x.body) + rest && s == AttrsText(x.attrs) + (w + e)
    requires AfterName(name, s, encoding) == Parsed(TreeOf(x, encoding), rest)
    ensures NamedAs(x, name, s, encoding)
  {
  }

  lemma {:induction false} BodyOf(name: string, attrs: seq<XAttr>, e: string, encoding: Encoding) returns (body: Body)
    requires e != "" && e[0] == '>' && Closed(name, Pairs(attrs, encoding), ParseContent(e[1..], encoding)).Parsed?
    ensures var r := Closed(name, Pairs(attrs, encoding), ParseContent(e[1..], encoding));
            && body.Kids? && WellBody(name, body, r.rest, encoding) && e == BodyText(name, body) + r.rest
            && r.node == Element(name, Pairs(attrs, encoding), KidsOf(body.nodes, encoding))
    decreases |e|, 0
  {
    var ns, gap := NodesOf(e[1..], encoding);
    var c := ParseContent(e[1..], encoding);
    var rest := c.rest[|EndTag(name)|..];
    body := Kids(ns, gap);
    assert c.rest == EndTag(name) + rest;
    BodyGroups(name, ns, gap, rest);
    assert e == ">" + e[1..];
  }

  lemma FirstChar(a: string, b: string)
    requires a + b != ""
    ensures (a + b)[0] == At(if a == "" then b else a, 0)
  {
  }

  lemma NameFirst(a: XAttr)
    requires a.name != ""
    ensures AttrText(a) != "" && AttrText(a)[0] == a.name[0]
  {
  }

  lemma ApartFromAttrs(attrs: seq<XAttr>, w: string, e: string, encoding: Encoding)
    requires Gap(w, encoding) && e != "" && WellAttrs(attrs, w + e, encoding)
    requires var s := AttrsText(attrs) + (w + e); s != "" && !GoesOn(s[0])
    ensures if attrs == [] then Apart(w) else attrs[0].gap != "" && Apart(attrs[0].gap)
  {
    if attrs == [] {
      assert "" + (w + e) == w + e;
      ApartFrom(w, e, encoding);
    } else {
      var a := attrs[0];
      AttrsGroups(attrs, w + e);
      FirstChar(a.gap, AttrText(a) + (AttrsText(attrs[1..]) + (w + e)));
      NameFirst(a);
      ApartFrom(a.gap, AttrText(a) + (AttrsText(attrs[1..]) + (w + e)), encoding);
    }
  }

  lemma {:induction false} NodesOf(s: string, encoding: Encoding) returns (ns: Nodes, w: string)
    requires ParseContent(s, encoding).Content?
    ensures var c := ParseContent(s, encoding);
            && Gap(w, encoding) && |c.rest| >= 2 && c.rest[0] == '<' && c.rest[1] == '/'
            && WellNodes(ns, w + c.rest, encoding) && s == NodesText(ns) + (w + c.rest)
            && c.kids == KidsOf(ns, encoding)
    decreases |s|, 4
  {
    var p, c := SkipSpace(s, encoding), ParseContent(s, encoding);
    var lead := GapOf(s, encoding);
    if p[0] == '<' && At(p, 1) == '/' {
      ns, w := NoNodes, lead;
      assert "" + (w + p) == w + p;
    } else {
      var head, t := HeadOf(s, p, encoding);
      var more: Nodes;
      more, w := NodesOf(t, encoding);
      ns := Nodes(lead, head, more);
      NodesGroups(ns, w + c.rest);
    }
  }

  /** The first node of some content, and what follows it. */
  ghost predicate HeadAs(x: Node, t: string, s: string, p: string, encoding: Encoding) {
    && WellNode(x, t, encoding) && p == NodeText(x) + t && |t| < |p|
    && ParseContent(s, encoding) == With(TreesOf(x, encoding), ParseContent(t, encoding))
  }

  lemma {:induction false} HeadOf(s: string, p: string, encoding: Encoding) returns (x: Node, t: string)
    requires p == SkipSpace(s, encoding) && Solid(p, encoding) && ParseContent(s, encoding).Content?
    requires p != "" && (p[0] == '<' ==> At(p, 1) != '/')
    ensures HeadAs(x, t, s, p, encoding)
    decreases |s|, 3
  {
    if p[0] == '<' {
      t := ParseElement(p, encoding).rest;
      x := InnerTagOf(p, encoding);
      TagContent(s, p, TreeOf(x, encoding), t, encoding);
    } else {
      var us: seq<Unit>;
      us, t := CharsOf(s, p, encoding);
      x := Chars(us);
      CharsContent(s, p, us, t, encoding);
    }
  }

  lemma {:induction false} InnerTagOf(p: string, encoding: Encoding) returns (x: Node)
    requires p != "" && p[0] == '<' && NameStart(At(p, 1)) && ParseElement(p, encoding).Parsed?
    ensures var r := ParseElement(p, encoding);
            && x.Tag? && WellNode(x, r.rest, encoding) && p == TagText(x) + r.rest && TreeOf(x, encoding) == r.node
            && |p| >= 2 && Begins(p[1])
    decreases |p|, 2
  {
    var lead: string;
    lead, x := TagOf(p, encoding);
    var rest := ParseElement(p, encoding).rest;
    WidthlessIs(lead);
    FirstChar(lead, TagText(x) + rest);
    assert lead == "";
    assert "" + (TagText(x) + rest) == TagText(x) + rest;
    TagGroups(x, rest);
    BeginsIs(At(p, 1));
  }

  lemma CharsOf(s: string, p: string, encoding: Encoding) returns (us: seq<Unit>, t: string)
    requires p == SkipSpace(s, encoding) && p != "" && p[0] != '<' && Solid(p, encoding)
    requires ParseContent(s, encoding).Content?
    ensures WellNode(Chars(us), t, encoding) && p == UnitsText(us) + t && |t| < |p|
    ensures ReadTrimming(p, "<", encoding) == Read(Condensed(us, false, encoding), t[1..])
  {
    SolidStays(p, encoding);
    us := TextUnitsOf(p, false, encoding);
    t := "<" + Condense(p, false, "<", encoding).rest;
    TextRead(us, false, t[1..], encoding);
  }

  /** The parser accepts an element at the front of a text if and only if the grammar writes it there, behind a gap; and
      it gives the tree and the rest that the grammar gives. */
  lemma AcceptsExactly(s: string, n: Tree, t: string, encoding: Encoding)
    ensures ParseElement(s, encoding) == Parsed(n, t) <==> exists lead, x: Node :: IsWritten(s, lead, x, n, t, encoding)
  {
    if ParseElement(s, encoding) == Parsed(n, t) {
      var lead, x := TagOf(s, encoding);
      assert IsWritten(s, lead, x, n, t, encoding);
    }
    forall lead, x: Node | IsWritten(s, lead, x, n, t, encoding)
      ensures ParseElement(s, encoding) == Parsed(n, t)
    {
      TagReads(lead, x, t, encoding);
    }
  }
}
