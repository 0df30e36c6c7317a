/** Element trees as TiXmlPrinter writes them and TiXmlElement::Parse reads them. */
module XmlTree {
  import opened CStrings
  import opened XmlBytes
  import opened XmlText
  import opened XmlAttributes

  datatype Tree =
    | Element(name: string, attrs: seq<Pair>, kids: seq<Tree>)
    | Text(value: string)

  // ----- printing -----

  /** SetIndent and SetLineBreak; stream printing sets both to the empty string. */
  datatype Style = Style(indent: string, lineBreak: string)

  const Pretty := Style("    ", "\n")
  const Stream := Style("", "")

  /** Double quotes, or single ones if the value holds a double quote. */
  function PrintAttr(a: Pair): string {
    var q := if '"' in a.value then '\'' else '"';
    EncodeString(a.name) + (['=', q] + (EncodeString(a.value) + [q]))
  }

  function PrintAttrs(attrs: seq<Pair>): string {
    if attrs == [] then "" else " " + PrintAttr(attrs[0]) + PrintAttrs(attrs[1..])
  }

  /** One text child and nothing else is printed on one line with its tags. */
  predicate Simple(kids: seq<Tree>) {
    |kids| == 1 && kids[0].Text?
  }

  function OpenTag(name: string, attrs: seq<Pair>): string {
    "<" + name + PrintAttrs(Shown(attrs))
  }

  function EndTag(name: string): string {
    "</" + name + ">"
  }

  function PrintNode(n: Tree, depth: nat, style: Style): string
    decreases n, 0
  {
    match n
    case Text(v) => Repeat(style.indent, depth) + EncodeString(v) + style.lineBreak
    case Element(name, attrs, kids) =>
      Repeat(style.indent, depth) + OpenTag(name, attrs)
      + (if kids == [] then " />" else ">" + PrintContent(kids, depth, style) + EndTag(name))
      + style.lineBreak
  }

  function PrintContent(kids: seq<Tree>, depth: nat, style: Style): string
    decreases kids, 1
  {
    if Simple(kids) then EncodeString(kids[0].value)
    else style.lineBreak + PrintNodes(kids, depth + 1, style) + Repeat(style.indent, depth)
  }

  function PrintNodes(ns: seq<Tree>, depth: nat, style: Style): string
    decreases ns, 0
  {
    if ns == [] then "" else PrintNode(ns[0], depth, style) + PrintNodes(ns[1..], depth, style)
  }

  // ----- parsing -----

  /** isalpha below 127, and everything from 127 on. */
  predicate IsAlpha(c: char) {
    'a' <= c <= 'z' || 'A' <= c <= 'Z' || c as int >= 127
  }

  predicate NameStart(c: char) {
    IsAlpha(c) || c == '_'
  }

  predicate NameChar(c: char) {
    NameStart(c) || '0' <= c <= '9' || c == '-' || c == '.' || c == ':'
  }

  function NameLength(s: string): (n: nat)
    ensures n <= |s|
    ensures forall k | 0 <= k < n :: NameChar(s[k])
    ensures n == |s| || !NameChar(s[n])
  {
    if s == "" || !NameChar(s[0]) then 0 else 1 + NameLength(s[1..])
  }

  /** ReadName's null pointer. */
  predicate NoName(s: string) {
    s == "" || !NameStart(s[0])
  }

  datatype AttrParsed = AttrParsed(attr: Pair, rest: string) | AttrFailed | AttrOverrun

  /** TiXmlAttribute::Parse. */
  function ParseAttr(s: string, encoding: Encoding): (r: AttrParsed)
    ensures r.AttrParsed? ==> |r.rest| < |s|
  {
    var p := SkipSpace(s, encoding);
    if NoName(p) || NameLength(p) == |p| then AttrFailed
    else AfterAttrName(p[..NameLength(p)], p[NameLength(p)..], encoding)
  }

  /** The '=' and the value. */
  function AfterAttrName(name: string, s: string, encoding: Encoding): (r: AttrParsed)
    ensures r.AttrParsed? ==> |r.rest| <= |s|
  {
    var q := SkipSpace(s, encoding);
    if q == "" || q[0] != '=' then AttrFailed else AfterEquals(name, q[1..], encoding)
  }

  function AfterEquals(name: string, s: string, encoding: Encoding): (r: AttrParsed)
    ensures r.AttrParsed? ==> |r.rest| <= |s|
  {
    var v := SkipSpace(s, encoding);
    if v == "" then AttrFailed else WithValue(name, ValueOf(v, encoding))
  }

  function WithValue(name: string, r: Read): AttrParsed {
    match r
    case Read(text, rest) => AttrParsed(Pair(name, text), rest)
    case NoText => AttrFailed
    case _ => AttrOverrun
  }

  function ValueOf(v: string, encoding: Encoding): (r: Read)
    requires v != ""
    ensures r.Read? ==> |r.rest| <= |v|
  {
    if v[0] == '\'' || v[0] == '"' then ReadKeeping(v[1..], [v[0]], encoding)
    else
      var m := BareLength(v);
      if m < |v| && (v[m] == '\'' || v[m] == '"') then NoText else Read(v[..m], v[m..])
  }

  /** A value without quotes goes up to whitespace, '/', '>' or a quote, which is an error. */
  function BareLength(s: string): (n: nat)
    ensures n <= |s|
  {
    if s == "" || IsSpace(s[0]) || s[0] == '/' || s[0] == '>' || s[0] == '\'' || s[0] == '"' then 0
    else 1 + BareLength(s[1..])
  }

  datatype TagParsed =
    | Empty(attrs: seq<Pair>, rest: string)
    | Open(attrs: seq<Pair>, rest: string)
    | TagFailed
    | TagOverrun

  /** The rest of a start tag. A name that comes twice is an error. */
  function ParseTag(s: string, attrs: seq<Pair>, encoding: Encoding): (r: TagParsed)
    ensures r.Empty? || r.Open? ==> |r.rest| < |s|
    decreases |s|
  {
    var p := SkipSpace(s, encoding);
    if p == "" then TagFailed
    else if p[0] == '/' || p[0] == '>' then EndOfTag(p, attrs)
    else match ParseAttr(p, encoding)
      case AttrFailed => TagFailed
      case AttrOverrun => TagOverrun
      case AttrParsed(a, rest) =>
        if rest == "" || IndexOf(attrs, a.name) < |attrs| then TagFailed else ParseTag(rest, attrs + [a], encoding)
  }

  function EndOfTag(p: string, attrs: seq<Pair>): (r: TagParsed)
    requires p != ""
    ensures r.Empty? || r.Open? ==> |r.rest| < |p|
  {
    if p[0] == '>' then Open(attrs, p[1..]) else if At(p, 1) == '>' then Empty(attrs, p[2..]) else TagFailed
  }

  datatype Parsed = Parsed(node: Tree, rest: string) | Failed | Overran
    | Other            // a comment, a declaration, CDATA or an unknown tag

  datatype Content = Content(kids: seq<Tree>, rest: string) | NoContent(why: Parsed)

  function Prepend(n: Tree, c: Content): Content {
    match c
    case Content(kids, rest) => Content([n] + kids, rest)
    case _ => c
  }

  /** TiXmlElement::Parse. */
  function ParseElement(s: string, encoding: Encoding): (r: Parsed)
    ensures r.Parsed? ==> |r.rest| < |s|
    decreases |s|, 0
  {
    var p := SkipSpace(s, encoding);
    if p == "" || p[0] != '<' then Failed
    else
      var q := SkipSpace(p[1..], encoding);
      if NoName(q) || NameLength(q) == |q| then Failed
      else
        AfterName(q[..NameLength(q)], q[NameLength(q)..], encoding)
  }

  /** What follows the name of an element. */
  function AfterName(name: string, s: string, encoding: Encoding): (r: Parsed)
    ensures r.Parsed? ==> |r.rest| < |s|
    decreases |s|, 2
  {
    match ParseTag(s, [], encoding)
    case TagFailed => Failed
    case TagOverrun => Overran
    case Empty(attrs, rest) => Parsed(Element(name, attrs, []), rest)
    case Open(attrs, rest) => Closed(name, attrs, ParseContent(rest, encoding))
  }

  /** The end tag has to be the one of this element. */
  function Closed(name: string, attrs: seq<Pair>, c: Content): (r: Parsed)
    requires c.NoContent? ==> !c.why.Parsed?
    ensures r.Parsed? ==> c.Content? && |r.rest| < |c.rest|
  {
    match c
    case NoContent(why) => why
    case Content(kids, end) =>
      if EndTag(name) <= end then Parsed(Element(name, attrs, kids), end[|EndTag(name)|..]) else Failed
  }

  predicate Blank(v: string) {
    forall i | 0 <= i < |v| :: IsSpace(v[i])
  }

  /** TiXmlElement::ReadValue: texts and elements up to the next "</". A blank text is dropped. */
  function ParseContent(s: string, encoding: Encoding): (r: Content)
    ensures r.Content? ==> |r.rest| <= |s|
    ensures r.NoContent? ==> !r.why.Parsed?
    decreases |s|, 1
  {
    var p := SkipSpace(s, encoding);
    if p == "" then NoContent(Failed)
    else if p[0] != '<' then
      match ReadTrimming(p, "<", encoding)
      case Read(text, rest) =>
        var more := ParseContent("<" + rest, encoding);
        if Blank(text) then more else Prepend(Text(text), more)
      case ReadOverrun => NoContent(Overran)
      case _ => NoContent(Failed)
    else if At(p, 1) == '/' then Content([], p)
    else if !NameStart(At(p, 1)) then NoContent(Other)
    else
      match ParseElement(p, encoding)
      case Parsed(node, rest) => Prepend(node, ParseContent(rest, encoding))
      case why => NoContent(why)
  }
}
