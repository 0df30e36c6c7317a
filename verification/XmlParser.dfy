/** The loops of TiXmlAttribute::Parse, TiXmlElement::Parse and ReadValue over a C string and a position. */
module XmlParser {
  import opened CStrings
  import opened XmlBytes
  import opened XmlText
  import opened XmlAttributes
  import opened XmlTree
  import opened XmlReader

  /** The position after what was parsed, or why there is none: the null pointer, a read past the terminator,
      or a node of another kind. */
  datatype Next = After(p: nat) | Fails | Overruns | Unknown

  function AttrAt(text: string, a: Pair, n: Next): AttrParsed {
    match n
    case After(p) => if p <= |text| then AttrParsed(a, text[p..]) else AttrOverrun
    case Overruns => AttrOverrun
    case _ => AttrFailed
  }

  method ParseAttrAt(text: string, p0: nat, encoding: Encoding) returns (a: Pair, n: Next)
    requires p0 <= |text|
    ensures AttrAt(text, a, n) == ParseAttr(text[p0..], encoding)
    ensures n.After? ==> p0 < n.p <= |text|
  {
    var p := SkipWhiteSpace(text, p0, encoding);
    a, n := Pair("", ""), Fails;
    var name, q := ReadName(text, p);
    if q.None? || q.value == |text| {
      return;
    }
    a, n := ParseAfterAttrName(text, q.value, name, encoding);
  }

  method ParseAfterAttrName(text: string, p0: nat, name: string, encoding: Encoding) returns (a: Pair, n: Next)
    requires p0 <= |text|
    ensures AttrAt(text, a, n) == AfterAttrName(name, text[p0..], encoding)
    ensures n.After? ==> p0 < n.p <= |text|
  {
    a, n := Pair("", ""), Fails;
    var p := SkipWhiteSpace(text, p0, encoding);
    if p < |text| && text[p] == '=' {
      assert text[p..][1..] == text[p + 1..];
      a, n := ParseAfterEquals(text, p + 1, name, encoding);
    }
  }

  method ParseAfterEquals(text: string, p0: nat, name: string, encoding: Encoding) returns (a: Pair, n: Next)
    requires p0 <= |text|
    ensures AttrAt(text, a, n) == AfterEquals(name, text[p0..], encoding)
    ensures n.After? ==> p0 <= n.p <= |text|
  {
    a, n := Pair("", ""), Fails;
    var p := SkipWhiteSpace(text, p0, encoding);
    if p == |text| {
      return;
    }
    var value;
    value, n := ParseValueAt(text, p, encoding);
    a := Pair(name, value);
    ValueKept(text, name, value, n, ValueOf(text[p..], encoding));
  }

  lemma ValueKept(text: string, name: string, value: string, n: Next, r: Read)
    requires ValueIs(r, text, value, n)
    ensures AttrAt(text, Pair(name, value), n) == WithValue(name, r)
  {
  }

  ghost predicate ValueIs(r: Read, text: string, value: string, n: Next) {
    match r
    case Read(v, rest) => value == v && n.After? && n.p <= |text| && rest == text[n.p..]
    case NoText => n == Fails
    case _ => n == Overruns
  }

  method QuotedValueAt(text: string, p: nat, quote: string, encoding: Encoding) returns (value: string, n: Next)
    requires p <= |text|
    ensures ValueIs(ReadKeeping(text[p..], quote, encoding), text, value, n)
    ensures n.After? ==> p <= n.p <= |text|
  {
    var w;
    value, w := ReadTextKeeping(text, p, quote, encoding);
    n := match w case Here(q) => After(q) case Null => Fails case _ => Overruns;
    assert w.Here? ==> |text[w.p..]| <= |text[p..]|;
  }

  method ParseValueAt(text: string, p0: nat, encoding: Encoding) returns (value: string, n: Next)
    requires p0 < |text|
    ensures ValueIs(ValueOf(text[p0..], encoding), text, value, n)
    ensures n.After? ==> p0 <= n.p <= |text|
  {
    if text[p0] == '\'' || text[p0] == '"' {
      assert text[p0..][1..] == text[p0 + 1..];
      value, n := QuotedValueAt(text, p0 + 1, [text[p0]], encoding);
      return;
    }
    var ok, p;
    ok, p := BareValueAt(text, p0);
    return text[p0..p], if ok then After(p) else Fails;
  }

  /** A value without quotes. */
  method BareValueAt(text: string, p0: nat) returns (ok: bool, p: nat)
    requires p0 < |text|
    ensures p0 <= p <= |text| && p == p0 + BareLength(text[p0..])
    ensures ok <==> p == |text| || (text[p] != '\'' && text[p] != '"')
    ensures text[p0..][..p - p0] == text[p0..p] && text[p0..][p - p0..] == text[p..]
    ensures p < |text| ==> text[p0..][p - p0] == text[p]
  {
    p := p0;
    while p < |text| && !IsSpace(text[p]) && text[p] != '/' && text[p] != '>'
      invariant p0 <= p <= |text|
      invariant BareLength(text[p0..]) == p - p0 + BareLength(text[p..])
      decreases |text| - p
    {
      if text[p] == '\'' || text[p] == '"' {
        return false, p;
      }
      assert text[p..][1..] == text[p + 1..];
      p := p + 1;
    }
    ok := true;
  }

  function TagAt(text: string, attrs: seq<Pair>, open: bool, n: Next): TagParsed {
    match n
    case After(p) => if p > |text| then TagOverrun else if open then Open(attrs, text[p..]) else Empty(attrs, text[p..])
    case Overruns => TagOverrun
    case _ => TagFailed
  }

  /** The attribute loop of TiXmlElement::Parse, up to the end of the start tag. */
  method ParseTagAt(text: string, p0: nat, encoding: Encoding) returns (attrs: seq<Pair>, open: bool, n: Next)
    requires p0 <= |text|
    ensures TagAt(text, attrs, open, n) == ParseTag(text[p0..], [], encoding)
    ensures n.After? ==> p0 < n.p <= |text|
  {
    attrs, open, n := [], false, Fails;
    var p := p0;
    while p < |text|
      invariant p0 <= p <= |text|
      invariant ParseTag(text[p..], attrs, encoding) == ParseTag(text[p0..], [], encoding)
      decreases |text| - p
    {
      var q := SkipWhiteSpace(text, p, encoding);
      if q == |text| {
        return;
      }
      if text[q] == '/' || text[q] == '>' {
        open, n := TagEndAt(text, q, attrs);
        return;
      }
      var a, next := ParseAttrAt(text, q, encoding);
      if !next.After? {
        return attrs, open, if next.Overruns? then Overruns else Fails;
      }
      if next.p == |text| || IndexOf(attrs, a.name) < |attrs| {
        return;
      }
      attrs, p := attrs + [a], next.p;
    }
  }

  method TagEndAt(text: string, q: nat, ghost attrs: seq<Pair>) returns (open: bool, n: Next)
    requires q < |text|
    ensures TagAt(text, attrs, open, n) == EndOfTag(text[q..], attrs)
    ensures n.After? ==> q < n.p <= |text|
  {
    open, n := text[q] == '>', Fails;
    if open {
      assert text[q..][1..] == text[q + 1..];
      n := After(q + 1);
    } else if At(text, q + 1) == '>' {
      assert text[q..][2..] == text[q + 2..];
      n := After(q + 2);
    }
  }

  function NodeAt(text: string, node: Tree, n: Next): Parsed {
    match n
    case After(p) => if p <= |text| then Parsed(node, text[p..]) else Overran
    case Fails => Failed
    case Overruns => Overran
    case Unknown => Other
  }

  function ContentAt(text: string, kids: seq<Tree>, n: Next): Content {
    match n
    case After(p) => if p <= |text| then Content(kids, text[p..]) else NoContent(Overran)
    case Fails => NoContent(Failed)
    case Overruns => NoContent(Overran)
    case Unknown => NoContent(Other)
  }

  /** TiXmlElement::Parse. */
  method ParseElementAt(text: string, p0: nat, encoding: Encoding) returns (node: Tree, n: Next)
    requires p0 <= |text|
    ensures NodeAt(text, node, n) == ParseElement(text[p0..], encoding)
    ensures n.After? ==> p0 < n.p <= |text|
    decreases |text| - p0, 0
  {
    node, n := Text(""), Fails;
    var p := SkipWhiteSpace(text, p0, encoding);
    if p == |text| || text[p] != '<' {
      return;
    }
    assert text[p..][1..] == text[p + 1..];
    p := SkipWhiteSpace(text, p + 1, encoding);
    var name, q := ReadName(text, p);
    if q.None? || q.value == |text| {
      return;
    }
    node, n := ParseAfterName(text, q.value, name, encoding);
  }

  method ParseAfterName(text: string, p0: nat, name: string, encoding: Encoding) returns (node: Tree, n: Next)
    requires p0 <= |text|
    ensures NodeAt(text, node, n) == AfterName(name, text[p0..], encoding)
    ensures n.After? ==> p0 < n.p <= |text|
    decreases |text| - p0, 2
  {
    node := Text("");
    var attrs, open, tag := ParseTagAt(text, p0, encoding);
    if !tag.After? {
      return node, if tag.Overruns? then Overruns else Fails;
    }
    if !open {
      return Element(name, attrs, []), tag;
    }
    var kids;
    kids, n := ParseContentAt(text, tag.p, encoding);
    if n.After? {
      node := Element(name, attrs, kids);
      n := CloseAt(text, n.p, name, attrs, kids);
    }
  }

  /** The end tag. */
  method CloseAt(text: string, p: nat, name: string, ghost attrs: seq<Pair>, ghost kids: seq<Tree>) returns (n: Next)
    requires p <= |text|
    ensures NodeAt(text, Element(name, attrs, kids), n) == Closed(name, attrs, Content(kids, text[p..]))
    ensures n.After? ==> p < n.p <= |text|
  {
    var endTag := EndTag(name);
    if p < |text| && StringEqual(text, p, endTag) {
      assert text[p..][|endTag|..] == text[p + |endTag|..];
      return After(p + |endTag|);
    }
    n := Fails;
  }

  function Joined(kids: seq<Tree>, c: Content): Content {
    match c
    case Content(more, rest) => Content(kids + more, rest)
    case _ => c
  }

  lemma JoinedOne(kids: seq<Tree>, n: Tree, c: Content)
    ensures Joined(kids, Prepend(n, c)) == Joined(kids + [n], c)
  {
    if c.Content? {
      assert kids + ([n] + c.kids) == (kids + [n]) + c.kids;
    }
  }

  lemma JoinedNone(c: Content)
    ensures Joined([], c) == c
  {
    if c.Content? {
      assert [] + c.kids == c.kids;
    }
  }

  /** ReadValue: children are linked in the order they are read. */
  method ParseContentAt(text: string, p0: nat, encoding: Encoding) returns (kids: seq<Tree>, n: Next)
    requires p0 <= |text|
    ensures ContentAt(text, kids, n) == ParseContent(text[p0..], encoding)
    ensures n.After? ==> p0 <= n.p <= |text|
    decreases |text| - p0, 1
  {
    kids := [];
    var p := SkipWhiteSpace(text, p0, encoding);
    ghost var all := ParseContent(text[p0..], encoding);
    JoinedNone(all);
    SkipAgain(text[p0..], text[p..], encoding);
    while p < |text|
      invariant p0 <= p <= |text| && SkipSpace(text[p..], encoding) == text[p..]
      invariant Joined(kids, ParseContent(text[p..], encoding)) == all
      decreases |text| - p
    {
      if text[p] == '<' && At(text, p + 1) == '/' {
        assert kids + [] == kids;
        return kids, After(p);
      }
      var more, next;
      if text[p] != '<' {
        more, next := TextAt(text, p, encoding);
      } else if NameStart(At(text, p + 1)) {
        var node;
        node, next := ParseElementAt(text, p, encoding);
        more := [node];
      } else {
        return kids, Unknown;
      }
      KidsStep(text, p, kids, more, next, encoding);
      if !next.After? {
        return kids, next;
      }
      kids := kids + more;
      p := SkipWhiteSpace(text, next.p, encoding);
      SkipAgain(text[next.p..], text[p..], encoding);
    }
    n := Fails;
  }

  lemma {:induction false} SkipTwice(s: string, encoding: Encoding)
    ensures SkipSpace(SkipSpace(s, encoding), encoding) == SkipSpace(s, encoding)
    decreases |s|
  {
    if s != "" {
      if encoding.EncodingUtf8? && ZeroWidth(s) {
        SkipTwice(s[3..], encoding);
      } else if IsSpace(s[0]) {
        SkipTwice(s[1..], encoding);
      }
    }
  }

  lemma SkipAgain(s: string, t: string, encoding: Encoding)
    requires t == SkipSpace(s, encoding)
    ensures SkipSpace(t, encoding) == t && ParseContent(t, encoding) == ParseContent(s, encoding)
  {
    SkipTwice(s, encoding);
  }

  /** One text up to the next '<', which stays. A blank one is deleted again. */
  method TextAt(text: string, p: nat, encoding: Encoding) returns (more: seq<Tree>, next: Next)
    requires p < |text| && text[p] != '<' && SkipSpace(text[p..], encoding) == text[p..]
    ensures TextTurn(text, p, more, next, encoding)
    ensures next.After? ==> p < next.p <= |text|
  {
    var value, w := ReadTextTrimming(text, p, "<", encoding);
    more := if Blank(value) then [] else [Text(value)];
    match w
    case Here(q) =>
      OneBack(text, p, value, q, encoding);
      next := After(q - 1);
    case PastEnd =>
      next := Fails;
    case Null =>
      next := Fails;
    case Lost =>
      next := Overruns;
  }

  ghost predicate TextTurn(text: string, p: nat, more: seq<Tree>, next: Next, encoding: Encoding)
    requires p < |text|
  {
    match ReadTrimming(text[p..], "<", encoding)
    case Read(v, rest) =>
      more == (if Blank(v) then [] else [Text(v)]) && next.After? && next.p <= |text| && text[next.p..] == "<" + rest
    case ReadOverrun => next == Overruns
    case _ => next == Fails
  }

  lemma OneBack(text: string, p: nat, value: string, q: nat, encoding: Encoding)
    requires p < |text| && q <= |text| && text[p] != '<'
    requires ReadTrimming(text[p..], "<", encoding) == Read(value, text[q..])
    ensures p + 1 < q && text[q - 1..] == "<" + text[q..]
  {
    ReadStopsAt(text[p..], encoding);
    var s := text[p..];
    assert s[|s| - |text[q..]| - 1] == text[q - 1];
  }

  /** What was read ends right before the rest. */
  lemma {:induction false} CondenseStopsAt(s: string, whitespace: bool, encoding: Encoding)
    ensures var r := Condense(s, whitespace, "<", encoding); r.Read? ==> StopsAt(s, r.rest)
    decreases |s|
  {
    if s != "" && !("<" <= s) {
      if IsSpace(s[0]) {
        CondenseStopsAt(s[1..], true, encoding);
        LaterStops(s, s[1..], Condense(s[1..], true, "<", encoding));
      } else {
        var g := GetChar(s, encoding);
        if g.Got? {
          GotSuffix(s, encoding);
          CondenseStopsAt(g.rest, false, encoding);
          LaterStops(s, g.rest, Condense(g.rest, false, "<", encoding));
        }
      }
    }
  }

  /** The rest is what follows some '<'. */
  predicate StopsAt(s: string, rest: string) {
    |rest| < |s| && s[|s| - |rest|..] == rest && s[|s| - |rest| - 1] == '<'
  }

  lemma LaterStops(s: string, t: string, r: Read)
    requires |t| <= |s| && s[|s| - |t|..] == t && (r.Read? ==> StopsAt(t, r.rest))
    ensures r.Read? ==> StopsAt(s, r.rest)
  {
    if r.Read? {
      assert t[|t| - |r.rest| - 1] == s[|s| - |r.rest| - 1];
    }
  }

  lemma GotSuffix(s: string, encoding: Encoding)
    requires s != "" && GetChar(s, encoding).Got?
    ensures var rest := GetChar(s, encoding).rest; |rest| <= |s| && s[|s| - |rest|..] == rest
  {
    if s[0] == '&' && |s| > 2 && s[1] == '#' {
      if s[2] == 'x' {
        NumericSuffix(s, 3, 'x', 16, encoding);
      } else {
        NumericSuffix(s, 2, '#', 10, encoding);
      }
    } else if s[0] == '&' {
      NamedSuffix(s);
    } else {
      SuffixAt(s, StepLength(s, encoding));
    }
  }

  lemma SuffixAt(s: string, k: nat)
    requires k <= |s|
    ensures s[|s| - |s[k..]|..] == s[k..]
  {
  }

  lemma NamedSuffix(s: string)
    requires s != ""
    ensures var rest := Named(s).rest; |rest| <= |s| && s[|s| - |rest|..] == rest
  {
  }

  lemma NumericSuffix(s: string, from: nat, mark: char, base: nat, encoding: Encoding)
    requires from <= |s|
    ensures var g := Numeric(s, from, mark, base, encoding); g.Got? ==> |g.rest| <= |s| && s[|s| - |g.rest|..] == g.rest
  {
    var i := FirstIndex(s[from..], ';');
    if from + i < |s| {
      assert s[from..][i + 1..] == s[from + i + 1..];
    }
  }

  lemma {:induction false} SkipSuffix(s: string, encoding: Encoding)
    ensures var t := SkipSpace(s, encoding); |t| <= |s| && s[|s| - |t|..] == t
    decreases |s|
  {
    if s != "" {
      if encoding.EncodingUtf8? && ZeroWidth(s) {
        SkipSuffix(s[3..], encoding);
      } else if IsSpace(s[0]) {
        SkipSuffix(s[1..], encoding);
      }
    }
  }

  lemma ReadStopsAt(s: string, encoding: Encoding)
    ensures var r := ReadTrimming(s, "<", encoding); r.Read? ==> StopsAt(s, r.rest)
  {
    SkipSuffix(s, encoding);
    if s != "" {
      CondenseStopsAt(SkipSpace(s, encoding), false, encoding);
      LaterStops(s, SkipSpace(s, encoding), ReadTrimming(s, "<", encoding));
    }
  }

  /** One turn of ReadValue's loop. */
  lemma KidsStep(text: string, p: nat, kids: seq<Tree>, more: seq<Tree>, next: Next, encoding: Encoding)
    requires p < |text| && SkipSpace(text[p..], encoding) == text[p..]
    requires text[p] != '<' ==> TextTurn(text, p, more, next, encoding)
    requires text[p] == '<' ==>
               && NameStart(At(text, p + 1)) && |more| == 1
               && NodeAt(text, more[0], next) == ParseElement(text[p..], encoding)
    ensures next.After? && next.p <= |text| ==>
              Joined(kids, ParseContent(text[p..], encoding))
              == Joined(kids + more, ParseContent(text[next.p..], encoding))
    ensures !next.After? ==> ParseContent(text[p..], encoding) == ContentAt(text, kids, next)
  {
    var s := text[p..];
    assert At(s, 1) == At(text, p + 1);
    if next.After? && next.p <= |text| {
      var c := ParseContent(text[next.p..], encoding);
      if more == [] {
        assert kids + [] == kids;
      } else {
        assert more == [more[0]];
        JoinedOne(kids, more[0], c);
      }
    }
  }
}
