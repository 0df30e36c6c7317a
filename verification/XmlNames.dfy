/** Which names, attributes and texts are valid, in characters. */
module XmlNames {
  import opened CStrings
  import opened XmlAttributes
  import opened XmlBytes
  import opened XmlCondense
  import opened XmlRoundTrip
  import opened XmlText
  import opened XmlTree

  predicate IsAscii(s: string) {
    forall i | 0 <= i < |s| :: s[i] as int < 0x7F
  }

  predicate BeginsName(c: char) {
    'a' <= c <= 'z' || 'A' <= c <= 'Z' || c == '_'
  }

  predicate InName(c: char) {
    BeginsName(c) || '0' <= c <= '9' || c in {'-', '.', ':'}
  }

  /** Of the ASCII characters, the letters of either case and the underscore begin a name, and these, digits, '-', '.'
      and ':' go on with it. All bytes beyond are taken for letters. */
  lemma NamesOf(c: char)
    ensures NameStart(c) <==> BeginsName(c) || c as int >= 0x7F
    ensures NameChar(c) <==> InName(c) || c as int >= 0x7F
  {
  }

  predicate IsName(name: string) {
    name != "" && BeginsName(name[0]) && forall i | 0 <= i < |name| :: InName(name[i])
  }

  lemma NameIsAscii(name: string)
    requires IsName(name)
    ensures IsAscii(name)
  {
    forall i | 0 <= i < |name|
      ensures name[i] as int < 0x7F
    {
      assert InName(name[i]);
    }
  }

  /** Such a name is read whole before any other ASCII character. */
  lemma NameReadWhole(name: string, u: string)
    requires IsName(name)
    requires u == "" || (u[0] as int < 0x7F && !InName(u[0]))
    ensures !NoName(name + u) && NameLength(name + u) == |name|
  {
    var s := name + u;
    NameIsAscii(name);
    forall i | 0 <= i < |name|
      ensures NameChar(s[i])
    {
      NamesOf(name[i]);
    }
    NamesOf(name[0]);
    if u != "" {
      NamesOf(u[0]);
      assert s[|name|] == u[0];
    }
    var n := NameLength(s);
    assert n >= |name|;
  }

  lemma {:induction false} AsciiIsClean(s: string, encoding: Encoding)
    requires IsAscii(s)
    ensures Clean(s, encoding)
  {
    if s != "" {
      AsciiIsClean(s[1..], encoding);
    }
  }

  /** No "&#x" anywhere. */
  predicate NoReference(s: string) {
    forall i | 0 <= i < |s| :: s[i] == '&' ==> At(s, i + 1) != '#' || At(s, i + 2) != 'x'
  }

  lemma NoReferenceIsPlain(s: string)
    ensures NoReference(s) <==> Plain(s)
  {
    forall i | 0 <= i < |s|
      ensures IsReference(s[i..]) <==> s[i] == '&' && At(s, i + 1) == '#' && At(s, i + 2) == 'x'
    {
      var w := s[i..];
      assert w[0] == s[i] && (|w| > 1 ==> w[1] == s[i + 1]) && (|w| > 2 ==> w[2] == s[i + 2]);
    }
  }

  /** Names as above, attribute names that differ, ASCII values without "&#x", and no two texts in a row. */
  ghost predicate IsAsciiTree(n: Tree)
    decreases n, 0
  {
    match n
    case Text(v) => IsAscii(v) && NoReference(v)
    case Element(name, attrs, kids) =>
      && IsName(name) && Unique(attrs)
      && (forall i | 0 <= i < |attrs| ::
            IsName(attrs[i].name) && IsAscii(attrs[i].value) && NoReference(attrs[i].value))
      && AreAsciiTrees(kids)
  }

  ghost predicate AreAsciiTrees(ns: seq<Tree>)
    decreases ns, 0
  {
    ns == [] || (IsAsciiTree(ns[0]) && AreAsciiTrees(ns[1..]) && (ns[0].Text? && |ns| > 1 ==> ns[1].Element?))
  }

  lemma ValidNameOf(name: string, encoding: Encoding)
    requires IsName(name)
    ensures ValidName(name, encoding)
  {
    NameIsAscii(name);
    assert name + "" == name;
    NameReadWhole(name, "");
  }

  lemma ValidValueOf(v: string, encoding: Encoding)
    requires IsAscii(v) && NoReference(v)
    ensures ValidValue(v, encoding) && !LosesStart(v, encoding)
  {
    AsciiIsClean(v, encoding);
    NoReferenceIsPlain(v);
    AsciiHasWidth(v);
  }

  lemma {:induction false} AsciiHasWidth(v: string)
    requires IsAscii(v)
    ensures !ZeroWidth(SkipSeps(v, false))
  {
    if v != "" && Sep(v[0], false) {
      AsciiHasWidth(v[1..]);
    }
  }

  /** Every such tree can be printed and read back in both encodings, as far as its texts survive condensing. */
  lemma {:induction false} AsciiTreeIsValid(n: Tree, encoding: Encoding)
    requires IsAsciiTree(n)
    ensures Valid(n, encoding)
    decreases n, 0
  {
    match n
    case Text(v) => ValidValueOf(v, encoding);
    case Element(name, attrs, kids) =>
      ValidNameOf(name, encoding);
      forall i | 0 <= i < |attrs|
        ensures ValidName(attrs[i].name, encoding) && ValidValue(attrs[i].value, encoding)
      {
        ValidNameOf(attrs[i].name, encoding);
        ValidValueOf(attrs[i].value, encoding);
      }
      AsciiTreesAreValid(kids, encoding);
  }

  lemma {:induction false} AsciiTreesAreValid(ns: seq<Tree>, encoding: Encoding)
    requires AreAsciiTrees(ns)
    ensures ValidKids(ns, encoding)
    decreases ns, 0
  {
    if ns != [] {
      AsciiTreeIsValid(ns[0], encoding);
      AsciiTreesAreValid(ns[1..], encoding);
    }
  }
}
