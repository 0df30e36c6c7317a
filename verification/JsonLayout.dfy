/** The layout of cJSON_Print: its text is that of cJSON_PrintUnformatted with white space put in by one pass over the
    characters. */
module JsonLayout {
  import opened CStrings
  import opened JsonStrings
  import opened Json
  import opened JsonLetters
  import opened JsonMinify
  import opened Numerals

  /** One line a member, indented by as many tabs as brackets are open; a tab behind a colon, a space behind a comma
      of an array. `open` are the brackets that are open, the innermost one first. An empty object has a line break
      inside. */
  function Laid(s: string, open: string): string
    decreases |s|
  {
    if s == "" then ""
    else
      var c, d := s[0], |open|;
      if c == '\"' && LiteralRest(s[1..]).Literal? then
        var n := 1 + LiteralRest(s[1..]).len;
        s[..n] + Laid(s[n..], open)
      else if c == '{' && At(s, 1) == '}' then "{\n" + Tabs(d - 1) + "}" + Laid(s[2..], open)
      else if c == '{' then "{\n" + Tabs(d + 1) + Laid(s[1..], "{" + open)
      else if c == '}' && d > 0 then "\n" + Tabs(d - 1) + "}" + Laid(s[1..], open[1..])
      else if c == '[' then "[" + Laid(s[1..], "[" + open)
      else if c == ']' && d > 0 then "]" + Laid(s[1..], open[1..])
      else if c == ',' then (if At(open, 0) == '{' then ",\n" + Tabs(d) else ", ") + Laid(s[1..], open)
      else if c == ':' then ":\t" + Laid(s[1..], open)
      else [c] + Laid(s[1..], open)
  }

  predicate IsPlain(x: string) {
    forall i | 0 <= i < |x| :: x[i] !in {'\"', '{', '}', '[', ']', ',', ':'}
  }

  lemma {:induction false} PlainStays(x: string, t: string, open: string)
    requires IsPlain(x)
    ensures Laid(x + t, open) == x + Laid(t, open)
  {
    if x == "" {
      assert "" + t == t;
    } else {
      assert (x + t)[1..] == x[1..] + t;
      PlainStays(x[1..], t, open);
      assert x == [x[0]] + x[1..];
      ConsAssociate(x[0], x[1..], Laid(t, open));
    }
  }

  lemma {:induction false} DecimalPlain(n: nat)
    ensures IsPlain(Decimal(n))
  {
    if n >= 10 {
      DecimalPlain(n / 10);
    }
  }

  lemma QuoteStays(text: string, t: string, open: string)
    requires NulFree(text)
    ensures Laid(Quote(text) + t, open) == Quote(text) + Laid(t, open)
  {
    var s := Quote(text) + t;
    assert s[1..] == Escape(text) + ("\"" + t);
    LiteralEscape(text, t);
    assert s[..|Quote(text)|] == Quote(text) && s[|Quote(text)|..] == t;
  }

  lemma Opens(c: char, t: string, open: string)
    requires c == '[' || (c == '{' && t != "" && t[0] != '}')
    ensures Laid([c] + t, open) == (if c == '[' then "[" else "{\n" + Tabs(|open| + 1)) + Laid(t, [c] + open)
  {
    assert ([c] + t)[1..] == t;
  }

  lemma Closes(c: char, t: string, open: string)
    requires (c == ']' || c == '}') && open != ""
    ensures Laid([c] + t, open)
         == (if c == ']' then "]" else "\n" + Tabs(|open| - 1) + "}") + Laid(t, open[1..])
  {
    assert ([c] + t)[1..] == t;
  }

  /** The unformatted text of a tree, laid out where |open| brackets are open, is its formatted text at that depth. */
  lemma {:induction false} LaidIsPrinted(v: Json, flat: nat, t: string, open: string)
    requires Printable(v)
    ensures Laid(Print(v, flat, false) + t, open) == Print(v, |open|, true) + Laid(t, open)
    decreases v
  {
    match v
    case Null => PlainStays("null", t, open);
    case Bool(b) => PlainStays(if b then "true" else "false", t, open);
    case Number(d) =>
      DecimalPlain(if d.Floor < 0 then -d.Floor else d.Floor);
      PlainStays(Signed(d.Floor), t, open);
    case String(text) => QuoteStays(text, t, open);
    case Array(items) =>
      var p := PrintItems(items, flat + 1, false);
      assert "[" + p + "]" + t == "[" + (p + ("]" + t));
      Opens('[', p + ("]" + t), open);
      LaidItems(items, flat + 1, "]" + t, "[" + open);
      Closes(']', t, "[" + open);
      assert ("[" + open)[1..] == open;
      ArrayLaid(PrintItems(items, |open| + 1, true), Laid(t, open));
    case Object(members) =>
      if members.NoMembers? {
        EmptyLaid(t, open);
      } else {
        LaidObject(members, flat, t, open);
      }
  }

  lemma ArrayLaid(p: string, t: string)
    ensures "[" + (p + ("]" + t)) == "[" + p + "]" + t
  {
  }

  lemma EmptyLaid(t: string, open: string)
    ensures Laid("{" + "" + "}" + t, open) == ("{" + ("\n" + Tabs(|open| - 1)) + "}") + Laid(t, open)
  {
    EmptyText(t, Tabs(|open| - 1));
    EmptyStep("{}" + t, open);
  }

  lemma EmptyText(t: string, w: string)
    ensures "{" + "" + "}" + t == "{}" + t
    ensures ("{" + ("\n" + w)) + "}" == "{\n" + w + "}"
    ensures ("{}" + t)[2..] == t
  {
    Associate("{", "\n", w);
    assert "{" + "\n" == "{\n";
    assert "{" + "" + "}" == "{}";
  }

  lemma EmptyStep(s: string, open: string)
    requires |s| >= 2 && s[0] == '{' && s[1] == '}'
    ensures Laid(s, open) == "{\n" + Tabs(|open| - 1) + "}" + Laid(s[2..], open)
  {
  }

  lemma {:induction false} LaidItems(items: Items, flat: nat, t: string, open: string)
    requires PrintableItems(items) && At(open, 0) == '['
    ensures Laid(PrintItems(items, flat, false) + t, open) == PrintItems(items, |open|, true) + Laid(t, open)
    decreases items
  {
    if items.NoItems? {
      assert "" + t == t && "" + Laid(t, open) == Laid(t, open);
    } else {
      var p, more := Print(items.head, flat, false), PrintItems(items.next, flat, false);
      var p', more' := Print(items.head, |open|, true), PrintItems(items.next, |open|, true);
      var comma := When(items.next.Item?, ",");
      assert "," + When(false, " ") == "," && "," + When(true, " ") == ", ";
      Associate(p + comma, more, t);
      Associate(p, comma, more + t);
      LaidIsPrinted(items.head, flat, comma + (more + t), open);
      LaidItems(items.next, flat, t, open);
      CommaLaid(items.next.Item?, more + t, open);
      Associate(p' + When(items.next.Item?, ", "), more', Laid(t, open));
      Associate(p', When(items.next.Item?, ", "), more' + Laid(t, open));
    }
  }

  lemma CommaLaid(follows: bool, t: string, open: string)
    requires At(open, 0) == '['
    ensures Laid(When(follows, ",") + t, open) == When(follows, ", ") + Laid(t, open)
  {
    if follows {
      assert ("," + t)[1..] == t;
    } else {
      assert "" + t == t && "" + Laid(t, open) == Laid(t, open);
    }
  }

  lemma {:induction false} LaidObject(members: Members, flat: nat, t: string, open: string)
    requires members.Member? && PrintableMembers(members)
    ensures Laid(Print(Object(members), flat, false) + t, open) == Print(Object(members), |open|, true) + Laid(t, open)
    decreases members, 3
  {
    var p, p' := PrintMembers(members, flat + 1, false), PrintMembers(members, |open| + 1, true);
    var inner := p + ("}" + t);
    MembersStart(members, flat + 1);
    BracedText(p, t);
    Opens('{', inner, open);
    LaidMembers(members, flat + 1, t, "{" + open);
    assert ("{" + open)[1..] == open;
    ObjectLaid(p', Tabs(|open|), Laid(t, open), Tabs(|open| + 1), Laid(inner, "{" + open));
  }

  lemma BracedText(p: string, t: string)
    ensures "{" + "" + p + "" + "}" + t == "{" + (p + ("}" + t))
    ensures p != "" ==> (p + ("}" + t))[0] == p[0]
  {
    assert "{" + "" == "{" && ("{" + p) + "" == "{" + p;
    Associate("{" + p, "}", t);
    Associate("{", p, "}" + t);
  }

  lemma MembersStart(ms: Members, flat: nat)
    requires ms.Member? && PrintableMembers(ms)
    ensures PrintMembers(ms, flat, false) != "" && PrintMembers(ms, flat, false)[0] == '\"'
  {
    assert Quote(ms.name)[0] == '\"';
  }

  lemma ObjectLaid(p: string, w: string, t: string, tabs: string, laid: string)
    requires tabs + laid == p + (w + ("}" + t))
    ensures ("{\n" + tabs) + laid == ("{" + "\n" + p + w + "}") + t
  {
    Associate("{\n", tabs, laid);
    assert "{" + "\n" + p + w + "}" + t == "{\n" + (p + (w + ("}" + t)));
  }

  /** What follows the value of a member. */
  function MembersTail(ms: Members, flat: nat, t: string): string
    requires ms.Member? && PrintableMembers(ms)
  {
    When(ms.next.Member?, ",") + (PrintMembers(ms.next, flat, false) + ("}" + t))
  }

  /** The tabs before a line come from the brace or comma before it. */
  lemma {:induction false} LaidMembers(ms: Members, flat: nat, t: string, open: string)
    requires ms.Member? && PrintableMembers(ms) && At(open, 0) == '{'
    ensures Tabs(|open|) + Laid(PrintMembers(ms, flat, false) + ("}" + t), open)
         == PrintMembers(ms, |open|, true) + (Tabs(|open| - 1) + ("}" + Laid(t, open[1..])))
    decreases ms, 2
  {
    var d, comma := |open|, When(ms.next.Member?, ",") + "\n";
    var end := Tabs(d - 1) + ("}" + Laid(t, open[1..]));
    LaidMember(ms, flat, t, open);
    LaidTail(ms, flat, t, open);
    LineGroups(Tabs(d), Quote(ms.name), Print(ms.value, d, true), comma, PrintMembers(ms.next, d, true), end);
  }

  lemma {:induction false} LaidMember(ms: Members, flat: nat, t: string, open: string)
    requires ms.Member? && PrintableMembers(ms) && At(open, 0) == '{'
    ensures Laid(PrintMembers(ms, flat, false) + ("}" + t), open)
         == Quote(ms.name) + (":\t" + (Print(ms.value, |open|, true) + Laid(MembersTail(ms, flat, t), open)))
    decreases ms, 1
  {
    var p, tail := Print(ms.value, flat, false), MembersTail(ms, flat, t);
    FlatLine(ms.name, p, ms.next.Member?, PrintMembers(ms.next, flat, false), "}" + t);
    QuoteStays(ms.name, ":" + (p + tail), open);
    ColonLaid(p + tail, open);
    LaidIsPrinted(ms.value, flat, tail, open);
  }

  lemma ColonLaid(t: string, open: string)
    ensures Laid(":" + t, open) == ":\t" + Laid(t, open)
  {
    assert (":" + t)[1..] == t;
  }

  lemma {:induction false} LaidTail(ms: Members, flat: nat, t: string, open: string)
    requires ms.Member? && PrintableMembers(ms) && At(open, 0) == '{'
    ensures Laid(MembersTail(ms, flat, t), open)
         == (When(ms.next.Member?, ",") + "\n")
            + (PrintMembers(ms.next, |open|, true) + (Tabs(|open| - 1) + ("}" + Laid(t, open[1..]))))
    decreases ms, 0
  {
    var tail, w := MembersTail(ms, flat, t), Tabs(|open| - 1);
    if ms.next.Member? {
      var more := PrintMembers(ms.next, flat, false) + ("}" + t);
      assert tail[1..] == more;
      LaidMembers(ms.next, flat, t, open);
      Associate(",\n", Tabs(|open|), Laid(more, open));
      assert "," + "\n" == ",\n";
    } else {
      assert tail == "}" + t;
      Closes('}', t, open);
      LastLine(w, Laid(t, open[1..]));
    }
  }

  lemma LastLine(w: string, end: string)
    ensures "\n" + w + "}" + end == ("" + "\n") + ("" + (w + ("}" + end)))
  {
    Associate("\n" + w, "}", end);
    Associate("\n", w, "}" + end);
    assert "" + "\n" == "\n" && "" + (w + ("}" + end)) == w + ("}" + end);
  }

  lemma FlatLine(name: string, p: string, follows: bool, more: string, t: string)
    ensures MemberText(name, p, follows, 0, false) + more + t
         == Quote(name) + (":" + (p + (When(follows, ",") + (more + t))))
    ensures forall k: nat :: MemberText(name, p, follows, k, false) == MemberText(name, p, follows, 0, false)
  {
    var comma := When(follows, ",");
    assert comma + "" == comma && "" + (p + comma) == p + comma;
    var x := Quote(name) + (":" + (p + comma));
    assert "" + x == x;
    Associate(x, more, t);
    Associate(Quote(name), ":" + (p + comma), more + t);
    Associate(":", p + comma, more + t);
    Associate(p, comma, more + t);
  }

  lemma LineGroups(w: string, name: string, p: string, comma: string, more: string, end: string)
    ensures w + (name + (":\t" + (p + (comma + (more + end)))))
         == (w + (name + (":" + ("\t" + (p + comma))))) + more + end
  {
    Associate(":", "\t", p + (comma + (more + end)));
    assert ":" + "\t" == ":\t";
    Associate(p, comma, more + end);
    Associate("\t", p + comma, more + end);
    Associate(":", "\t" + (p + comma), more + end);
    Associate(name, ":" + ("\t" + (p + comma)), more + end);
    Associate(w, name + (":" + ("\t" + (p + comma))), more + end);
    Associate(w + (name + (":" + ("\t" + (p + comma)))), more, end);
  }

  /** Nothing but tabs. */
  lemma {:induction false} TabsAre(n: int)
    ensures Tabs(n) == seq(if n < 0 then 0 else n, _ => '\t')
  {
    if n > 0 {
      TabsAre(n - 1);
      assert Tabs(n) == ['\t'] + Tabs(n - 1);
    }
  }

  /** cJSON_Print is cJSON_PrintUnformatted laid out. */
  lemma FormattedIsLaid(v: Json)
    requires Printable(v)
    ensures Print(v, 0, true) == Laid(Print(v, 0, false), "")
  {
    LaidIsPrinted(v, 0, "", "");
    assert Print(v, 0, false) + "" == Print(v, 0, false) && Print(v, 0, true) + "" == Print(v, 0, true);
  }

  // ----- numbers and escapes -----

  lemma DecimalsSnoc(ds: seq<nat>, d: nat)
    requires d < 10 && forall i | 0 <= i < |ds| :: ds[i] < 10
    ensures (forall i | 0 <= i < |ds + [d]| :: (ds + [d])[i] < 10) && Decimals(ds + [d]) == Decimals(ds) + [Digit(d)]
  {
    DigitIs(d);
    var more := ds + [d];
    assert |Decimals(more)| == |Decimals(ds)| + 1;
    forall i | 0 <= i < |more| ensures Decimals(more)[i] == (Decimals(ds) + [Digit(d)])[i] {
    }
  }

  lemma DigitIs(d: nat)
    requires d < 10
    ensures Digit(d) == "0123456789"[d]
  {
  }

  lemma OneDigit(ds: seq<nat>)
    ensures |ds| == 1 ==> Positional(ds, 10) == ds[0]
  {
    if |ds| == 1 {
      assert Positional(ds[..0], 10) == 0;
    }
  }

  /** Decimal digits, none of them a leading zero, that write the number. */
  lemma {:induction false} DecimalIs(n: nat) returns (ds: seq<nat>)
    ensures ds != [] && (forall i | 0 <= i < |ds| :: ds[i] < 10) && (|ds| > 1 ==> ds[0] != 0)
    ensures Decimal(n) == Decimals(ds) && Positional(ds, 10) == n
  {
    if n < 10 {
      ds := [n];
      PositionalSnoc([], n, 10);
      assert [] + [n] == [n];
      DecimalsSnoc([], n);
    } else {
      var front := DecimalIs(n / 10);
      ds := front + [n % 10];
      PositionalSnoc(front, n % 10, 10);
      assert Positional(front, 10) == n / 10;
      OneDigit(front);
      DecimalsSnoc(front, n % 10);
    }
  }

  /** d is n, and n fits into 32 bits. */
  predicate Is32(d: real, n: int) {
    -0x8000_0000 <= n < 0x8000_0000 && d == n as real
  }

  /** Exactly the integers of 32 bits are printed as such, */
  lemma PrintsExactly(d: real)
    ensures Printable(Number(d)) <==> exists n: int :: Is32(d, n)
  {
    if Printable(Number(d)) {
      assert Is32(d, d.Floor);
    }
  }

  /** as a sign and the digits of their amount. */
  lemma IntegerPrints(n: int, depth: nat, fmt: bool) returns (ds: seq<nat>)
    requires -0x8000_0000 <= n < 0x8000_0000
    ensures ds != [] && (forall i | 0 <= i < |ds| :: ds[i] < 10) && (|ds| > 1 ==> ds[0] != 0)
    ensures Print(Number(n as real), depth, fmt) == (if n < 0 then "-" else "") + Decimals(ds)
    ensures Positional(ds, 10) == if n < 0 then -n else n
  {
    ds := DecimalIs(if n < 0 then -n else n);
    assert (n as real).Floor == n;
    assert "" + Decimals(ds) == Decimals(ds);
  }

  /** How a character is written: as it is if it is printable and no mark, by its letter if it has one, or else by a \u
      with four digits in lower case that write its code. */
  ghost predicate LetterFor(l: Letter, c: char) {
    match l
    case Byte(b) => b == c && c as int >= 32 && c != '\"' && c != '\\'
    case Short(x) => x in {'\"', '\\', 'b', 'f', 'n', 'r', 't'} && ShortFor(x) == c
    case Code(digits, ds) =>
      && |digits| == |ds| == 4 && (forall i | 0 <= i < 4 :: ds[i] < 16 && digits[i] == "0123456789abcdef"[ds[i]])
      && Positional(ds, 16) == c as int < 32 && c as int !in {8, 9, 10, 12, 13}
    case Broken(_) => false
  }

  lemma EscapedAs(c: char) returns (l: Letter)
    requires c != '\0'
    ensures LetterFor(l, c) && Spelling(l) == EscapeChar(c)
  {
    if c as int < 32 && c as int !in {8, 9, 10, 12, 13} {
      var ds := [0, 0, c as int / 16, c as int % 16];
      FourDigits(ds);
      l := Code("00" + [HexDigit(c as int / 16), HexDigit(c as int % 16)], ds);
      HexDigitIs(c as int / 16);
      HexDigitIs(c as int % 16);
      assert "\\u" + ("00" + [HexDigit(c as int / 16), HexDigit(c as int % 16)]) == EscapeChar(c);
    } else if c as int >= 32 && c != '\"' && c != '\\' {
      l := Byte(c);
    } else {
      l := Short(EscapeChar(c)[1]);
    }
  }

  lemma HexDigitIs(d: nat)
    requires d < 16
    ensures HexDigit(d) == "0123456789abcdef"[d]
  {
  }

  /** Every text is escaped letter by letter. */
  lemma {:induction false} EscapedInLetters(s: string) returns (ls: seq<Letter>)
    requires NulFree(s)
    ensures Escape(s) == Written(ls) && |ls| == |s| && forall i | 0 <= i < |s| :: LetterFor(ls[i], s[i])
  {
    if s == "" {
      ls := [];
    } else {
      assert s[0] in s;
      var l := EscapedAs(s[0]);
      var more := EscapedInLetters(s[1..]);
      ls := [l] + more;
      assert ls[1..] == more;
      assert forall i | 0 < i < |s| :: s[i] == s[1..][i - 1] && ls[i] == more[i - 1];
    }
  }
}
