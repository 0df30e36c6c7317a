/** Parsing undoes printing. */
module JsonRoundTrip {
  import opened CStrings
  import opened JsonStrings
  import opened Json

  /** What may come after a number: nothing that parse_number would go on reading. */
  predicate EndsNumber(t: string) {
    t == "" || (!IsDigit(t[0]) && t[0] != '.' && t[0] != 'e' && t[0] != 'E')
  }

  // ----- white space -----

  predicate Blank(w: string) {
    forall i | 0 <= i < |w| :: w[i] as int <= 32
  }

  lemma {:induction false} SkipBlank(w: string, s: string)
    requires Blank(w)
    ensures Skip(w + s) == Skip(s)
  {
    if w == "" {
      assert w + s == s;
    } else {
      assert (w + s)[1..] == w[1..] + s;
      SkipBlank(w[1..], s);
    }
  }

  lemma {:induction false} RepeatTab(n: nat)
    ensures Blank(Repeat("\t", n)) && |Repeat("\t", n)| == n && NulFree(Repeat("\t", n))
  {
    if n > 0 {
      RepeatTab(n - 1);
    }
  }

  lemma TabsBlank(n: int)
    ensures Blank(Tabs(n)) && NulFree(Tabs(n)) && |Tabs(n)| == if n < 0 then 0 else n
  {
    if n > 0 {
      RepeatTab(n);
    }
  }

  // ----- numbers -----

  lemma {:induction false} DecimalStarts(n: nat)
    ensures |Decimal(n)| > 0 && IsDigit(Decimal(n)[0])
    ensures n > 0 ==> Decimal(n)[0] != '0'
  {
    if n >= 10 {
      DecimalStarts(n / 10);
    }
  }

  lemma {:induction false} DigitsDecimal(n: nat, t: string)
    ensures Digits(0, Decimal(n) + t) == Digits(n, t)
  {
    if n < 10 {
      assert ([Digit(n)] + t)[1..] == t;
    } else {
      DigitsDecimal(n / 10, [Digit(n % 10)] + t);
      Associate(Decimal(n / 10), [Digit(n % 10)], t);
      assert ([Digit(n % 10)] + t)[1..] == t;
    }
  }

  lemma ParseSigned(n: int, t: string)
    requires EndsNumber(t)
    ensures ParseNumber(Signed(n) + t) == (n as real, t)
  {
    var m := if n < 0 then -n else n;
    var s1 := Decimal(m) + t;
    DecimalStarts(m);
    DigitsDecimal(m, t);
    if n < 0 {
      PrefixOfConcat("-", s1);
      Associate("-", Decimal(m), t);
    }
    assert s1[0] == Decimal(m)[0];
    if m == 0 {
      assert s1[1..] == t;
    }
  }

  // ----- values -----

  /** A value's text starts with a visible character that closes nothing. */
  lemma PrintStarts(v: Json, depth: nat, fmt: bool)
    requires Printable(v)
    ensures var p := Print(v, depth, fmt);
            |p| > 0 && p[0] as int > 32 && p[0] !in ",:]}"
  {
    if v.Number? {
      DecimalStarts(if v.d.Floor < 0 then -v.d.Floor else v.d.Floor);
    }
  }

  /** Every printable tree is read back from its own text, formatted or not and at any depth,
      and reading stops exactly at its end. */
  lemma {:induction false} ParseUndoesPrint(v: Json, depth: nat, fmt: bool, t: string)
    requires Printable(v)
    requires v.Number? ==> EndsNumber(t)
    ensures ParseValue(Print(v, depth, fmt) + t) == Parsed(v, t)
    decreases v
  {
    var s := Print(v, depth, fmt) + t;
    PrintStarts(v, depth, fmt);
    assert s[0] == Print(v, depth, fmt)[0];
    match v
    case Null =>
    case Bool(b) =>
    case Number(d) =>
      DecimalStarts(if d.Floor < 0 then -d.Floor else d.Floor);
      ParseSigned(d.Floor, t);
    case String(text) =>
      ParseQuote(text, t);
    case Array(items) =>
      if items.NoItems? {
        assert s[1..] == "]" + t;
        assert ("]" + t)[1..] == t;
      } else {
        PrintStarts(items.head, depth + 1, fmt);
        ParseUndoesPrintItems(items, depth + 1, fmt, t);
        ParseFilledArray(PrintItems(items, depth + 1, fmt), t);
      }
    case Object(members) =>
      ParseUndoesPrintObject(members, depth, fmt, t);
  }

  lemma ParseFilledArray(p: string, t: string)
    requires p != "" && p[0] as int > 32 && p[0] != ']'
    ensures ParseValue("[" + p + "]" + t) ==
              match ParseItems(p + ("]" + t)) {
                case ParsedItems(items, rest) => Parsed(Array(items), rest)
                case FailedItems => Failed
                case OutsideItems => Outside
              }
  {
    var s := "[" + p + "]" + t;
    assert s[1..] == p + ("]" + t);
    assert s[1..][0] == p[0];
  }

  lemma {:induction false} ParseUndoesPrintItems(items: Items, depth: nat, fmt: bool, t: string)
    requires items.Item? && PrintableItems(items)
    ensures ParseItems(PrintItems(items, depth, fmt) + ("]" + t)) == ParsedItems(items, t)
    decreases items
  {
    var text, more := Print(items.head, depth, fmt), PrintItems(items.next, depth, fmt);
    var after := When(items.next.Item?, "," + When(fmt, " ")) + (more + ("]" + t));
    ItemsSplit(text, When(items.next.Item?, "," + When(fmt, " ")), more, "]" + t);
    AfterItem(items.next.Item?, When(fmt, " "), more, t);
    PrintStarts(items.head, depth, fmt);
    ParseUndoesPrint(items.head, depth, fmt, after);
    ParseItemText(text, after, items.head);
    if items.next.Item? {
      ParseUndoesPrintItems(items.next, depth, fmt, t);
    }
  }

  /** What follows an element: a comma and more, or the closing bracket. */
  lemma AfterItem(follows: bool, w: string, more: string, t: string)
    requires Blank(w) && (!follows ==> more == "")
    ensures var s := When(follows, "," + w) + (more + ("]" + t));
            && EndsNumber(s) && Skip(s) == s
            && (if follows then s[0] == ',' && ParseItems(s[1..]) == ParseItems(more + ("]" + t))
                else s[0] == ']' && s[1..] == t)
  {
    var s := When(follows, "," + w) + (more + ("]" + t));
    if follows {
      assert s[1..] == w + (more + ("]" + t));
      SkipBlank(w, more + ("]" + t));
    } else {
      assert s == "]" + t;
    }
  }

  lemma ItemsSplit(text: string, comma: string, more: string, end: string)
    ensures (text + comma + more) + end == text + (comma + (more + end))
  {
  }

  /** parse_array's loop body on one value. */
  lemma ParseItemText(text: string, after: string, v: Json)
    requires text != "" && text[0] as int > 32
    requires ParseValue(text + after) == Parsed(v, after)
    ensures var t := Skip(after);
            ParseItems(text + after) ==
              if At(t, 0) == ',' then
                match ParseItems(t[1..]) {
                  case ParsedItems(items, rest) => ParsedItems(Item(v, items), rest)
                  case r => r
                }
              else if At(t, 0) == ']' then ParsedItems(Item(v, NoItems), t[1..])
              else FailedItems
  {
    assert (text + after)[0] == text[0];
  }

  lemma {:induction false} ParseUndoesPrintObject(members: Members, depth: nat, fmt: bool, t: string)
    requires Printable(Object(members))
    ensures ParseValue(Print(Object(members), depth, fmt) + t) == Parsed(Object(members), t)
    decreases members, 1
  {
    if members.NoMembers? {
      var w := When(fmt, "\n" + Tabs(depth - 1));
      TabsBlank(depth - 1);
      ParseEmptyObject(w, t);
    } else {
      var nl, w, ms := When(fmt, "\n"), When(fmt, Tabs(depth)), PrintMembers(members, depth + 1, fmt);
      TabsBlank(depth);
      ParseUndoesPrintMembers(members, depth + 1, fmt, w, t);
      ParseFilledObject(nl, ms, w, t);
    }
  }

  lemma ParseEmptyObject(w: string, t: string)
    requires Blank(w)
    ensures ParseValue("{" + w + "}" + t) == Parsed(Object(NoMembers), t)
  {
    var s := "{" + w + "}" + t;
    assert s[1..] == w + ("}" + t);
    SkipBlank(w, "}" + t);
    assert ("}" + t)[1..] == t;
  }

  lemma ParseFilledObject(nl: string, ms: string, w: string, t: string)
    requires Blank(nl)
    requires ParseMembers(ms + (w + ("}" + t))).ParsedMembers?
    ensures var r := ParseMembers(ms + (w + ("}" + t)));
            ParseValue("{" + nl + ms + w + "}" + t) == Parsed(Object(r.members), r.mrest)
  {
    var inside := ms + (w + ("}" + t));
    ObjectSplit(nl, ms, w, t);
    SkipBlank(nl, inside);
    SkipFirst(inside);
  }

  lemma ObjectSplit(nl: string, ms: string, w: string, t: string)
    ensures ("{" + nl + ms + w + "}" + t)[0] == '{'
    ensures ("{" + nl + ms + w + "}" + t)[1..] == nl + (ms + (w + ("}" + t)))
  {
  }

  /** Members that parse do not start with the closing brace, and skipping first changes nothing. */
  lemma SkipFirst(s: string)
    requires ParseMembers(s).ParsedMembers?
    ensures At(Skip(s), 0) == '\"'
    ensures ParseMembers(Skip(s)) == ParseMembers(s)
  {
    SkipTwice(s);
  }

  lemma {:induction false} SkipTwice(s: string)
    ensures Skip(Skip(s)) == Skip(s)
  {
    if s != "" && s[0] as int <= 32 {
      SkipTwice(s[1..]);
    }
  }

  lemma {:induction false} ParseUndoesPrintMembers(ms: Members, depth: nat, fmt: bool, w: string, t: string)
    requires ms.Member? && PrintableMembers(ms) && Blank(w)
    ensures ParseMembers(PrintMembers(ms, depth, fmt) + (w + ("}" + t))) == ParsedMembers(ms, t)
    decreases ms, 0
  {
    var text, more := Print(ms.value, depth, fmt), PrintMembers(ms.next, depth, fmt);
    var end := w + ("}" + t);
    var afterValue := When(ms.next.Member?, ",") + (When(fmt, "\n") + (more + end));
    AfterValue(ms.next, depth, fmt, w, t);
    ParseUndoesPrint(ms.value, depth, fmt, afterValue);
    MemberSplit(When(fmt, Tabs(depth)), Quote(ms.name), When(fmt, "\t"), text,
                When(ms.next.Member?, ","), When(fmt, "\n"), more, end);
    var s := PrintMembers(ms, depth, fmt) + end;
    assert s == When(fmt, Tabs(depth)) + (Quote(ms.name) + (":" + (When(fmt, "\t") + (text + afterValue))));
    TabsBlank(depth);
    PrintStarts(ms.value, depth, fmt);
    ParseMemberText(When(fmt, Tabs(depth)), ms.name, When(fmt, "\t"), text, afterValue, ms.value);
    if ms.next.Member? {
      ParseUndoesPrintMembers(ms.next, depth, fmt, w, t);
      SkipBlank(When(fmt, "\n"), more + end);
      assert afterValue[1..] == When(fmt, "\n") + (more + end);
      SkipFirst(more + end);
      ParseMembersSkips(When(fmt, "\n") + (more + end));
    }
  }

  lemma ParseMembersSkips(s: string)
    ensures ParseMembers(Skip(s)) == ParseMembers(s)
  {
    SkipTwice(s);
  }

  lemma MemberSplit(tabs: string, quoted: string, tab: string, text: string, comma: string, nl: string, more: string,
                    end: string)
    ensures tabs + (quoted + (":" + (tab + (text + (comma + nl))))) + more + end
         == tabs + (quoted + (":" + (tab + (text + (comma + (nl + (more + end)))))))
  {
    assert (comma + nl) + (more + end) == comma + (nl + (more + end));
    assert text + (comma + nl) + (more + end) == text + ((comma + nl) + (more + end));
    var line := tab + (text + (comma + nl));
    assert line + (more + end) == tab + (text + (comma + nl) + (more + end));
    assert (":" + line) + (more + end) == ":" + (line + (more + end));
    assert (quoted + (":" + line)) + (more + end) == quoted + ((":" + line) + (more + end));
    assert (tabs + (quoted + (":" + line))) + more + end == tabs + ((quoted + (":" + line)) + (more + end));
  }

  /** What follows a member's value: a comma, or the closing brace after white space. */
  lemma AfterValue(next: Members, depth: nat, fmt: bool, w: string, t: string)
    requires PrintableMembers(next) && Blank(w)
    ensures var s := When(next.Member?, ",") + (When(fmt, "\n") + (PrintMembers(next, depth, fmt) + (w + ("}" + t))));
            && EndsNumber(s)
            && (if next.Member? then Skip(s) == s && s[0] == ','
                else Skip(s) == "}" + t && ("}" + t)[1..] == t)
  {
    var s := When(fmt, "\n") + (PrintMembers(next, depth, fmt) + (w + ("}" + t)));
    if next.NoMembers? {
      assert s == When(fmt, "\n") + (w + ("}" + t));
      assert "" + s == s;
      SkipBlank(When(fmt, "\n"), w + ("}" + t));
      SkipBlank(w, "}" + t);
      assert w == "" || (w + ("}" + t))[0] == w[0];
    }
  }

  /** parse_object's loop body on one name and value. */
  lemma ParseMemberText(w1: string, name: string, w2: string, text: string, after: string, v: Json)
    requires Blank(w1) && NulFree(name) && Blank(w2)
    requires text != "" && text[0] as int > 32
    requires ParseValue(text + after) == Parsed(v, after)
    ensures var s := w1 + (Quote(name) + (":" + (w2 + (text + after))));
            var t := Skip(after);
            ParseMembers(s) ==
              if At(t, 0) == ',' then
                match ParseMembers(t[1..]) {
                  case ParsedMembers(ms, rest) => ParsedMembers(Member(name, v, ms), rest)
                  case r => r
                }
              else if At(t, 0) == '}' then ParsedMembers(Member(name, v, NoMembers), t[1..])
              else FailedMembers
  {
    var colon := ":" + (w2 + (text + after));
    SkipBlank(w1, Quote(name) + colon);
    ParseQuote(name, colon);
    assert (Quote(name) + colon)[0] == '\"';
    assert colon[1..] == w2 + (text + after);
    SkipBlank(w2, text + after);
    assert (text + after)[0] == text[0];
  }

  /** cJSON_ParseWithOpts: leading white space, one value, and, when asked, nothing but white space after it. */
  function ParseDocument(s: string, requireEnd: bool): Parsed {
    match ParseValue(Skip(s))
    case Parsed(v, rest) =>
      if requireEnd && Skip(rest) != "" then Failed
      else Parsed(v, if requireEnd then Skip(rest) else rest)
    case r => r
  }

  /** The documents the two print calls produce parse back to the tree, with or without the end check. */
  lemma DocumentRoundTrip(v: Json, fmt: bool, requireEnd: bool)
    requires Printable(v)
    ensures ParseDocument(Print(v, 0, fmt), requireEnd) == Parsed(v, "")
  {
    PrintStarts(v, 0, fmt);
    assert Print(v, 0, fmt) + "" == Print(v, 0, fmt);
    ParseUndoesPrint(v, 0, fmt, "");
  }
}
