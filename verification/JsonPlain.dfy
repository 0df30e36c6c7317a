/** The allocate-and-join path of print_value: texts of the parts first, then one allocation of the length they
    add up to. Every index below is in bounds because that length suffices. */
module JsonPlain {
  import opened CStrings
  import opened JsonStrings
  import opened Json
  import opened JsonNodes
  import opened JsonBuffer
  import opened JsonPrinter
  import JsonRoundTrip

  method StrDup(text: string, size: nat) returns (out: array<char>)
    requires |text| < size
    ensures fresh(out) && Holds(out, text)
  {
    out := new char[size];
    Put(out, 0, text);
    assert out[0..|text|] == out[..|text|];
    out[|text|] := '\0';
  }

  /** print_value without a buffer, over the nodes. */
  method PrintPlain(item: Item, depth: nat, fmt: bool) returns (out: array<char>)
    requires item.Represents() && Printable(item.value)
    ensures fresh(out) && Holds(out, Print(item.value, depth, fmt))
    decreases item.value, 3
  {
    match item.kind {
      case KNull => out := StrDup("null", 5);
      case KFalse => out := StrDup("false", 6);
      case KTrue => out := StrDup("true", 5);
      case KNumber => out := PrintNumberPlain(item.valuedouble);
      case KString => out := PrintStringPlain(item.valuestring);
      case KArray => out := PrintArrayPlain(item, depth, fmt);
      case KObject => out := PrintObjectPlain(item, depth, fmt);
    }
  }

  method PrintNumberPlain(d: real) returns (out: array<char>)
    requires IsInt(d)
    ensures fresh(out) && Holds(out, Signed(d.Floor))
  {
    SignedLength(d);
    if d == 0.0 {
      out := StrDup("0", 2);
    } else {
      out := StrDup(Signed(d.Floor), 21);
    }
  }

  method PrintStringPlain(text: string) returns (out: array<char>)
    requires NulFree(text)
    ensures fresh(out) && Holds(out, Quote(text))
  {
    var flag, len := QuoteSize(text);
    out := new char[len + 3];
    QuoteInto(out, "", 0, text, flag);
    assert "" + Quote(text) == Quote(text);
  }

  // ----- arrays -----

  function ItemTexts(items: Items, depth: nat, fmt: bool): seq<string>
    requires PrintableItems(items)
  {
    if items.NoItems? then [] else [Print(items.head, depth, fmt)] + ItemTexts(items.next, depth, fmt)
  }

  function Joined(texts: seq<string>, fmt: bool): string {
    if texts == [] then "" else texts[0] + When(|texts| > 1, "," + When(fmt, " ")) + Joined(texts[1..], fmt)
  }

  lemma {:induction false} JoinedItems(items: Items, depth: nat, fmt: bool)
    requires PrintableItems(items)
    ensures Joined(ItemTexts(items, depth, fmt), fmt) == PrintItems(items, depth, fmt)
  {
    if items.Item? {
      JoinedItems(items.next, depth, fmt);
      assert ItemTexts(items, depth, fmt)[1..] == ItemTexts(items.next, depth, fmt);
    }
  }

  /** What print_array adds to `len` for the texts. */
  function Room(texts: seq<string>, fmt: bool): nat {
    if texts == [] then 0 else |texts[0]| + 2 + (if fmt then 1 else 0) + Room(texts[1..], fmt)
  }

  lemma {:induction false} JoinedFits(texts: seq<string>, fmt: bool)
    ensures |Joined(texts, fmt)| <= Room(texts, fmt)
  {
    if texts != [] {
      JoinedFits(texts[1..], fmt);
    }
  }

  lemma {:induction false} RoomSnoc(a: seq<string>, text: string, fmt: bool)
    ensures Room(a + [text], fmt) == Room(a, fmt) + |text| + 2 + (if fmt then 1 else 0)
  {
    if a != [] {
      assert (a + [text])[1..] == a[1..] + [text];
      RoomSnoc(a[1..], text, fmt);
    }
  }

  ghost predicate AllHold(entries: seq<array<char>>, texts: seq<string>)
    reads entries
  {
    |entries| == |texts| && forall k | 0 <= k < |entries| :: Holds(entries[k], texts[k])
  }

  method PrintArrayPlain(item: Item, depth: nat, fmt: bool) returns (out: array<char>)
    requires item.Represents() && item.kind == KArray && Printable(item.value)
    ensures fresh(out) && Holds(out, Print(item.value, depth, fmt))
    decreases item.value, 2
  {
    if item.child == null {
      out := StrDup("[]", 3);
      return;
    }
    ghost var items := item.value.items;
    ghost var texts := ItemTexts(items, depth + 1, fmt);
    var entries, len := CollectItems(item.child, depth + 1, fmt, items, item.under);
    JoinedItems(items, depth + 1, fmt);
    JoinedFits(texts, fmt);
    AllNulFree(items, depth + 1, fmt);
    out := new char[len];
    ComposeArray(out, entries, texts, fmt);
  }

  method ComposeArray(out: array<char>, entries: seq<array<char>>, ghost texts: seq<string>, fmt: bool)
    requires AllHold(entries, texts) && out !in entries
    requires forall k | 0 <= k < |texts| :: NulFree(texts[k])
    requires out.Length >= 5 + |Joined(texts, fmt)|
    modifies out
    ensures Holds(out, "[" + Joined(texts, fmt) + "]")
  {
    out[0] := '[';
    assert out[..1] == "[";
    var ptr, i := 1, 0;
    ghost var now, all := "[", "[" + Joined(texts, fmt);
    while i < |entries|
      invariant 0 <= i <= |entries| && AllHold(entries, texts)
      invariant ptr == |now| < out.Length && out[..ptr] == now
      invariant now + Joined(texts[i..], fmt) == all
    {
      NextText(now, texts, i, fmt);
      ptr := ComposeItem(out, now, ptr, entries[i], texts[i], i != |entries| - 1, fmt);
      now := now + texts[i] + When(i != |entries| - 1, "," + When(fmt, " "));
      i := i + 1;
    }
    PutAfter(out, now, ptr, "]");
    out[ptr + 1] := '\0';
    assert out[..ptr + 1] == now + "]";
  }

  lemma NextText(now: string, texts: seq<string>, i: nat, fmt: bool)
    requires i < |texts|
    ensures var item := texts[i] + When(i != |texts| - 1, "," + When(fmt, " "));
            && now + Joined(texts[i..], fmt) == (now + texts[i] + When(i != |texts| - 1, "," + When(fmt, " ")))
                                                + Joined(texts[i + 1..], fmt)
            && |Joined(texts[i..], fmt)| == |item| + |Joined(texts[i + 1..], fmt)|
  {
    var comma := When(i != |texts| - 1, "," + When(fmt, " "));
    assert texts[i..][1..] == texts[i + 1..];
    Associate(now, texts[i], comma);
    Associate(now, texts[i] + comma, Joined(texts[i + 1..], fmt));
  }

  /** One turn of the composing loop of print_array. */
  method ComposeItem(out: array<char>, ghost s: string, at: nat, entry: array<char>, ghost text: string, more: bool,
                     fmt: bool) returns (ptr: nat)
    requires Holds(entry, text) && NulFree(text) && out != entry
    requires at == |s| && at + |text + When(more, "," + When(fmt, " "))| <= out.Length && out[..at] == s
    modifies out
    ensures ptr == |s + text + When(more, "," + When(fmt, " "))|
    ensures out[..ptr] == s + text + When(more, "," + When(fmt, " "))
  {
    var comma := When(more, "," + When(fmt, " "));
    ptr := PutCopy(out, s, at, entry, text);
    PutAfter(out, s + text, ptr, comma);
    ptr := ptr + |comma|;
  }

  lemma {:induction false} AllNulFree(items: Items, depth: nat, fmt: bool)
    requires PrintableItems(items)
    ensures forall k | 0 <= k < |ItemTexts(items, depth, fmt)| :: NulFree(ItemTexts(items, depth, fmt)[k])
  {
    if items.Item? {
      PrintNulFree(items.head, depth, fmt);
      AllNulFree(items.next, depth, fmt);
    }
  }

  method PrintAndMeasure(item: Item, depth: nat, fmt: bool) returns (ret: array<char>, n: nat)
    requires item.Represents() && Printable(item.value)
    ensures fresh(ret) && Holds(ret, Print(item.value, depth, fmt)) && n == |Print(item.value, depth, fmt)|
    decreases item.value, 4
  {
    ret := PrintPlain(item, depth, fmt);
    PrintNulFree(item.value, depth, fmt);
    n := StrLen(ret, 0, Print(item.value, depth, fmt));
  }

  lemma MoreTexts(texts: seq<string>, rest: Items, depth: nat, fmt: bool)
    requires rest.Item? && PrintableItems(rest)
    ensures var text := Print(rest.head, depth, fmt);
            && texts + [text] + ItemTexts(rest.next, depth, fmt) == texts + ItemTexts(rest, depth, fmt)
            && Room(texts + [text], fmt) == Room(texts, fmt) + |text| + 2 + (if fmt then 1 else 0)
  {
    var text := Print(rest.head, depth, fmt);
    RoomSnoc(texts, text, fmt);
    SnocAssociate(texts, text, ItemTexts(rest.next, depth, fmt));
  }

  lemma EntriesSnoc(entries: seq<array<char>>, texts: seq<string>, ret: array<char>, text: string)
    requires AllHold(entries, texts) && Holds(ret, text)
    ensures AllHold(entries + [ret], texts + [text])
  {
  }

  /** The first loop: print every element of the chain and add up the lengths. */
  method CollectItems(first: Item?, depth: nat, fmt: bool, ghost items: Items, ghost nodes: set<Item>)
    returns (entries: seq<array<char>>, len: nat)
    requires ItemChain(first, null, items, nodes) && PrintableItems(items)
    ensures AllHold(entries, ItemTexts(items, depth, fmt))
    ensures len == 5 + Room(ItemTexts(items, depth, fmt), fmt)
    decreases items, 1
  {
    entries, len := [], 5;
    var child := first;
    ghost var all := ItemTexts(items, depth, fmt);
    ghost var texts: seq<string>, prev, rest, left := [], null, items, nodes;
    while child != null
      invariant ItemChain(child, prev, rest, left) && PrintableItems(rest) && (items nonincreases to rest)
      invariant texts + ItemTexts(rest, depth, fmt) == all
      invariant AllHold(entries, texts)
      invariant len == 5 + Room(texts, fmt)
      decreases rest
    {
      ghost var text := Print(child.value, depth, fmt);
      var ret, n := PrintAndMeasure(child, depth, fmt);
      EntriesSnoc(entries, texts, ret, text);
      entries := entries + [ret];
      len := len + n + 2 + (if fmt then 1 else 0);
      MoreTexts(texts, rest, depth, fmt);
      texts := texts + [text];
      prev, rest, left := child, rest.next, left - {child} - child.under;
      child := child.next;
    }
    assert texts + [] == texts;
  }

  // ----- objects -----

  /** A member's quoted name and the text of its value. */
  datatype Line = Line(name: string, text: string)

  function MemberLines(ms: Members, depth: nat, fmt: bool): seq<Line>
    requires PrintableMembers(ms)
  {
    if ms.NoMembers? then [] else [Line(ms.name, Print(ms.value, depth, fmt))] + MemberLines(ms.next, depth, fmt)
  }

  function JoinedLines(lines: seq<Line>, depth: nat, fmt: bool): string {
    if lines == [] then ""
    else MemberText(lines[0].name, lines[0].text, |lines| > 1, depth, fmt) + JoinedLines(lines[1..], depth, fmt)
  }

  lemma {:induction false} JoinedMembers(ms: Members, depth: nat, fmt: bool)
    requires PrintableMembers(ms)
    ensures JoinedLines(MemberLines(ms, depth, fmt), depth, fmt) == PrintMembers(ms, depth, fmt)
  {
    if ms.Member? {
      JoinedMembers(ms.next, depth, fmt);
      assert MemberLines(ms, depth, fmt)[1..] == MemberLines(ms.next, depth, fmt);
    }
  }

  /** What print_object adds to `len` for the lines. */
  function LineRoom(lines: seq<Line>, depth: nat, fmt: bool): nat {
    if lines == [] then 0
    else |lines[0].text| + |Quote(lines[0].name)| + 2 + (if fmt then 2 + depth else 0)
         + LineRoom(lines[1..], depth, fmt)
  }

  lemma {:induction false} JoinedLinesFit(lines: seq<Line>, depth: nat, fmt: bool)
    ensures |JoinedLines(lines, depth, fmt)| <= LineRoom(lines, depth, fmt)
  {
    if lines != [] {
      JsonRoundTrip.TabsBlank(depth);
      JoinedLinesFit(lines[1..], depth, fmt);
    }
  }

  lemma {:induction false} LineRoomSnoc(a: seq<Line>, line: Line, depth: nat, fmt: bool)
    ensures LineRoom(a + [line], depth, fmt)
         == LineRoom(a, depth, fmt) + |line.text| + |Quote(line.name)| + 2 + (if fmt then 2 + depth else 0)
  {
    if a != [] {
      assert (a + [line])[1..] == a[1..] + [line];
      LineRoomSnoc(a[1..], line, depth, fmt);
    }
  }

  ghost predicate LinesHold(names: seq<array<char>>, entries: seq<array<char>>, lines: seq<Line>)
    reads names, entries
  {
    |names| == |entries| == |lines| && forall k | 0 <= k < |lines| :: LineHolds(names[k], entries[k], lines[k])
  }

  ghost predicate LineHolds(name: array<char>, entry: array<char>, line: Line)
    reads name, entry
  {
    && Holds(name, Quote(line.name)) && NulFree(Quote(line.name))
    && Holds(entry, line.text) && NulFree(line.text)
  }

  method PrintObjectPlain(item: Item, outer: nat, fmt: bool) returns (out: array<char>)
    requires item.Represents() && item.kind == KObject && Printable(item.value)
    ensures fresh(out) && Holds(out, Print(item.value, outer, fmt))
    decreases item.value, 2
  {
    if item.child == null {
      JsonRoundTrip.TabsBlank(outer - 1);
      out := StrDup("{" + When(fmt, "\n" + Tabs(outer - 1)) + "}", if fmt then outer + 4 else 3);
      return;
    }
    out := PrintFilledPlain(item, outer, fmt);
  }

  method PrintFilledPlain(item: Item, outer: nat, fmt: bool) returns (out: array<char>)
    requires item.Represents() && item.kind == KObject && item.child != null && Printable(item.value)
    ensures fresh(out) && Holds(out, Print(item.value, outer, fmt))
    decreases item.value, 1
  {
    var depth := outer + 1;
    ghost var members := item.value.members;
    ghost var lines := MemberLines(members, depth, fmt);
    ObjectText(members, outer, fmt);
    var names, entries, len := CollectMembers(item.child, depth, fmt, members, item.under);
    JoinedLinesFit(lines, depth, fmt);
    out := new char[len];
    ComposeObject(out, names, entries, lines, depth, fmt);
  }

  lemma ObjectText(members: Members, outer: nat, fmt: bool)
    requires members.Member? && PrintableMembers(members)
    ensures Print(Object(members), outer, fmt)
         == "{" + When(fmt, "\n") + JoinedLines(MemberLines(members, outer + 1, fmt), outer + 1, fmt)
           + When(fmt, Tabs(outer)) + "}"
  {
    JoinedMembers(members, outer + 1, fmt);
  }

  method ComposeObject(out: array<char>, names: seq<array<char>>, entries: seq<array<char>>, ghost lines: seq<Line>,
                       depth: nat, fmt: bool)
    requires LinesHold(names, entries, lines) && out !in names && out !in entries && depth > 0
    requires out.Length >= 7 + (if fmt then depth else 0) + |JoinedLines(lines, depth, fmt)|
    modifies out
    ensures Holds(out, "{" + When(fmt, "\n") + JoinedLines(lines, depth, fmt) + When(fmt, Tabs(depth - 1)) + "}")
  {
    ghost var start, body := "{" + When(fmt, "\n"), JoinedLines(lines, depth, fmt);
    var close := When(fmt, Tabs(depth - 1)) + "}";
    JsonRoundTrip.TabsBlank(depth - 1);
    out[0] := '{';
    assert out[..1] == "{";
    PutAfter(out, "{", 1, When(fmt, "\n"));
    var ptr := ComposeLines(out, start, if fmt then 2 else 1, names, entries, lines, depth, fmt);
    PutAfter(out, start + body, ptr, close);
    ptr := ptr + |close|;
    ghost var all := start + body + close;
    out[ptr] := '\0';
    assert out[..ptr] == all;
    ObjectAssoc(When(fmt, "\n"), body, When(fmt, Tabs(depth - 1)));
  }

  lemma ObjectAssoc(nl: string, body: string, w: string)
    ensures ("{" + nl) + body + (w + "}") == "{" + nl + body + w + "}"
  {
  }

  lemma NextLine(now: string, lines: seq<Line>, i: nat, depth: nat, fmt: bool)
    requires i < |lines|
    ensures var line := MemberText(lines[i].name, lines[i].text, i + 1 < |lines|, depth, fmt);
            && now + JoinedLines(lines[i..], depth, fmt) == (now + line) + JoinedLines(lines[i + 1..], depth, fmt)
            && |JoinedLines(lines[i..], depth, fmt)| == |line| + |JoinedLines(lines[i + 1..], depth, fmt)|
  {
    var line := MemberText(lines[i].name, lines[i].text, i + 1 < |lines|, depth, fmt);
    assert lines[i..][1..] == lines[i + 1..];
    Associate(now, line, JoinedLines(lines[i + 1..], depth, fmt));
  }

  /** The composing loop of print_object. */
  method ComposeLines(out: array<char>, ghost start: string, at: nat, names: seq<array<char>>,
                      entries: seq<array<char>>, ghost lines: seq<Line>, depth: nat, fmt: bool) returns (ptr: nat)
    requires LinesHold(names, entries, lines) && out !in names && out !in entries
    requires at == |start| && at + |JoinedLines(lines, depth, fmt)| <= out.Length && out[..at] == start
    modifies out
    ensures ptr == |start + JoinedLines(lines, depth, fmt)| <= out.Length
    ensures out[..ptr] == start + JoinedLines(lines, depth, fmt)
  {
    ptr := at;
    var i := 0;
    ghost var now, all := start, start + JoinedLines(lines, depth, fmt);
    while i < |names|
      invariant 0 <= i <= |names| && LinesHold(names, entries, lines)
      invariant ptr == |now| <= out.Length && out[..ptr] == now
      invariant now + JoinedLines(lines[i..], depth, fmt) == all
    {
      ghost var line := MemberText(lines[i].name, lines[i].text, i + 1 < |lines|, depth, fmt);
      NextLine(now, lines, i, depth, fmt);
      assert LineHolds(names[i], entries[i], lines[i]);
      ptr := ComposeLine(out, now, ptr, names[i], entries[i], lines[i], i + 1 < |names|, depth, fmt);
      now := now + line;
      i := i + 1;
    }
  }

  /** One turn of it. */
  method ComposeLine(out: array<char>, ghost s: string, at: nat, name: array<char>, entry: array<char>,
                     ghost line: Line, more: bool, depth: nat, fmt: bool) returns (ptr: nat)
    requires LineHolds(name, entry, line)
    requires out != name && out != entry
    requires at == |s| && at + |MemberText(line.name, line.text, more, depth, fmt)| <= out.Length && out[..at] == s
    modifies out
    ensures ptr == |s + MemberText(line.name, line.text, more, depth, fmt)|
    ensures out[..ptr] == s + MemberText(line.name, line.text, more, depth, fmt)
  {
    var w, tab, end := When(fmt, Tabs(depth)), ":" + When(fmt, "\t"), When(more, ",") + When(fmt, "\n");
    LineAssoc(s, w, Quote(line.name), When(fmt, "\t"), line.text, end);
    PutAfter(out, s, at, w);
    ptr := PutCopy(out, s + w, at + |w|, name, Quote(line.name));
    PutAfter(out, s + w + Quote(line.name), ptr, tab);
    ptr := PutCopy(out, s + w + Quote(line.name) + tab, ptr + |tab|, entry, line.text);
    PutAfter(out, s + w + Quote(line.name) + tab + line.text, ptr, end);
    ptr := ptr + |end|;
  }

  /** strlen, then memcpy. */
  method PutCopy(out: array<char>, ghost s: string, at: nat, from: array<char>, ghost text: string) returns (ptr: nat)
    requires Holds(from, text) && NulFree(text) && out != from
    requires at == |s| && at + |text| <= out.Length && out[..at] == s
    modifies out
    ensures ptr == |s + text| && out[..ptr] == s + text
  {
    var n := StrLen(from, 0, text);
    PutAfter(out, s, at, from[..n]);
    ptr := at + n;
  }

  lemma LineAssoc(s: string, w: string, name: string, tab: string, text: string, end: string)
    ensures s + w + name + (":" + tab) + text + end == s + (w + (name + (":" + (tab + (text + end)))))
    ensures |s + (w + (name + (":" + (tab + (text + end)))))| == |s| + |w| + |name| + |":" + tab| + |text| + |end|
  {
    var right := w + (name + (":" + (tab + (text + end))));
    assert w + name + (":" + tab) + text + end == right;
  }

  method PrintMemberParts(child: Item, depth: nat, fmt: bool) returns (str: array<char>, ret: array<char>, n: nat)
    requires child.Represents() && NulFree(child.name) && Printable(child.value)
    ensures LineHolds(str, ret, Line(child.name, Print(child.value, depth, fmt)))
    ensures n == |Print(child.value, depth, fmt)| + |Quote(child.name)|
    decreases child.value, 5
  {
    EscapeNulFree(child.name);
    PrintNulFree(child.value, depth, fmt);
    str := PrintStringPlain(child.name);
    ret, n := PrintAndMeasure(child, depth, fmt);
    var m := StrLen(str, 0, Quote(child.name));
    n := n + m;
  }

  lemma LinesSnoc(names: seq<array<char>>, entries: seq<array<char>>, lines: seq<Line>,
                  str: array<char>, ret: array<char>, line: Line)
    requires LinesHold(names, entries, lines) && LineHolds(str, ret, line)
    ensures LinesHold(names + [str], entries + [ret], lines + [line])
  {
  }

  lemma MoreLines(lines: seq<Line>, rest: Members, depth: nat, fmt: bool)
    requires rest.Member? && PrintableMembers(rest)
    ensures var line := Line(rest.name, Print(rest.value, depth, fmt));
            && lines + [line] + MemberLines(rest.next, depth, fmt) == lines + MemberLines(rest, depth, fmt)
            && LineRoom(lines + [line], depth, fmt)
               == LineRoom(lines, depth, fmt) + |line.text| + |Quote(line.name)| + 2 + (if fmt then 2 + depth else 0)
  {
    var line := Line(rest.name, Print(rest.value, depth, fmt));
    LineRoomSnoc(lines, line, depth, fmt);
    SnocAssociate(lines, line, MemberLines(rest.next, depth, fmt));
  }

  /** The first loop of print_object. */
  method CollectMembers(first: Item?, depth: nat, fmt: bool, ghost members: Members, ghost nodes: set<Item>)
    returns (names: seq<array<char>>, entries: seq<array<char>>, len: nat)
    requires MemberChain(first, null, members, nodes) && PrintableMembers(members)
    ensures LinesHold(names, entries, MemberLines(members, depth, fmt))
    ensures len == 7 + (if fmt then depth else 0) + LineRoom(MemberLines(members, depth, fmt), depth, fmt)
    decreases members, 1
  {
    names, entries, len := [], [], 7 + (if fmt then depth else 0);
    var child := first;
    ghost var lines: seq<Line>, prev, rest, left := [], null, members, nodes;
    while child != null
      invariant MemberChain(child, prev, rest, left) && PrintableMembers(rest) && (members nonincreases to rest)
      invariant lines + MemberLines(rest, depth, fmt) == MemberLines(members, depth, fmt)
      invariant LinesHold(names, entries, lines)
      invariant len == 7 + (if fmt then depth else 0) + LineRoom(lines, depth, fmt)
      decreases rest
    {
      ghost var line := Line(child.name, Print(child.value, depth, fmt));
      var str, ret, n := PrintMemberParts(child, depth, fmt);
      LinesSnoc(names, entries, lines, str, ret, line);
      names, entries := names + [str], entries + [ret];
      len := len + n + 2 + (if fmt then 2 + depth else 0);
      MoreLines(lines, rest, depth, fmt);
      lines := lines + [line];
      prev, rest, left := child, rest.next, left - {child} - child.under;
      child := child.next;
    }
    assert lines + [] == lines;
  }

  // ----- the three calls -----

  /** cJSON_Print and cJSON_PrintUnformatted. */
  method PrintDocument(item: Item, fmt: bool) returns (out: array<char>)
    requires item.Represents() && Printable(item.value)
    ensures fresh(out) && Holds(out, Print(item.value, 0, fmt))
  {
    out := PrintPlain(item, 0, fmt);
  }

  /** cJSON_PrintBuffered: whatever size it starts from, the same text as the other path. */
  method PrintDocumentBuffered(item: Item, prebuffer: nat, fmt: bool) returns (out: array<char>)
    requires item.Represents() && Printable(item.value) && |Print(item.value, 0, fmt)| + SLACK <= LIMIT
    ensures fresh(out) && Holds(out, Print(item.value, 0, fmt))
  {
    var p := new PrintBuffer(prebuffer);
    PrintBuffered(p, item, 0, fmt, "");
    out := p.buffer;
    assert "" + Print(item.value, 0, fmt) == Print(item.value, 0, fmt);
  }
}
