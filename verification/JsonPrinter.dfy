/** print_value's two paths, buffered and allocate-and-join, against the one text they must produce. */
module JsonPrinter {
  import opened CStrings
  import opened JsonStrings
  import opened Json
  import opened JsonNodes
  import opened JsonBuffer
  import JsonRoundTrip

  lemma {:induction false} DecimalNulFree(n: nat)
    ensures NulFree(Decimal(n))
  {
    if n >= 10 {
      DecimalNulFree(n / 10);
    }
  }

  /** Printed text holds no NUL, so strlen finds its end. */
  lemma {:induction false} PrintNulFree(v: Json, depth: nat, fmt: bool)
    requires Printable(v)
    ensures NulFree(Print(v, depth, fmt))
  {
    match v
    case Number(d) => DecimalNulFree(if d.Floor < 0 then -d.Floor else d.Floor);
    case String(text) => EscapeNulFree(text);
    case Array(items) =>
      PrintItemsNulFree(items, depth + 1, fmt);
      Bracketed("[", PrintItems(items, depth + 1, fmt), "]");
    case Object(members) =>
      PrintMembersNulFree(members, depth + 1, fmt);
      ObjectNulFree(members, depth, fmt);
    case _ =>
  }

  lemma ObjectNulFree(members: Members, depth: nat, fmt: bool)
    requires PrintableMembers(members) && NulFree(PrintMembers(members, depth + 1, fmt))
    ensures NulFree(Print(Object(members), depth, fmt))
  {
    if members.NoMembers? {
      TabsNulFree("\n", depth - 1);
      Bracketed("{", When(fmt, "\n" + Tabs(depth - 1)), "}");
    } else {
      TabsNulFree("", depth);
      assert "" + Tabs(depth) == Tabs(depth);
      Framed("{", When(fmt, "\n"), PrintMembers(members, depth + 1, fmt), When(fmt, Tabs(depth)), "}");
    }
  }

  lemma TabsNulFree(before: string, depth: int)
    requires NulFree(before)
    ensures NulFree(before + Tabs(depth))
  {
    JsonRoundTrip.TabsBlank(depth);
  }

  lemma Bracketed(open: string, a: string, close: string)
    requires NulFree(open) && NulFree(a) && NulFree(close)
    ensures NulFree(open + a + close)
  {
  }

  lemma Framed(open: string, a: string, b: string, c: string, close: string)
    requires NulFree(open) && NulFree(a) && NulFree(b) && NulFree(c) && NulFree(close)
    ensures NulFree(open + a + b + c + close)
  {
  }

  lemma {:induction false} PrintItemsNulFree(items: Items, depth: nat, fmt: bool)
    requires PrintableItems(items)
    ensures NulFree(PrintItems(items, depth, fmt))
  {
    if items.Item? {
      PrintNulFree(items.head, depth, fmt);
      PrintItemsNulFree(items.next, depth, fmt);
    }
  }

  lemma {:induction false} PrintMembersNulFree(ms: Members, depth: nat, fmt: bool)
    requires PrintableMembers(ms)
    ensures NulFree(PrintMembers(ms, depth, fmt))
  {
    if ms.Member? {
      JsonRoundTrip.TabsBlank(depth);
      EscapeNulFree(ms.name);
      PrintNulFree(ms.value, depth, fmt);
      PrintMembersNulFree(ms.next, depth, fmt);
    }
  }

  // ----- the buffered path -----

  /** Bytes `ensure` may ask for beyond the text itself. */
  const SLACK: nat := 22

  /** print_value with a buffer, over the nodes: what was in the buffer stays, the text of the value the nodes represent
      follows it, terminated, and the offset is left somewhere up to its end for `update` to move. */
  method PrintBuffered(p: PrintBuffer, item: Item, depth: nat, fmt: bool, ghost s: string)
    requires item.Represents() && Printable(item.value) && NulFree(s) && p.At(s)
    requires |s| + |Print(item.value, depth, fmt)| + SLACK <= LIMIT
    modifies p, p.buffer
    ensures p.Pending(s, s + Print(item.value, depth, fmt))
    ensures p.buffer == old(p.buffer) || fresh(p.buffer)
    decreases item.value, 3
  {
    match item.kind {
      case KNull => p.AppendPending(s, 5, "null");
      case KFalse => p.AppendPending(s, 6, "false");
      case KTrue => p.AppendPending(s, 5, "true");
      case KNumber => PrintNumberBuffered(p, item.valuedouble, s);
      case KString => PrintStringBuffered(p, item.valuestring, s);
      case KArray => PrintArrayBuffered(p, item, depth, fmt, s);
      case KObject => PrintObjectBuffered(p, item, depth, fmt, s);
    }
  }

  method PrintNumberBuffered(p: PrintBuffer, d: real, ghost s: string)
    requires IsInt(d) && p.At(s) && |s| + SLACK <= LIMIT
    modifies p, p.buffer
    ensures p.Pending(s, s + Signed(d.Floor))
    ensures p.buffer == old(p.buffer) || fresh(p.buffer)
  {
    if d == 0.0 {
      p.AppendPending(s, 2, "0");
    } else {
      SignedLength(d);
      p.AppendPending(s, 21, Signed(d.Floor));
    }
  }

  method PrintStringBuffered(p: PrintBuffer, text: string, ghost s: string)
    requires NulFree(text) && p.At(s) && |s| + |Quote(text)| + SLACK <= LIMIT
    modifies p, p.buffer
    ensures p.Pending(s, s + Quote(text))
    ensures p.buffer == old(p.buffer) || fresh(p.buffer)
  {
    var flag, len := QuoteSize(text);
    p.Ensure(len + 3);
    assert p.buffer[..p.offset] == s;
    QuoteInto(p.buffer, s, p.offset, text, flag);
  }

  method PrintArrayBuffered(p: PrintBuffer, item: Item, depth: nat, fmt: bool, ghost s: string)
    requires item.Represents() && item.kind == KArray && Printable(item.value) && NulFree(s) && p.At(s)
    requires |s| + |Print(item.value, depth, fmt)| + SLACK <= LIMIT
    modifies p, p.buffer
    ensures p.Pending(s, s + Print(item.value, depth, fmt))
    ensures p.buffer == old(p.buffer) || fresh(p.buffer)
    decreases item.value, 2
  {
    if item.child == null {
      p.AppendPending(s, 3, "[]");
      return;
    }
    ghost var items := item.value.items;
    ghost var entries := PrintItems(items, depth + 1, fmt);
    ArrayTexts(s, entries);
    p.Append(s, 1, "[");
    PrintItemsBuffered(p, item.child, depth + 1, fmt, s + "[", items, item.under);
    p.AppendPending(s + "[" + entries, 2, "]");
  }

  lemma ArrayTexts(s: string, p: string)
    ensures s + "[" + p + "]" == s + ("[" + p + "]")
  {
  }

  /** print_array's loop over the chain of elements. */
  method PrintItemsBuffered(p: PrintBuffer, first: Item?, depth: nat, fmt: bool, ghost s: string,
                            ghost items: Items, ghost nodes: set<Item>)
    requires ItemChain(first, null, items, nodes) && PrintableItems(items) && NulFree(s) && p.At(s)
    requires |s| + |PrintItems(items, depth, fmt)| + SLACK <= LIMIT
    modifies p, p.buffer
    ensures p.At(s + PrintItems(items, depth, fmt))
    ensures p.buffer == old(p.buffer) || fresh(p.buffer)
    decreases items, 1
  {
    var child := first;
    ghost var now, prev, rest, left := s, null, items, nodes;
    while child != null
      invariant ItemChain(child, prev, rest, left) && PrintableItems(rest) && (items nonincreases to rest)
      invariant p.At(now) && NulFree(now)
      invariant now + PrintItems(rest, depth, fmt) == s + PrintItems(items, depth, fmt)
      invariant p.buffer == old(p.buffer) || fresh(p.buffer)
      decreases rest
    {
      ghost var turn := ItemText(child.value, child.next != null, depth, fmt);
      Associate(now, turn, PrintItems(rest.next, depth, fmt));
      PrintItemBuffered(p, child, depth, fmt, now);
      now := now + turn;
      prev, rest, left := child, rest.next, left - {child} - child.under;
      child := child.next;
    }
  }

  /** An element and the comma behind it. */
  function ItemText(v: Json, follows: bool, depth: nat, fmt: bool): string
    requires Printable(v)
  {
    Print(v, depth, fmt) + When(follows, "," + When(fmt, " "))
  }

  /** One turn of print_array's loop. */
  method PrintItemBuffered(p: PrintBuffer, child: Item, depth: nat, fmt: bool, ghost s: string)
    requires child.Represents() && Printable(child.value) && NulFree(s) && p.At(s)
    requires |s| + |ItemText(child.value, child.next != null, depth, fmt)| + SLACK <= LIMIT
    modifies p, p.buffer
    ensures p.At(s + ItemText(child.value, child.next != null, depth, fmt))
    ensures NulFree(s + ItemText(child.value, child.next != null, depth, fmt))
    ensures p.buffer == old(p.buffer) || fresh(p.buffer)
    decreases child.value, 4
  {
    ghost var text := Print(child.value, depth, fmt);
    PrintBuffered(p, child, depth, fmt, s);
    PrintNulFree(child.value, depth, fmt);
    p.Update(s, s + text);
    if child.next != null {
      p.Append(s + text, if fmt then 3 else 2, "," + When(fmt, " "));
      Associate(s, text, "," + When(fmt, " "));
    } else {
      assert s + (text + "") == s + text;
    }
  }

  method PrintObjectBuffered(p: PrintBuffer, item: Item, outer: nat, fmt: bool, ghost s: string)
    requires item.Represents() && item.kind == KObject && Printable(item.value) && NulFree(s) && p.At(s)
    requires |s| + |Print(item.value, outer, fmt)| + SLACK <= LIMIT
    modifies p, p.buffer
    ensures p.Pending(s, s + Print(item.value, outer, fmt))
    ensures p.buffer == old(p.buffer) || fresh(p.buffer)
    decreases item.value, 2
  {
    if item.child == null {
      JsonRoundTrip.TabsBlank(outer - 1);
      p.AppendPending(s, if fmt then outer + 4 else 3, "{" + When(fmt, "\n" + Tabs(outer - 1)) + "}");
    } else {
      PrintFilledObject(p, item, outer, fmt, s);
    }
  }

  method PrintFilledObject(p: PrintBuffer, item: Item, outer: nat, fmt: bool, ghost s: string)
    requires item.Represents() && item.kind == KObject && item.child != null
    requires Printable(item.value) && NulFree(s) && p.At(s)
    requires |s| + |Print(item.value, outer, fmt)| + SLACK <= LIMIT
    modifies p, p.buffer
    ensures p.Pending(s, s + Print(item.value, outer, fmt))
    ensures p.buffer == old(p.buffer) || fresh(p.buffer)
    decreases item.value, 1
  {
    var depth := outer + 1;
    ghost var members := item.value.members;
    ghost var start, lines := s + ("{" + When(fmt, "\n")), PrintMembers(members, outer + 1, fmt);
    var close := When(fmt, Tabs(depth - 1)) + "}";
    JsonRoundTrip.TabsBlank(outer);
    ObjectTexts(s, When(fmt, "\n"), lines, When(fmt, Tabs(outer)));
    p.Append(s, if fmt then 3 else 2, "{" + When(fmt, "\n"));
    PrintMembersBuffered(p, item.child, depth, fmt, start, members, item.under);
    p.AppendPending(start + lines, if fmt then depth + 1 else 2, close);
  }

  /** print_object's loop over the chain of members. */
  method PrintMembersBuffered(p: PrintBuffer, first: Item?, depth: nat, fmt: bool, ghost s: string,
                              ghost members: Members, ghost nodes: set<Item>)
    requires MemberChain(first, null, members, nodes) && PrintableMembers(members) && NulFree(s) && p.At(s)
    requires |s| + |PrintMembers(members, depth, fmt)| + SLACK <= LIMIT
    modifies p, p.buffer
    ensures p.At(s + PrintMembers(members, depth, fmt))
    ensures p.buffer == old(p.buffer) || fresh(p.buffer)
    decreases members, 1
  {
    var child := first;
    ghost var now, prev, rest, left := s, null, members, nodes;
    while child != null
      invariant MemberChain(child, prev, rest, left) && PrintableMembers(rest) && (members nonincreases to rest)
      invariant p.At(now) && NulFree(now)
      invariant now + PrintMembers(rest, depth, fmt) == s + PrintMembers(members, depth, fmt)
      invariant p.buffer == old(p.buffer) || fresh(p.buffer)
      decreases rest
    {
      ghost var line := NodeLine(child, depth, fmt);
      Associate(now, line, PrintMembers(rest.next, depth, fmt));
      PrintMemberBuffered(p, child, depth, fmt, now);
      now := now + line;
      prev, rest, left := child, rest.next, left - {child} - child.under;
      child := child.next;
    }
  }

  lemma ObjectTexts(s: string, nl: string, ms: string, w: string)
    ensures s + ("{" + nl) + ms + (w + "}") == s + ("{" + nl + ms + w + "}")
  {
  }

  /** The line of one member. */
  ghost function NodeLine(child: Item, depth: nat, fmt: bool): string
    reads child
    requires Printable(child.value)
  {
    MemberText(child.name, Print(child.value, depth, fmt), child.next != null, depth, fmt)
  }

  /** One turn of print_object's loop. */
  method PrintMemberBuffered(p: PrintBuffer, child: Item, depth: nat, fmt: bool, ghost s: string)
    requires child.Represents() && NulFree(child.name) && Printable(child.value) && NulFree(s) && p.At(s)
    requires |s| + |NodeLine(child, depth, fmt)| + SLACK <= LIMIT
    modifies p, p.buffer
    ensures p.At(s + NodeLine(child, depth, fmt)) && NulFree(s + NodeLine(child, depth, fmt))
    ensures p.buffer == old(p.buffer) || fresh(p.buffer)
    decreases child.value, 4
  {
    ghost var text := Print(child.value, depth, fmt);
    var end := When(child.next != null, ",") + When(fmt, "\n");
    ghost var s1 := s + NameText(child.name, depth, fmt);
    MemberTexts(s, When(fmt, Tabs(depth)), Quote(child.name), When(fmt, "\t"), text, end);
    PrintNameBuffered(p, child.name, depth, fmt, s);
    PrintBuffered(p, child, depth, fmt, s1);
    PrintNulFree(child.value, depth, fmt);
    p.Update(s1, s1 + text);
    p.Append(s1 + text, |end| + 1, end);
  }

  function NameText(name: string, depth: nat, fmt: bool): string {
    When(fmt, Tabs(depth)) + Quote(name) + (":" + When(fmt, "\t"))
  }

  method PrintNameBuffered(p: PrintBuffer, name: string, depth: nat, fmt: bool, ghost s: string)
    requires NulFree(name) && NulFree(s) && p.At(s)
    requires |s| + |NameText(name, depth, fmt)| + SLACK <= LIMIT
    modifies p, p.buffer
    ensures p.At(s + NameText(name, depth, fmt)) && NulFree(s + NameText(name, depth, fmt))
    ensures p.buffer == old(p.buffer) || fresh(p.buffer)
  {
    var w := When(fmt, Tabs(depth));
    JsonRoundTrip.TabsBlank(depth);
    EscapeNulFree(name);
    if fmt && depth > 0 {
      p.Append(s, depth, w);
    } else {
      assert s + w == s;
    }
    PrintStringBuffered(p, name, s + w);
    p.Update(s + w, s + w + Quote(name));
    p.Append(s + w + Quote(name), if fmt then 2 else 1, ":" + When(fmt, "\t"));
    NameAppended(s, w, Quote(name), ":" + When(fmt, "\t"));
  }

  lemma NameAppended(s: string, w: string, name: string, end: string)
    ensures s + w + name + end == s + (w + name + end)
  {
  }

  lemma MemberTexts(s: string, w: string, name: string, tab: string, text: string, end: string)
    ensures s + (w + name + (":" + tab)) + text + end == s + (w + (name + (":" + (tab + (text + end)))))
    ensures |s + (w + (name + (":" + (tab + (text + end)))))| == |s + (w + name + (":" + tab))| + |text| + |end|
  {
    assert (w + name + (":" + tab)) + (text + end) == w + (name + (":" + (tab + (text + end))));
  }
}
