/** parse_value with its cursor and its in-place node links, against the parse functions of Json. */
module JsonReader {
  import opened CStrings
  import opened JsonStrings
  import opened Json
  import opened JsonNodes
  import opened JsonBuffer
  import JsonRoundTrip
  import Utf8

  /** What a parse call returns: a position, a null pointer, or it left the text. */
  datatype Outcome = Good | Bad | Out

  method SkipSpace(s: string, p: nat) returns (q: nat)
    requires p <= |s|
    ensures p <= q <= |s| && s[q..] == Skip(s[p..])
  {
    q := p;
    while q < |s| && s[q] as int <= 32
      invariant p <= q <= |s|
      invariant Skip(s[q..]) == Skip(s[p..])
    {
      assert s[q..][1..] == s[q + 1..];
      q := q + 1;
    }
  }

  // ----- strings -----

  /** The fall-through writer: the last byte first, six bits at a time. */
  method PutUtf8(out: array<char>, ghost s: string, w: nat, code: nat) returns (len: nat)
    requires code < 0x20_0000 && w == |s| && w + |Utf8.Encode(code)| <= out.Length && out[..w] == s
    modifies out
    ensures len == |Utf8.Encode(code)| && out[..w + len] == s + Utf8.Encode(code)
  {
    len := 4;
    if code < 0x80 {
      len := 1;
    } else if code < 0x800 {
      len := 2;
    } else if code < 0x1_0000 {
      len := 3;
    }
    WriteBack(out, w, len, code);
    assert out[..w] == s;
    assert out[..w + len] == out[..w] + out[w..w + len];
  }

  method WriteBack(out: array<char>, w: nat, len: nat, code: nat)
    requires code < 0x20_0000 && len == |Utf8.Encode(code)| && w + len <= out.Length
    modifies out
    ensures out[w..w + len] == Utf8.Encode(code) && out[..w] == old(out[..w])
  {
    var q, c := w + len, code;
    if len == 4 {
      q := q - 1;
      out[q] := Utf8.Continuation(c);
      c := c / 64;
    }
    if len >= 3 {
      q := q - 1;
      out[q] := Utf8.Continuation(c);
      c := c / 64;
    }
    if len >= 2 {
      q := q - 1;
      out[q] := Utf8.Continuation(c);
      c := c / 64;
    }
    out[q - 1] := (c + (if len == 1 then 0 else if len == 2 then 0xC0 else if len == 3 then 0xE0 else 0xF0)) as char;
    ghost var e := Utf8.Encode(code);
    assert out[w] == e[0];
    assert len >= 2 ==> out[w + 1] == e[1];
    assert len >= 3 ==> out[w + 2] == e[2];
    assert len >= 4 ==> out[w + 3] == e[3];
  }

  /** The first scan. */
  method CountScan(s: string, p: nat) returns (ok: bool, len: nat)
    requires p <= |s|
    ensures ok == Count(s[p..]).Counted?
    ensures ok ==> len == Count(s[p..]).len
  {
    var ptr := p;
    len := 0;
    while ptr < |s| && s[ptr] != '\"'
      invariant p <= ptr <= |s|
      invariant Count(s[p..]) == Longer(len, Count(s[ptr..]))
    {
      assert s[ptr..][1..] == s[ptr + 1..];
      len := len + 1;
      if s[ptr] == '\\' {
        if ptr + 1 == |s| {
          ok := false;
          return;
        }
        assert s[ptr..][2..] == s[ptr + 2..];
        ptr := ptr + 1;
      }
      ptr := ptr + 1;
    }
    ok := true;
  }

  lemma BeforeBefore(a: string, b: string, r: StringResult)
    ensures Before(a, Before(b, r)) == Before(a + b, r)
  {
    if r.Text? {
      Associate(a, b, r.text);
    }
  }

  /** parse_string on the text from p on. */
  method ReadString(s: string, p: nat) returns (o: Outcome, text: string, end: nat)
    requires p <= |s|
    ensures match ParseString(s[p..])
            case Text(t, rest) => o == Good && text == t && end <= |s| && s[end..] == rest
            case NotAString => o == Bad
            case Overrun => o == Out
  {
    text, end := "", p;
    if p == |s| || s[p] != '\"' {
      o := Bad;
      return;
    }
    assert s[p..][1..] == s[p + 1..];
    var ok, len := CountScan(s, p + 1);
    if !ok {
      o := Out;
      return;
    }
    o, text, end := SecondScan(s, p + 1, len);
  }

  method SecondScan(s: string, p: nat, len: nat) returns (o: Outcome, text: string, end: nat)
    requires p <= |s|
    ensures match Decode(s[p..])
            case Text(t, rest) =>
              if |t| <= len then o == Good && text == t && end <= |s| && s[end..] == rest else o == Out
            case _ => o == Out
  {
    var out := new char[len + 1];
    var ok, ptr, w := DecodeBody(s, p, out, len);
    if ok {
      out[w] := '\0';
      o, text, end := Good, out[..w], if ptr < |s| then ptr + 1 else ptr;
    } else {
      o, text, end := Out, "", p;
    }
  }

  predicate Fits(d: StringResult, len: nat) {
    d.Text? && |d.text| <= len
  }

  /** Its loop, up to the closing quote. */
  method DecodeBody(s: string, p: nat, out: array<char>, len: nat) returns (ok: bool, ptr: nat, w: nat)
    requires p <= |s| && out.Length == len + 1
    modifies out
    ensures ok <==> Fits(Decode(s[p..]), len)
    ensures ok ==> w <= len && ptr <= |s| && Decode(s[p..]) == Text(out[..w], s[if ptr < |s| then ptr + 1 else ptr..])
  {
    ptr, w := p, 0;
    ghost var so_far := "";
    ghost var d := Decode(s[p..]);
    DecodeBegin(s, p);
    while ptr < |s| && s[ptr] != '\"'
      invariant p <= ptr <= |s| && w == |so_far| <= len && out[..w] == so_far
      invariant Reached(s, ptr, so_far, d)
      decreases |s| - ptr
    {
      ok, ptr, w, so_far := BodyTurn(s, ptr, out, w, len, so_far, d);
      if !ok {
        return;
      }
    }
    DecodeEnd(s, ptr, so_far, d);
    ok := true;
  }

  /** What Decode will return once so_far is put before what it makes of the text from ptr on. */
  ghost predicate Reached(s: string, ptr: nat, so_far: string, d: StringResult) {
    ptr <= |s| && d == Before(so_far, Decode(s[ptr..]))
  }

  lemma DecodeBegin(s: string, p: nat)
    requires p <= |s|
    ensures Reached(s, p, "", Decode(s[p..]))
  {
    var d := Decode(s[p..]);
    assert d.Text? ==> "" + d.text == d.text;
  }

  lemma DecodeStep(s: string, ptr: nat, so_far: string, d: StringResult, len: nat)
    requires Reached(s, ptr, so_far, d) && ptr < |s| && s[ptr] != '\"'
    ensures var turn := NextTurn(s[ptr..]);
            if turn.Turn? && |so_far| + |turn.bytes| <= len
            then ptr + turn.used <= |s| && Reached(s, ptr + turn.used, so_far + turn.bytes, d)
            else !Fits(d, len)
  {
    var turn := NextTurn(s[ptr..]);
    if turn.Turn? {
      BeforeBefore(so_far, turn.bytes, Decode(s[ptr + turn.used..]));
      assert s[ptr..][turn.used..] == s[ptr + turn.used..];
    }
  }

  lemma DecodeEnd(s: string, ptr: nat, so_far: string, d: StringResult)
    requires Reached(s, ptr, so_far, d) && (ptr < |s| ==> s[ptr] == '\"')
    ensures d == Text(so_far, s[if ptr < |s| then ptr + 1 else ptr..])
  {
    if ptr < |s| {
      assert s[ptr..][1..] == s[ptr + 1..];
    }
    assert so_far + "" == so_far;
  }

  method BodyTurn(s: string, p: nat, out: array<char>, w0: nat, len: nat, ghost before: string, ghost d: StringResult)
    returns (ok: bool, ptr: nat, w: nat, ghost now: string)
    requires Reached(s, p, before, d) && p < |s| && s[p] != '\"'
    requires w0 == |before| <= len < out.Length && out[..w0] == before
    modifies out
    ensures ok ==> p < ptr <= |s| && w == |now| <= len && out[..w] == now && Reached(s, ptr, now, d)
    ensures !ok ==> !Fits(d, len)
  {
    DecodeStep(s, p, before, d, len);
    now := if NextTurn(s[p..]).Turn? then before + NextTurn(s[p..]).bytes else before;
    ok, ptr, w := DecodeTurn(s, p, out, w0, len, before);
  }

  /** One turn of the second scan: false when it would leave the text or the allocation of len bytes. */
  method DecodeTurn(s: string, p: nat, out: array<char>, w0: nat, len: nat, ghost before: string)
    returns (ok: bool, ptr: nat, w: nat)
    requires p < |s| && s[p] != '\"' && w0 == |before| <= len < out.Length && out[..w0] == before
    modifies out
    ensures ok <==> NextTurn(s[p..]).Turn? && w0 + |NextTurn(s[p..]).bytes| <= len
    ensures ok ==> ptr == p + NextTurn(s[p..]).used && w == w0 + |NextTurn(s[p..]).bytes| <= len
    ensures ok ==> out[..w] == before + NextTurn(s[p..]).bytes
  {
    ok, ptr, w := false, p, w0;
    ghost var turn := NextTurn(s[p..]);
    if s[p] != '\\' {
      ok := w < len;
      if ok {
        PutAfter(out, before, w, [s[p]]);
        ptr, w := p + 1, w + 1;
      }
      return;
    }
    if p + 1 == |s| {
      return;
    }
    if s[p + 1] != 'u' {
      ok := w < len;
      if ok {
        PutAfter(out, before, w, [Unescaped(s[p + 1])]);
        ptr, w := p + 2, w + 1;
      }
      return;
    }
    if |s| < p + 6 {
      return;
    }
    assert s[p..][2..6] == s[p + 2..p + 6];
    var u := Hex4(s[p + 2..p + 6]);
    ptr := p + 6;
    if IsLow(u) || u == 0 {
      ok := true;
      assert before + "" == before;
      return;
    }
    if IsHigh(u) {
      assert At(s, p + 6) == At(s[p..], 6) && At(s, p + 7) == At(s[p..], 7);
      if At(s, p + 6) != '\\' || At(s, p + 7) != 'u' {
        ok := true;
        assert before + "" == before;
        return;
      }
      if |s| < p + 12 {
        return;
      }
      assert s[p..][8..12] == s[p + 8..p + 12];
      var u2 := Hex4(s[p + 8..p + 12]);
      ptr := p + 12;
      if !IsLow(u2) {
        ok := true;
        assert before + "" == before;
        return;
      }
      u := Join(u, u2);
    }
    if w + |Utf8.Encode(u)| <= len {
      var n := PutUtf8(out, before, w, u);
      ok, w := true, w + n;
    }
  }

  // ----- numbers -----

  lemma AtSuffix(s: string, p: nat, k: nat)
    requires p <= |s|
    ensures At(s[p..], k) == At(s, p + k)
    ensures p + k <= |s| ==> s[p..][k..] == s[p + k..]
  {
  }

  method ReadDigits(s: string, p: nat, n0: nat) returns (n: nat, q: nat)
    requires p <= |s|
    ensures p <= q <= |s| && (n, s[q..]) == Digits(n0, s[p..])
  {
    n, q := n0, p;
    while q < |s| && IsDigit(s[q])
      invariant p <= q <= |s|
      invariant Digits(n, s[q..]) == Digits(n0, s[p..])
    {
      assert s[q..][1..] == s[q + 1..];
      n := n * 10 + (s[q] as int - '0' as int);
      q := q + 1;
    }
  }

  method ReadInteger(s: string, p: nat) returns (n: nat, q: nat)
    requires p <= |s|
    ensures q <= |s| && (n, s[q..]) == ParseInteger(s[p..])
  {
    AtSuffix(s, p, 0);
    AtSuffix(s, p, 1);
    n, q := 0, if At(s, p) == '0' then p + 1 else p;
    AtSuffix(s, q, 0);
    if '1' <= At(s, q) <= '9' {
      n, q := ReadDigits(s, q, 0);
    }
  }

  method ReadFraction(s: string, p: nat, n0: nat) returns (n: nat, places: nat, q: nat)
    requires p <= |s|
    ensures q <= |s| && Mantissa(n, places, s[q..]) == ParseFraction(n0, s[p..])
  {
    AtSuffix(s, p, 0);
    AtSuffix(s, p, 1);
    n, places, q := n0, 0, p;
    if At(s, p) == '.' && IsDigit(At(s, p + 1)) {
      n, q := ReadDigits(s, p + 1, n0);
      places := q - (p + 1);
    }
  }

  method ReadNumber(s: string, p: nat) returns (d: real, end: nat)
    requires p <= |s|
    ensures end <= |s| && (d, s[end..]) == ParseNumber(s[p..])
  {
    AtSuffix(s, p, 0);
    AtSuffix(s, p, 1);
    var minus := At(s, p) == '-';
    var n0, q0 := ReadInteger(s, if minus then p + 1 else p);
    var n, places, q := ReadFraction(s, q0, n0);
    var scale, e := ReadExponent(s, q);
    end := e;
    d := Scaled(minus, n, scale - places);
  }

  method ReadExponent(s: string, p: nat) returns (scale: int, end: nat)
    requires p <= |s|
    ensures end <= |s| && Exponent(scale, s[end..]) == ParseExponent(s[p..])
  {
    scale, end := 0, p;
    AtSuffix(s, p, 0);
    AtSuffix(s, p, 1);
    if At(s, p) == 'e' || At(s, p) == 'E' {
      end := p + 1;
      if At(s, p + 1) == '+' || At(s, p + 1) == '-' {
        end := p + 2;
        AtSuffix(s, p, 2);
      }
      scale, end := ReadDigits(s, end, 0);
      if At(s, p + 1) == '-' {
        scale := -scale;
      }
    }
  }

  // ----- values -----

  ghost predicate ValueRead(r: Parsed, s: string, o: Outcome, end: nat, v: Json) {
    match r
    case Parsed(parsed, rest) => o == Good && end <= |s| && s[end..] == rest && v == parsed
    case Failed => o == Bad
    case Outside => o == Out
  }

  /** parse_value fills `item` from the text at p. The nodes under it are new; its own links are not touched. */
  method ReadValue(item: Item, s: string, p: nat) returns (o: Outcome, end: nat)
    requires p <= |s|
    modifies item
    ensures item.next == old(item.next) && item.prev == old(item.prev) && item.name == old(item.name)
    ensures ValueRead(ParseValue(s[p..]), s, o, end, item.value)
    ensures o == Good ==> fresh(item.under) && item !in item.under && item.Represents()
    decreases |s| - p, 1
  {
    end, o, item.under := p, Good, {};
    AtSuffix(s, p, 0);
    AtSuffix(s, p, 1);
    var word := "null" <= s[p..] || "false" <= s[p..] || "true" <= s[p..];
    if word {
      end := ReadWord(item, s, p);
    } else if At(s, p) == '\"' {
      o, end := ReadStringValue(item, s, p);
    } else if At(s, p) == '-' || IsDigit(At(s, p)) {
      end := ReadNumberValue(item, s, p);
    } else if At(s, p) == '[' || At(s, p) == '{' {
      o, end := ReadNested(item, s, p);
    } else {
      o := Bad;
    }
  }

  method ReadStringValue(item: Item, s: string, p: nat) returns (o: Outcome, end: nat)
    requires p < |s| && s[p] == '\"'
    modifies item`kind, item`valuestring, item`value
    ensures ValueRead(ParseValue(s[p..]), s, o, end, item.value)
    ensures o == Good ==> item.Represents()
  {
    var text;
    o, text, end := ReadString(s, p);
    if o == Good {
      item.kind, item.valuestring, item.value := KString, text, String(text);
    }
  }

  method ReadNumberValue(item: Item, s: string, p: nat) returns (end: nat)
    requires p < |s| && (s[p] == '-' || IsDigit(s[p]))
    modifies item`kind, item`valuedouble, item`value
    ensures ValueRead(ParseValue(s[p..]), s, Good, end, item.value)
    ensures item.Represents()
  {
    var d;
    d, end := ReadNumber(s, p);
    item.kind, item.valuedouble, item.value := KNumber, d, Number(d);
  }

  /** An array or an object. */
  method ReadNested(item: Item, s: string, p: nat) returns (o: Outcome, end: nat)
    requires p < |s| && (s[p] == '[' || s[p] == '{')
    modifies item
    ensures item.next == old(item.next) && item.prev == old(item.prev) && item.name == old(item.name)
    ensures ValueRead(ParseValue(s[p..]), s, o, end, item.value)
    ensures o == Good ==> fresh(item.under) && item !in item.under && item.Represents()
    decreases |s| - p, 0
  {
    AtSuffix(s, p, 1);
    item.kind := if s[p] == '[' then KArray else KObject;
    end := SkipSpace(s, p + 1);
    if s[p] == '[' {
      o, end := ReadArray(item, s, end);
    } else {
      o, end := ReadObject(item, s, end);
    }
  }

  method ReadWord(item: Item, s: string, p: nat) returns (end: nat)
    requires p <= |s| && ("null" <= s[p..] || "false" <= s[p..] || "true" <= s[p..])
    modifies item`kind, item`value
    ensures ValueRead(ParseValue(s[p..]), s, Good, end, item.value)
    ensures item.Represents()
  {
    if "null" <= s[p..] {
      item.kind, item.value, end := KNull, Null, p + 4;
    } else if "false" <= s[p..] {
      item.kind, item.value, end := KFalse, Bool(false), p + 5;
    } else {
      item.kind, item.value, end := KTrue, Bool(true), p + 4;
    }
    assert s[p..][end - p..] == s[end..];
  }

  method ReadArray(item: Item, s: string, p: nat) returns (o: Outcome, end: nat)
    requires p <= |s| && item.kind == KArray
    modifies item
    ensures item.next == old(item.next) && item.prev == old(item.prev) && item.name == old(item.name)
    ensures ValueRead(ParseArray(s[p..]), s, o, end, item.value)
    ensures o == Good ==> fresh(item.under) && item !in item.under && item.Represents()
    decreases |s| - p, 6
  {
    item.child, item.under := null, {};
    AtSuffix(s, p, 0);
    AtSuffix(s, p, 1);
    if At(s, p) == ']' {
      item.value, o, end := Array(NoItems), Good, p + 1;
      return;
    }
    var child := new Item();
    item.child := child;
    ghost var items, nodes;
    o, end, items, nodes := ReadItems(child, s, p);
    if o == Good {
      item.under, item.value := nodes, Array(items);
    }
  }

  /** parse_object behind the brace. */
  method ReadObject(item: Item, s: string, p: nat) returns (o: Outcome, end: nat)
    requires p <= |s| && item.kind == KObject
    modifies item
    ensures item.next == old(item.next) && item.prev == old(item.prev) && item.name == old(item.name)
    ensures ValueRead(ParseObject(s[p..]), s, o, end, item.value)
    ensures o == Good ==> fresh(item.under) && item !in item.under && item.Represents()
    decreases |s| - p, 6
  {
    item.child, item.under := null, {};
    AtSuffix(s, p, 0);
    AtSuffix(s, p, 1);
    if At(s, p) == '}' {
      item.value, o, end := Object(NoMembers), Good, p + 1;
      return;
    }
    var child := new Item();
    item.child := child;
    ghost var ms, nodes;
    o, end, ms, nodes := ReadMembers(child, s, p);
    if o == Good {
      item.under, item.value := nodes, Object(ms);
    }
  }

  /** A node whose links are set in front of a chain makes a longer chain. */
  lemma ConsItem(child: Item, more: Items, rest: set<Item>)
    requires child.Represents() && child !in child.under && ({child} + child.under) !! rest
    requires ItemChain(child.next, child, more, rest)
    ensures ItemChain(child, child.prev, Item(child.value, more), {child} + child.under + rest)
  {
    ItemChainGrows(child.next, child, more, rest, {child} + child.under + rest - {child} - child.under);
  }

  /** What one turn of parse_array makes of the text. */
  datatype ItemTurn = ItemTurn(v: Json, t: string) | ItemFails | ItemOutside

  function AfterItem(v: Json, t: string): ParsedItems {
    if At(t, 0) == ',' then
      match ParseItems(t[1..])
      case ParsedItems(items, rest) => ParsedItems(Item(v, items), rest)
      case r => r
    else if At(t, 0) == ']' then ParsedItems(Item(v, NoItems), t[1..])
    else FailedItems
  }

  function NextItem(s: string): (r: ItemTurn)
    ensures r.ItemTurn? ==> |r.t| < |s|
    ensures ParseItems(s) ==
              match r {
                case ItemFails => FailedItems
                case ItemOutside => OutsideItems
                case ItemTurn(v, t) => AfterItem(v, t)
              }
  {
    match ParseValue(Skip(s))
    case Failed => ItemFails
    case Outside => ItemOutside
    case Parsed(v, after) => ItemTurn(v, Skip(after))
  }

  /** A value with the white space around it. */
  method FillItem(child: Item, s: string, p: nat) returns (o: Outcome, end: nat)
    requires p <= |s|
    modifies child
    ensures child.next == old(child.next) && child.prev == old(child.prev) && child.name == old(child.name)
    ensures match NextItem(s[p..])
            case ItemTurn(v, t) => o == Good && end <= |s| && s[end..] == t && child.value == v
            case ItemFails => o == Bad
            case ItemOutside => o == Out
    ensures o == Good ==> fresh(child.under) && child !in child.under && child.Represents()
    decreases |s| - p, 3
  {
    end := SkipSpace(s, p);
    o, end := ReadValue(child, s, end);
    if o == Good {
      end := SkipSpace(s, end);
    }
  }

  ghost predicate ItemsRead(r: ParsedItems, s: string, o: Outcome, end: nat, items: Items) {
    match r
    case ParsedItems(parsed, rest) => o == Good && end <= |s| && s[end..] == rest && items == parsed
    case FailedItems => o == Bad
    case OutsideItems => o == Out
  }

  /** The loop of parse_array, one turn a call: fill `child`, and after a comma link a new node behind it. */
  method ReadItems(child: Item, s: string, p: nat)
    returns (o: Outcome, end: nat, ghost items: Items, ghost nodes: set<Item>)
    requires p <= |s| && child.next == null
    modifies child
    ensures child.prev == old(child.prev) && child.name == old(child.name)
    ensures ItemsRead(ParseItems(s[p..]), s, o, end, items)
    ensures o == Good ==> fresh(nodes - {child}) && ItemChain(child, child.prev, items, nodes)
    decreases |s| - p, 5
  {
    items, nodes := NoItems, {};
    o, end := FillItem(child, s, p);
    if o == Good {
      o, end, items, nodes := ReadMoreItems(child, s, end);
    }
  }

  method ReadMoreItems(child: Item, s: string, p: nat)
    returns (o: Outcome, end: nat, ghost items: Items, ghost nodes: set<Item>)
    requires p <= |s| && child.next == null
    requires child.Represents() && child !in child.under
    modifies child`next
    ensures ItemsRead(AfterItem(child.value, s[p..]), s, o, end, items)
    ensures o == Good ==> fresh(nodes - {child} - child.under) && ItemChain(child, child.prev, items, nodes)
    decreases |s| - p, 4
  {
    items, nodes, end, o := NoItems, {}, p, Bad;
    AtSuffix(s, p, 0);
    AtSuffix(s, p, 1);
    if At(s, p) == ',' {
      var newItem := new Item();
      LinkItem(child, newItem);
      ghost var more, rest;
      o, end, more, rest := ReadItems(newItem, s, p + 1);
      if o == Good {
        items, nodes := Item(child.value, more), {child} + child.under + rest;
        ConsItem(child, more, rest);
      }
    } else if At(s, p) == ']' {
      o, items, nodes, end := Good, Item(child.value, NoItems), {child} + child.under + {}, p + 1;
      ConsItem(child, NoItems, {});
    }
  }

  lemma ConsMember(child: Item, more: Members, rest: set<Item>)
    requires child.Represents() && child !in child.under && ({child} + child.under) !! rest
    requires MemberChain(child.next, child, more, rest)
    ensures MemberChain(child, child.prev, Member(child.name, child.value, more), {child} + child.under + rest)
  {
    MemberChainGrows(child.next, child, more, rest, {child} + child.under + rest - {child} - child.under);
  }

  /** What one turn of parse_object makes of the text. */
  datatype MemberTurn = MemberTurn(name: string, v: Json, t: string) | MemberFails | MemberOutside

  function AfterMember(name: string, v: Json, t: string): ParsedMembers {
    if At(t, 0) == ',' then
      match ParseMembers(t[1..])
      case ParsedMembers(ms, rest) => ParsedMembers(Member(name, v, ms), rest)
      case r => r
    else if At(t, 0) == '}' then ParsedMembers(Member(name, v, NoMembers), t[1..])
    else FailedMembers
  }

  datatype NameTurn = NameTurn(name: string, t: string) | NameFails | NameOutside

  /** A name and its colon. */
  function NextName(s: string): (r: NameTurn)
    ensures r.NameTurn? ==> |r.t| < |s|
  {
    match ParseString(Skip(s))
    case NotAString => NameFails
    case Overrun => NameOutside
    case Text(name, after) =>
      if At(Skip(after), 0) == ':' then NameTurn(name, Skip(after)[1..]) else NameFails
  }

  function NextMember(s: string): (r: MemberTurn)
    ensures r.MemberTurn? ==> |r.t| < |s|
    ensures ParseMembers(s) ==
              match r {
                case MemberFails => FailedMembers
                case MemberOutside => OutsideMembers
                case MemberTurn(name, v, t) => AfterMember(name, v, t)
              }
  {
    match NextName(s)
    case NameFails => MemberFails
    case NameOutside => MemberOutside
    case NameTurn(name, t) =>
      match ParseValue(Skip(t))
      case Failed => MemberFails
      case Outside => MemberOutside
      case Parsed(v, after) => MemberTurn(name, v, Skip(after))
  }

  method FillName(child: Item, s: string, p: nat) returns (o: Outcome, end: nat)
    requires p <= |s|
    modifies child`valuestring, child`name
    ensures match NextName(s[p..])
            case NameTurn(name, t) => o == Good && end <= |s| && s[end..] == t && child.name == name
            case NameFails => o == Bad
            case NameOutside => o == Out
  {
    var text;
    end := SkipSpace(s, p);
    o, text, end := ReadString(s, end);
    if o == Good {
      child.valuestring := text;
      o, end := ReadColon(s, end);
      child.name, child.valuestring := child.valuestring, "";
    }
  }

  method ReadColon(s: string, p: nat) returns (o: Outcome, end: nat)
    requires p <= |s|
    ensures if At(Skip(s[p..]), 0) == ':' then o == Good && end <= |s| && s[end..] == Skip(s[p..])[1..] else o == Bad
  {
    end := SkipSpace(s, p);
    AtSuffix(s, end, 0);
    AtSuffix(s, end, 1);
    if At(s, end) == ':' {
      o, end := Good, end + 1;
    } else {
      o := Bad;
    }
  }

  method FillMember(child: Item, s: string, p: nat) returns (o: Outcome, end: nat)
    requires p <= |s|
    modifies child
    ensures child.next == old(child.next) && child.prev == old(child.prev)
    ensures match NextMember(s[p..])
            case MemberTurn(name, v, t) =>
              o == Good && end <= |s| && s[end..] == t && child.value == v && child.name == name
            case MemberFails => o == Bad
            case MemberOutside => o == Out
    ensures o == Good ==> fresh(child.under) && child !in child.under && child.Represents()
    decreases |s| - p, 3
  {
    o, end := FillName(child, s, p);
    if o == Good {
      end := SkipSpace(s, end);
      o, end := ReadValue(child, s, end);
      if o == Good {
        end := SkipSpace(s, end);
      }
    }
  }

  ghost predicate MembersRead(r: ParsedMembers, s: string, o: Outcome, end: nat, ms: Members) {
    match r
    case ParsedMembers(parsed, rest) => o == Good && end <= |s| && s[end..] == rest && ms == parsed
    case FailedMembers => o == Bad
    case OutsideMembers => o == Out
  }

  /** The loop of parse_object, one turn a call. */
  method ReadMembers(child: Item, s: string, p: nat)
    returns (o: Outcome, end: nat, ghost ms: Members, ghost nodes: set<Item>)
    requires p <= |s| && child.next == null
    modifies child
    ensures child.prev == old(child.prev)
    ensures MembersRead(ParseMembers(s[p..]), s, o, end, ms)
    ensures o == Good ==> fresh(nodes - {child}) && MemberChain(child, child.prev, ms, nodes)
    decreases |s| - p, 5
  {
    ms, nodes := NoMembers, {};
    o, end := FillMember(child, s, p);
    if o == Good {
      o, end, ms, nodes := ReadMoreMembers(child, s, end);
    }
  }

  /** The members behind a comma hang off `child`. */
  method ReadNextMember(child: Item, s: string, p: nat)
    returns (o: Outcome, end: nat, ghost ms: Members, ghost nodes: set<Item>)
    requires p <= |s| && child.Represents() && child !in child.under
    modifies child`next
    ensures MembersRead(ParseMembers(s[p..]), s, o, end, ms)
    ensures child.Represents()
    ensures o == Good ==> fresh(nodes) && MemberChain(child.next, child, ms, nodes)
    decreases |s| - p, 6
  {
    var newItem := new Item();
    LinkItem(child, newItem);
    o, end, ms, nodes := ReadMembers(newItem, s, p);
  }

  method ReadMoreMembers(child: Item, s: string, p: nat)
    returns (o: Outcome, end: nat, ghost ms: Members, ghost nodes: set<Item>)
    requires p <= |s| && child.next == null
    requires child.Represents() && child !in child.under
    modifies child`next
    ensures MembersRead(AfterMember(child.name, child.value, s[p..]), s, o, end, ms)
    ensures o == Good ==> fresh(nodes - {child} - child.under) && MemberChain(child, child.prev, ms, nodes)
    decreases |s| - p, 4
  {
    ms, nodes, end, o := NoMembers, {}, p, Bad;
    AtSuffix(s, p, 0);
    AtSuffix(s, p, 1);
    if At(s, p) == ',' {
      ghost var more, rest;
      o, end, more, rest := ReadNextMember(child, s, p + 1);
      if o == Good {
        ms, nodes := Member(child.name, child.value, more), {child} + child.under + rest;
        ConsMember(child, more, rest);
      }
    } else if At(s, p) == '}' {
      o, ms, nodes, end := Good, Member(child.name, child.value, NoMembers), {child} + child.under + {}, p + 1;
      ConsMember(child, NoMembers, {});
    }
  }

  /** child->next = new_item; new_item->prev = child. */
  method LinkItem(child: Item, newItem: Item)
    requires child.Represents() && child !in child.under && newItem != child && newItem !in child.under
    modifies child`next, newItem`prev
    ensures child.next == newItem && newItem.prev == child
    ensures child.Represents()
  {
    child.next := newItem;
    newItem.prev := child;
  }
}
