/** Whole documents: cJSON_ParseWithOpts, and reading and printing one after the other. */
module JsonDocuments {
  import opened CStrings
  import opened Json
  import opened JsonBuffer
  import opened JsonNodes
  import opened JsonPlain
  import opened JsonReader
  import opened JsonRoundTrip
  import opened JsonStrings
  import JsonMinifyMeaning
  import JsonPrinter

  // ----- what was read can be printed -----

  /** Every number is an integer in int range. */
  predicate Integers(v: Json) {
    match v
    case Number(d) => IsInt(d)
    case Array(items) => IntegerItems(items)
    case Object(members) => IntegerMembers(members)
    case _ => true
  }

  predicate IntegerItems(items: Items) {
    items.Item? ==> Integers(items.head) && IntegerItems(items.next)
  }

  predicate IntegerMembers(ms: Members) {
    ms.Member? ==> Integers(ms.value) && IntegerMembers(ms.next)
  }

  lemma {:induction false} SkipNulFree(s: string)
    requires NulFree(s)
    ensures NulFree(Skip(s))
  {
    if s != "" && s[0] as int <= 32 {
      SkipNulFree(s[1..]);
    }
  }

  lemma TurnNulFree(s: string)
    requires NulFree(s) && s != "" && s[0] != '\"' && NextTurn(s).Turn?
    ensures NulFree(NextTurn(s).bytes)
  {
    if s[0] == '\\' {
      assert s[1] in s;
    } else {
      assert s[0] in s;
    }
  }

  /** No escape makes a NUL: U+0000 vanishes. */
  lemma {:induction false} DecodeNulFree(s: string)
    requires NulFree(s) && Decode(s).Text?
    ensures NulFree(Decode(s).text) && NulFree(Decode(s).rest)
    decreases |s|
  {
    if s != "" && s[0] != '\"' {
      TurnNulFree(s);
      DecodeNulFree(s[NextTurn(s).used..]);
    }
  }

  lemma StringNulFree(s: string)
    requires NulFree(s) && ParseString(s).Text?
    ensures NulFree(ParseString(s).text) && NulFree(ParseString(s).rest)
  {
    DecodeNulFree(s[1..]);
  }

  lemma NumberNulFree(s: string)
    requires NulFree(s) && s != "" && (s[0] == '-' || IsDigit(s[0]))
    ensures NulFree(ParseNumber(s).1)
  {
    var x := JsonMinifyMeaning.NumberPart(s, "");
    assert forall c | c in ParseNumber(s).1 :: c in s;
  }

  lemma {:induction false} ValueNulFree(s: string)
    requires NulFree(s) && ParseValue(s).Parsed?
    ensures NulFree(ParseValue(s).rest) && (Printable(ParseValue(s).value) <==> Integers(ParseValue(s).value))
    decreases |s|, 1
  {
    JsonMinifyMeaning.ValueStarts(s);
    if "null" <= s || "false" <= s || "true" <= s {
    } else if s[0] == '\"' {
      JsonMinifyMeaning.StringValue(s);
      StringNulFree(s);
    } else if s[0] == '-' || IsDigit(s[0]) {
      JsonMinifyMeaning.NumberValue(s);
      NumberNulFree(s);
    } else {
      SkipNulFree(s[1..]);
      var t := Skip(s[1..]);
      if s[0] == '[' && At(t, 0) != ']' {
        ItemsNulFree(t);
      } else if s[0] == '{' && At(t, 0) != '}' {
        MembersNulFree(t);
      }
    }
  }

  lemma {:induction false} ItemsNulFree(s: string)
    requires NulFree(s) && ParseItems(s).ParsedItems?
    ensures NulFree(ParseItems(s).irest)
    ensures PrintableItems(ParseItems(s).items) <==> IntegerItems(ParseItems(s).items)
    decreases |s|, 2
  {
    var turn := NextItem(s);
    SkipNulFree(s);
    ValueNulFree(Skip(s));
    SkipNulFree(ParseValue(Skip(s)).rest);
    if turn.t[0] == ',' {
      ItemsNulFree(turn.t[1..]);
    }
  }

  lemma {:induction false} MembersNulFree(s: string)
    requires NulFree(s) && ParseMembers(s).ParsedMembers?
    ensures NulFree(ParseMembers(s).mrest)
    ensures PrintableMembers(ParseMembers(s).members) <==> IntegerMembers(ParseMembers(s).members)
    decreases |s|, 2
  {
    var turn := NextMember(s);
    var p, colon := Skip(s), NextName(s).t;
    SkipNulFree(s);
    StringNulFree(p);
    SkipNulFree(ParseString(p).rest);
    SkipNulFree(colon);
    ValueNulFree(Skip(colon));
    SkipNulFree(ParseValue(Skip(colon)).rest);
    if turn.t[0] == ',' {
      MembersNulFree(turn.t[1..]);
    }
  }

  /** A tree that was read can be printed exactly if its numbers are integers: its texts and names are C strings. */
  lemma ReadIsPrintable(s: string, requireEnd: bool)
    requires NulFree(s) && ParseDocument(s, requireEnd).Parsed?
    ensures var v := ParseDocument(s, requireEnd).value; Printable(v) <==> Integers(v)
  {
    SkipNulFree(s);
    ValueNulFree(Skip(s));
  }

  // ----- the calls -----

  /** cJSON_ParseWithOpts: a new tree, or null when the text is no document. */
  method ReadDocument(s: string, requireEnd: bool) returns (o: Outcome, item: Item?, end: nat)
    ensures match ParseDocument(s, requireEnd)
            case Parsed(v, rest) =>
              && o == Good && end <= |s| && s[end..] == rest
              && item != null && fresh(item) && fresh(item.under) && item.Represents() && item.value == v
            case Failed => o == Bad && item == null
            case Outside => o == Out && item == null
  {
    var c := new Item();
    assert s[0..] == s;
    end := SkipSpace(s, 0);
    o, end := ReadValue(c, s, end);
    item := null;
    if o == Good {
      if requireEnd {
        end := SkipSpace(s, end);
        if end != |s| {
          o := Bad;
          return;
        }
      }
      item := c;
    }
  }

  /** Printing a tree and reading the text gives new nodes for an equal tree, and the old ones stay. */
  method PrintThenRead(item: Item, fmt: bool, requireEnd: bool) returns (copy: Item)
    requires item.Represents() && Printable(item.value)
    ensures fresh(copy) && fresh(copy.under) && copy.Represents() && copy.value == item.value
    ensures item.Represents() && item.value == old(item.value)
  {
    ghost var text := Print(item.value, 0, fmt);
    var out := PrintDocument(item, fmt);
    JsonPrinter.PrintNulFree(item.value, 0, fmt);
    var n := StrLen(out, 0, text);
    DocumentRoundTrip(item.value, fmt, requireEnd);
    var o, c, end := ReadDocument(out[..n], requireEnd);
    copy := c;
  }

  /** Reading a document and printing it gives the text of its tree, which is read as the same tree again. */
  method ReadThenPrint(s: string, fmt: bool) returns (o: Outcome, out: array?<char>)
    requires NulFree(s) && (ParseDocument(s, true).Parsed? ==> Integers(ParseDocument(s, true).value))
    ensures ParseDocument(s, true).Parsed? ==> Printable(ParseDocument(s, true).value)
    ensures match ParseDocument(s, true)
            case Parsed(v, _) =>
              && o == Good && out != null && fresh(out) && Holds(out, Print(v, 0, fmt))
              && ParseDocument(Print(v, 0, fmt), true) == Parsed(v, "")
            case Failed => o == Bad && out == null
            case Outside => o == Out && out == null
  {
    if ParseDocument(s, true).Parsed? {
      ReadIsPrintable(s, true);
    }
    var item, end;
    o, item, end := ReadDocument(s, true);
    out := null;
    if o == Good {
      out := PrintDocument(item, fmt);
      DocumentRoundTrip(item.value, fmt, true);
    }
  }
}
