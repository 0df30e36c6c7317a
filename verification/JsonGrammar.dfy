/** The language the parser accepts: a grammar of its own, with the tree each text stands for. */
module JsonGrammar {
  import opened CStrings
  import opened JsonStrings
  import opened Json
  import opened JsonLetters
  import opened JsonMinify
  import opened JsonMinifyMeaning
  import opened JsonNumerals
  import opened JsonRoundTrip
  import JsonReader

  /** A value as it is written, white space inside included. */
  datatype Syntax =
    | Word(word: string)
    | Num(n: Numeral)
    | Str(ls: seq<Letter>)
    | Arr(inner: string, slots: Slots)
    | Obj(inner: string, fields: Fields)
  datatype Slots = NoSlots | Slot(before: string, value: Syntax, after: string, more: Slots)
  datatype Fields =
    | NoFields
    | Field(before: string, name: seq<Letter>, afterName: string, between: string, value: Syntax, after: string,
            more: Fields)

  /** White space: every character up to the space. */
  predicate Gap(w: string) {
    forall i | 0 <= i < |w| :: 0 < w[i] as int <= 32
  }

  ghost predicate Written(x: Syntax) {
    match x
    case Word(word) => word in {"null", "true", "false"}
    case Num(n) => JsonNumerals.Proper(n)
    case Str(ls) => AllProper(ls)
    case Arr(inner, slots) => Gap(inner) && WrittenSlots(slots)
    case Obj(inner, fields) => Gap(inner) && WrittenFields(fields)
  }

  ghost predicate WrittenSlots(s: Slots) {
    s.Slot? ==> Gap(s.before) && Written(s.value) && Gap(s.after) && WrittenSlots(s.more)
  }

  ghost predicate WrittenFields(f: Fields) {
    f.Field? ==>
      && Gap(f.before) && AllProper(f.name) && Gap(f.afterName) && Gap(f.between) && Written(f.value) && Gap(f.after)
      && WrittenFields(f.more)
  }

  function Quoted(ls: seq<Letter>): string {
    "\"" + (JsonLetters.Written(ls) + "\"")
  }

  ghost function TextOf(x: Syntax): string
    requires Written(x)
  {
    match x
    case Word(word) => word
    case Num(n) => NumeralText(n)
    case Str(ls) => Quoted(ls)
    case Arr(inner, slots) => "[" + if slots.NoSlots? then inner + "]" else SlotsText(slots)
    case Obj(inner, fields) => "{" + if fields.NoFields? then inner + "}" else FieldsText(fields)
  }

  ghost function SlotsText(s: Slots): string
    requires s.Slot? && WrittenSlots(s)
  {
    s.before + (TextOf(s.value) + (s.after + if s.more.NoSlots? then "]" else "," + SlotsText(s.more)))
  }

  ghost function FieldsText(f: Fields): string
    requires f.Field? && WrittenFields(f)
  {
    f.before + (Quoted(f.name) + (f.afterName + (":" + (f.between + (TextOf(f.value) + (f.after +
      if f.more.NoFields? then "}" else "," + FieldsText(f.more)))))))
  }

  /** What it stands for. */
  function TreeOf(x: Syntax): Json {
    match x
    case Word(word) => if word == "null" then Null else Bool(word == "true")
    case Num(n) => Number(Worth(n))
    case Str(ls) => String(Meaning(Senses(ls)))
    case Arr(_, slots) => Array(ItemsOf(slots))
    case Obj(_, fields) => Object(MembersOf(fields))
  }

  function ItemsOf(s: Slots): Items {
    if s.NoSlots? then NoItems else Item(TreeOf(s.value), ItemsOf(s.more))
  }

  function MembersOf(f: Fields): Members {
    if f.NoFields? then NoMembers else Member(Meaning(Senses(f.name)), TreeOf(f.value), MembersOf(f.more))
  }

  // ----- reading what is written -----

  lemma TextStarts(x: Syntax)
    requires Written(x)
    ensures TextOf(x) != "" && TextOf(x)[0] as int > 32 && TextOf(x)[0] != ']' && TextOf(x)[0] != '}'
  {
    if x.Num? {
      NumeralStarts(x.n);
    }
  }

  lemma NumeralStarts(n: Numeral)
    requires JsonNumerals.Proper(n)
    ensures NumeralText(n) != "" && (NumeralText(n)[0] == '-' || IsDigit(NumeralText(n)[0]))
  {
    if n.whole != [] {
      DigitChar("0123456789"[n.whole[0]], n.whole[0]);
    }
  }

  lemma GapSkips(w: string, s: string)
    requires Gap(w) && (s == "" || s[0] as int > 32)
    ensures Skip(w + s) == s
  {
    SkipPast(w, s);
  }

  lemma WordReads(word: string, u: string)
    requires word in {"null", "true", "false"}
    ensures ParseValue(word + u) == Parsed(if word == "null" then Null else Bool(word == "true"), u)
  {
    PrefixOfConcat(word, u);
    assert (word + u)[0] == word[0];
  }

  lemma QuotedReads(ls: seq<Letter>, u: string)
    requires AllProper(ls)
    ensures ParseString(Quoted(ls) + u) == Text(Meaning(Senses(ls)), u)
  {
    ParseLetters(ls, u);
    QuotedGroups(JsonLetters.Written(ls), u);
  }

  /** Every written value is read as what it stands for, before anything that cannot go on with a number. */
  lemma {:induction false} SyntaxReads(x: Syntax, u: string)
    requires Written(x) && Stops(u)
    ensures ParseValue(TextOf(x) + u) == Parsed(TreeOf(x), u)
    decreases x, 0
  {
    match x
    case Word(word) => WordReads(word, u);
    case Num(n) =>
      NumeralReads(n, u);
      NumeralStarts(n);
      NumberValue(NumeralText(n) + u);
    case Str(ls) =>
      QuotedReads(ls, u);
      StringValue(Quoted(ls) + u);
    case Arr(inner, slots) => ArrayReads(inner, slots, u);
    case Obj(inner, fields) => ObjectReads(inner, fields, u);
  }

  lemma {:induction false} ArrayReads(inner: string, slots: Slots, u: string)
    requires Written(Arr(inner, slots)) && Stops(u)
    ensures ParseValue(TextOf(Arr(inner, slots)) + u) == Parsed(Array(ItemsOf(slots)), u)
    decreases slots, 2
  {
    if slots.NoSlots? {
      Associate("[", inner + "]", u);
      Associate(inner, "]", u);
      OpenValue('[', inner + ("]" + u));
      GapSkips(inner, "]" + u);
      assert ("]" + u)[1..] == u;
    } else {
      Associate("[", SlotsText(slots), u);
      OpenValue('[', SlotsText(slots) + u);
      SlotsRead(slots, u);
    }
  }

  lemma {:induction false} ObjectReads(inner: string, fields: Fields, u: string)
    requires Written(Obj(inner, fields)) && Stops(u)
    ensures ParseValue(TextOf(Obj(inner, fields)) + u) == Parsed(Object(MembersOf(fields)), u)
    decreases fields, 2
  {
    if fields.NoFields? {
      Associate("{", inner + "}", u);
      Associate(inner, "}", u);
      OpenValue('{', inner + ("}" + u));
      GapSkips(inner, "}" + u);
      assert ("}" + u)[1..] == u;
    } else {
      Associate("{", FieldsText(fields), u);
      OpenValue('{', FieldsText(fields) + u);
      FieldsRead(fields, u);
    }
  }

  ghost function SlotsTail(s: Slots): string
    requires s.Slot? && WrittenSlots(s)
  {
    if s.more.NoSlots? then "]" else "," + SlotsText(s.more)
  }

  /** Behind white space as well. */
  lemma {:induction false} SlotsRead(s: Slots, u: string)
    requires s.Slot? && WrittenSlots(s)
    ensures ParseItems(Skip(SlotsText(s) + u)) == ParseItems(SlotsText(s) + u) == ParsedItems(ItemsOf(s), u)
    ensures At(Skip(SlotsText(s) + u), 0) != ']'
    decreases s, 1
  {
    var x, tail := TextOf(s.value), SlotsTail(s);
    var all, end := SlotsText(s) + u, s.after + (tail + u);
    FourText(s.before, x, s.after, tail, u);
    TextStarts(s.value);
    GapSkips(s.before, x + end);
    ListEnds(s.after, tail, u);
    SyntaxReads(s.value, end);
    TailReads(s, u);
    var turn := JsonReader.NextItem(all);
    var turn' := JsonReader.NextItem(x + end);
    SkipTwice(all);
  }

  lemma ListEnds(w: string, tail: string, u: string)
    requires Gap(w) && tail != "" && tail[0] in {',', ']', '}', ':'}
    ensures Skip(w + (tail + u)) == tail + u
    ensures tail[0] != ':' ==> Stops(w + (tail + u))
  {
    GapSkips(w, tail + u);
    FirstOf(w, tail + u);
    FirstOf(tail, u);
  }

  lemma {:induction false} TailReads(s: Slots, u: string)
    requires s.Slot? && WrittenSlots(s)
    ensures JsonReader.AfterItem(TreeOf(s.value), SlotsTail(s) + u) == ParsedItems(ItemsOf(s), u)
    decreases s, 0
  {
    if s.more.NoSlots? {
      assert ("]" + u)[1..] == u;
    } else {
      Associate(",", SlotsText(s.more), u);
      assert ("," + (SlotsText(s.more) + u))[1..] == SlotsText(s.more) + u;
      SlotsRead(s.more, u);
    }
  }

  ghost function FieldsTail(f: Fields): string
    requires f.Field? && WrittenFields(f)
  {
    if f.more.NoFields? then "}" else "," + FieldsText(f.more)
  }

  /** A name, its colon and the white space around them. */
  lemma NameReads(f: Fields, t: string)
    requires f.Field? && WrittenFields(f)
    ensures var s := f.before + (Quoted(f.name) + (f.afterName + (":" + t)));
            && JsonReader.NextName(s) == JsonReader.NameTurn(Meaning(Senses(f.name)), t)
            && Skip(s) == Quoted(f.name) + (f.afterName + (":" + t))
  {
    var q := f.afterName + (":" + t);
    GapSkips(f.before, Quoted(f.name) + q);
    QuotedReads(f.name, q);
    ListEnds(f.afterName, ":", t);
    assert (":" + t)[1..] == t;
  }

  lemma {:induction false} FieldsRead(f: Fields, u: string)
    requires f.Field? && WrittenFields(f)
    ensures ParseMembers(Skip(FieldsText(f) + u)) == ParseMembers(FieldsText(f) + u) == ParsedMembers(MembersOf(f), u)
    ensures At(Skip(FieldsText(f) + u), 0) != '}'
    decreases f, 1
  {
    var x, tail := TextOf(f.value), FieldsTail(f);
    var end := f.after + (tail + u);
    var t := f.between + (x + end);
    FieldText(f, u);
    NameReads(f, t);
    TextStarts(f.value);
    GapSkips(f.between, x + end);
    ListEnds(f.after, tail, u);
    SyntaxReads(f.value, end);
    FieldTailReads(f, u);
    var all := FieldsText(f) + u;
    SkipTwice(all);
    SkippedName(all);
    var turn := JsonReader.NextMember(all);
    var turn' := JsonReader.NextMember(Skip(all));
  }

  lemma SkippedName(s: string)
    requires Skip(Skip(s)) == Skip(s)
    ensures JsonReader.NextName(Skip(s)) == JsonReader.NextName(s)
  {
  }

  lemma FieldText(f: Fields, u: string)
    requires f.Field? && WrittenFields(f)
    ensures FieldsText(f) + u
         == f.before
            + (Quoted(f.name)
               + (f.afterName + (":" + (f.between + (TextOf(f.value) + (f.after + (FieldsTail(f) + u)))))))
  {
    var inner := f.between + (TextOf(f.value) + (f.after + FieldsTail(f)));
    FourText(f.before, Quoted(f.name), f.afterName, ":" + inner, u);
    Associate(":", inner, u);
    FourText(f.between, TextOf(f.value), f.after, FieldsTail(f), u);
  }

  lemma {:induction false} FieldTailReads(f: Fields, u: string)
    requires f.Field? && WrittenFields(f)
    ensures JsonReader.AfterMember(Meaning(Senses(f.name)), TreeOf(f.value), FieldsTail(f) + u)
         == ParsedMembers(MembersOf(f), u)
    decreases f, 0
  {
    if f.more.NoFields? {
      assert ("}" + u)[1..] == u;
    } else {
      Associate(",", FieldsText(f.more), u);
      assert ("," + (FieldsText(f.more) + u))[1..] == FieldsText(f.more) + u;
      FieldsRead(f.more, u);
    }
  }

  // ----- writing what was read -----

  /** Any text but an ill-quoted one. */
  ghost predicate Fit(s: string) {
    NulFree(s) && WellQuoted(s)
  }

  lemma FitTail(c: char, t: string)
    requires Fit([c] + t) && c != '\"'
    ensures Fit(t)
  {
    RestNulFree([c], t);
    NoQuotes([c], t);
  }

  lemma {:induction false} GapBefore(s: string) returns (w: string)
    requires NulFree(s)
    ensures Gap(w) && s == w + Skip(s)
  {
    if s != "" && s[0] as int <= 32 {
      assert s[0] in s;
      var v := GapBefore(s[1..]);
      w := [s[0]] + v;
      assert s == [s[0]] + s[1..];
      ConsAssociate(s[0], v, Skip(s));
    } else {
      w := "";
    }
  }

  lemma GapOf(s: string) returns (w: string)
    requires Fit(s)
    ensures Gap(w) && s == w + Skip(s) && Fit(Skip(s))
  {
    w := GapBefore(s);
    RestNulFree(w, Skip(s));
    NoQuotes(w, Skip(s));
  }

  lemma RestNulFree(a: string, b: string)
    requires NulFree(a + b)
    ensures NulFree(b)
  {
    forall c | c in b
      ensures c in a + b
    {
    }
  }

  /** A closed literal, in letters. */
  lemma QuotedOf(s: string) returns (ls: seq<Letter>)
    requires WellQuoted(s) && ParseString(s).Text?
    ensures AllProper(ls) && s == Quoted(ls) + ParseString(s).rest && ParseString(s).text == Meaning(Senses(ls))
    ensures WellQuoted(ParseString(s).rest)
  {
    var n := LiteralSplit(s);
    ls := LettersOf(s[1..n]);
    QuotedGroups(s[1..n], s[1 + n..]);
    QuotedReads(ls, s[1 + n..]);
  }

  lemma QuotedGroups(b: string, t: string)
    ensures "\"" + (b + "\"" + t) == "\"" + (b + "\"") + t
  {
    Associate("\"", b + "\"", t);
  }

  /** Every value that was read was written by the grammar, and stands for what was read. */
  lemma {:induction false} SyntaxOf(s: string) returns (x: Syntax)
    requires Fit(s) && ParseValue(s).Parsed?
    ensures Written(x) && s == TextOf(x) + ParseValue(s).rest && TreeOf(x) == ParseValue(s).value
    ensures Fit(ParseValue(s).rest)
    decreases |s|, 1
  {
    ValueStarts(s);
    var _ := ValuePart(s, "");
    if "null" <= s || "false" <= s || "true" <= s {
      x := WordOf(s);
    } else if s[0] == '\"' {
      var ls := QuotedOf(s);
      StringValue(s);
      x := Str(ls);
    } else if s[0] == '-' || IsDigit(s[0]) {
      var n := NumeralOf(s);
      NumberValue(s);
      x := Num(n);
    } else {
      x := NestedOf(s);
    }
    RestNulFree(TextOf(x), ParseValue(s).rest);
  }

  lemma WordOf(s: string) returns (x: Syntax)
    requires "null" <= s || "false" <= s || "true" <= s
    ensures Written(x) && ParseValue(s).Parsed? && s == TextOf(x) + ParseValue(s).rest
    ensures TreeOf(x) == ParseValue(s).value
  {
    x := Word(if "null" <= s then "null" else if "false" <= s then "false" else "true");
  }

  lemma {:induction false} NestedOf(s: string) returns (x: Syntax)
    requires Fit(s) && ParseValue(s).Parsed? && s != "" && (s[0] == '[' || s[0] == '{')
    ensures Written(x) && s == TextOf(x) + ParseValue(s).rest && TreeOf(x) == ParseValue(s).value
    decreases |s|, 0
  {
    var t := s[1..];
    assert s == [s[0]] + t && s[0] != '\"';
    OpenValue(s[0], t);
    FitTail(s[0], t);
    if s[0] == '[' {
      x := ArrayOf(t);
    } else {
      x := ObjectOf(t);
    }
    Headed(s[0], TextOf(x), t, ParseValue(s).rest);
  }

  lemma Headed(c: char, x: string, t: string, rest: string)
    requires x != "" && x[0] == c && t == x[1..] + rest
    ensures [c] + t == x + rest
  {
    assert x == [c] + x[1..];
    Associate([c], x[1..], rest);
  }

  lemma {:induction false} ArrayOf(t: string) returns (x: Syntax)
    requires Fit(t) && ParseArray(Skip(t)).Parsed?
    ensures Written(x) && TextOf(x)[..1] == "[" && t == TextOf(x)[1..] + ParseArray(Skip(t)).rest
    ensures TreeOf(x) == ParseArray(Skip(t)).value
    decreases |t|, 4
  {
    if At(Skip(t), 0) == ']' {
      var w := GapOf(t);
      x := Arr(w, NoSlots);
      ClosedText(w, ']', Skip(t));
    } else {
      ItemsBehindGap(t);
      var slots := SlotsOf(t);
      x := Arr("", slots);
    }
  }

  /** parse_array skips white space and parse_items does so again. */
  lemma ItemsBehindGap(t: string)
    ensures ParseItems(Skip(t)) == ParseItems(t)
  {
    SkipTwice(t);
    var turn, turn' := JsonReader.NextItem(t), JsonReader.NextItem(Skip(t));
  }

  lemma MembersBehindGap(t: string)
    ensures ParseMembers(Skip(t)) == ParseMembers(t)
  {
    SkipTwice(t);
    SkippedName(t);
    var turn, turn' := JsonReader.NextMember(t), JsonReader.NextMember(Skip(t));
  }

  lemma {:induction false} ObjectOf(t: string) returns (x: Syntax)
    requires Fit(t) && ParseObject(Skip(t)).Parsed?
    ensures Written(x) && TextOf(x)[..1] == "{" && t == TextOf(x)[1..] + ParseObject(Skip(t)).rest
    ensures TreeOf(x) == ParseObject(Skip(t)).value
    decreases |t|, 4
  {
    if At(Skip(t), 0) == '}' {
      var w := GapOf(t);
      x := Obj(w, NoFields);
      ClosedText(w, '}', Skip(t));
    } else {
      MembersBehindGap(t);
      var fields := FieldsOf(t);
      x := Obj("", fields);
    }
  }

  lemma {:induction false} SlotsOf(s: string) returns (slots: Slots)
    requires Fit(s) && ParseItems(s).ParsedItems?
    ensures slots.Slot? && WrittenSlots(slots) && s == SlotsText(slots) + ParseItems(s).irest
    ensures ItemsOf(slots) == ParseItems(s).items
    decreases |s|, 3
  {
    var p := Skip(s);
    var after := ParseValue(p).rest;
    var turn := JsonReader.NextItem(s);
    var before := GapOf(s);
    var x := SyntaxOf(p);
    var w := GapOf(after);
    var more := MoreSlotsOf(turn.v, turn.t);
    slots := Slot(before, x, w, more);
    FourText(before, TextOf(x), w, SlotsTail(slots), ParseItems(s).irest);
  }

  /** A comma and more, or the closing bracket. */
  lemma {:induction false} MoreSlotsOf(v: Json, t: string) returns (more: Slots)
    requires Fit(t) && JsonReader.AfterItem(v, t).ParsedItems?
    ensures WrittenSlots(more) && JsonReader.AfterItem(v, t).items == Item(v, ItemsOf(more))
    ensures t == (if more.NoSlots? then "]" else "," + SlotsText(more)) + JsonReader.AfterItem(v, t).irest
    decreases |t|, 4
  {
    var rest := t[1..];
    assert t == [t[0]] + rest;
    FitTail(t[0], rest);
    if t[0] == ',' {
      more := SlotsOf(rest);
      Associate(",", SlotsText(more), ParseItems(rest).irest);
    } else {
      more := NoSlots;
    }
  }

  lemma {:induction false} FieldsOf(s: string) returns (fields: Fields)
    requires Fit(s) && ParseMembers(s).ParsedMembers?
    ensures fields.Field? && WrittenFields(fields) && s == FieldsText(fields) + ParseMembers(s).mrest
    ensures MembersOf(fields) == ParseMembers(s).members
    decreases |s|, 3
  {
    var turn := JsonReader.NextMember(s);
    var t := JsonReader.NextName(s).t;
    var before, name, afterName := NameOf(s);
    var after := ParseValue(Skip(t)).rest;
    var between := GapOf(t);
    var x := SyntaxOf(Skip(t));
    var w := GapOf(after);
    var more := MoreFieldsOf(turn.name, turn.v, turn.t);
    fields := Field(before, name, afterName, between, x, w, more);
    FieldText(fields, ParseMembers(s).mrest);
  }

  lemma NameOf(s: string) returns (before: string, name: seq<Letter>, afterName: string)
    requires Fit(s) && JsonReader.NextName(s).NameTurn?
    ensures var r := JsonReader.NextName(s);
            && Gap(before) && AllProper(name) && Gap(afterName) && r.name == Meaning(Senses(name))
            && s == before + (Quoted(name) + (afterName + (":" + r.t))) && Fit(r.t)
  {
    before := GapOf(s);
    name := QuotedOf(Skip(s));
    var after := ParseString(Skip(s)).rest;
    RestNulFree(Quoted(name), after);
    afterName := ColonOf(after);
  }

  lemma ColonOf(s: string) returns (w: string)
    requires Fit(s) && At(Skip(s), 0) == ':'
    ensures Gap(w) && s == w + (":" + Skip(s)[1..]) && Fit(Skip(s)[1..])
  {
    w := GapOf(s);
    FirstAndRest(Skip(s));
    FitTail(':', Skip(s)[1..]);
  }

  lemma FirstAndRest(s: string)
    requires s != ""
    ensures s == [s[0]] + s[1..]
  {
  }

  lemma ClosedText(w: string, c: char, p: string)
    requires p != "" && p[0] == c
    ensures w + p == (w + [c]) + p[1..]
  {
    FirstAndRest(p);
    SnocAssociate(w, c, p[1..]);
  }

  lemma {:induction false} MoreFieldsOf(name: string, v: Json, t: string) returns (more: Fields)
    requires Fit(t) && JsonReader.AfterMember(name, v, t).ParsedMembers?
    ensures WrittenFields(more) && JsonReader.AfterMember(name, v, t).members == Member(name, v, MembersOf(more))
    ensures t == (if more.NoFields? then "}" else "," + FieldsText(more)) + JsonReader.AfterMember(name, v, t).mrest
    decreases |t|, 4
  {
    var rest := t[1..];
    assert t == [t[0]] + rest;
    FitTail(t[0], rest);
    if t[0] == ',' {
      more := FieldsOf(rest);
      Associate(",", FieldsText(more), ParseMembers(rest).mrest);
    } else {
      more := NoFields;
    }
  }

  // ----- documents -----

  ghost predicate IsDocument(s: string, x: Syntax, before: string, after: string) {
    Gap(before) && Written(x) && Gap(after) && s == before + (TextOf(x) + after)
  }

  // Written documents have closed literals with whole escapes.

  lemma LetterLiteral(l: Letter, t: string)
    requires JsonLetters.Proper(l)
    ensures LiteralRest(Spelling(l) + t) == Further(|Spelling(l)|, LiteralRest(t))
  {
    if Sense(l).Unit? {
      var d := FourOf(l);
      assert Spelling(l) + t == "\\u" + (d + t);
      assert ("\\u" + (d + t))[2..] == d + t;
      LiteralPlain(d, t);
    } else {
      PrefixOfConcat(Spelling(l), t);
    }
  }

  lemma {:induction false} LettersLiteral(ls: seq<Letter>, t: string)
    requires AllProper(ls)
    ensures LiteralRest(JsonLetters.Written(ls) + ("\"" + t)) == Literal(|JsonLetters.Written(ls)| + 1)
  {
    if ls == [] {
      assert "" + ("\"" + t) == "\"" + t;
    } else {
      var more := JsonLetters.Written(ls[1..]);
      LettersLiteral(ls[1..], t);
      Associate(Spelling(ls[0]), more, "\"" + t);
      LetterLiteral(ls[0], more + ("\"" + t));
    }
  }

  lemma QuotedWell(ls: seq<Letter>, t: string)
    requires AllProper(ls)
    ensures WellQuoted(Quoted(ls) + t) <==> WellQuoted(t)
  {
    var b := JsonLetters.Written(ls);
    WrittenIsSpan(ls);
    LettersLiteral(ls, t);
    LiteralWell(b, t);
  }

  lemma LiteralWell(b: string, t: string)
    requires IsSpan(b) && LiteralRest(b + ("\"" + t)) == Literal(|b| + 1)
    ensures WellQuoted("\"" + (b + "\"") + t) <==> WellQuoted(t)
  {
    var s := "\"" + (b + "\"") + t;
    assert s[1..] == b + ("\"" + t) && s[1..|b| + 1] == b && s[1 + (|b| + 1)..] == t;
  }

  lemma PlainWell(w: string, t: string)
    requires '\"' !in w
    ensures WellQuoted(w + t) <==> WellQuoted(t)
  {
    NoQuotes(w, t);
  }

  lemma GapWell(w: string, t: string)
    requires Gap(w)
    ensures WellQuoted(w + t) <==> WellQuoted(t)
  {
    PlainWell(w, t);
  }

  lemma NumeralWell(n: Numeral, t: string)
    requires JsonNumerals.Proper(n)
    ensures WellQuoted(NumeralText(n) + t) <==> WellQuoted(t)
  {
    NumeralStarts(n);
    NumeralReads(n, "");
    assert NumeralText(n) + "" == NumeralText(n);
    var x := NumberPart(NumeralText(n), "");
    assert x + "" == x;
    PlainWell(NumeralText(n), t);
  }

  lemma {:induction false} SyntaxWell(x: Syntax, t: string)
    requires Written(x)
    ensures WellQuoted(TextOf(x) + t) <==> WellQuoted(t)
    decreases x, 0
  {
    match x
    case Word(word) => PlainWell(word, t);
    case Num(n) => NumeralWell(n, t);
    case Str(ls) => QuotedWell(ls, t);
    case Arr(inner, slots) =>
      if slots.NoSlots? {
        Associate("[", inner + "]", t);
        Associate(inner, "]", t);
        PlainWell("[", inner + ("]" + t));
        GapWell(inner, "]" + t);
        PlainWell("]", t);
      } else {
        Associate("[", SlotsText(slots), t);
        PlainWell("[", SlotsText(slots) + t);
        SlotsWell(slots, t);
      }
    case Obj(inner, fields) =>
      if fields.NoFields? {
        Associate("{", inner + "}", t);
        Associate(inner, "}", t);
        PlainWell("{", inner + ("}" + t));
        GapWell(inner, "}" + t);
        PlainWell("}", t);
      } else {
        Associate("{", FieldsText(fields), t);
        PlainWell("{", FieldsText(fields) + t);
        FieldsWell(fields, t);
      }
  }

  lemma {:induction false} SlotsWell(s: Slots, t: string)
    requires s.Slot? && WrittenSlots(s)
    ensures WellQuoted(SlotsText(s) + t) <==> WellQuoted(t)
    decreases s, 0
  {
    FourText(s.before, TextOf(s.value), s.after, SlotsTail(s), t);
    GapWell(s.before, TextOf(s.value) + (s.after + (SlotsTail(s) + t)));
    SyntaxWell(s.value, s.after + (SlotsTail(s) + t));
    GapWell(s.after, SlotsTail(s) + t);
    if s.more.NoSlots? {
      PlainWell("]", t);
    } else {
      Associate(",", SlotsText(s.more), t);
      PlainWell(",", SlotsText(s.more) + t);
      SlotsWell(s.more, t);
    }
  }

  lemma {:induction false} FieldsWell(f: Fields, t: string)
    requires f.Field? && WrittenFields(f)
    ensures WellQuoted(FieldsText(f) + t) <==> WellQuoted(t)
    decreases f, 0
  {
    var end := f.after + (FieldsTail(f) + t);
    var value := f.between + (TextOf(f.value) + end);
    FieldText(f, t);
    GapWell(f.before, Quoted(f.name) + (f.afterName + (":" + value)));
    QuotedWell(f.name, f.afterName + (":" + value));
    GapWell(f.afterName, ":" + value);
    PlainWell(":", value);
    GapWell(f.between, TextOf(f.value) + end);
    SyntaxWell(f.value, end);
    GapWell(f.after, FieldsTail(f) + t);
    if f.more.NoFields? {
      PlainWell("}", t);
    } else {
      Associate(",", FieldsText(f.more), t);
      PlainWell(",", FieldsText(f.more) + t);
      FieldsWell(f.more, t);
    }
  }

  lemma DocumentWell(x: Syntax, before: string, after: string)
    requires Gap(before) && Written(x) && Gap(after)
    ensures WellQuoted(before + (TextOf(x) + after))
  {
    GapWell(before, TextOf(x) + after);
    SyntaxWell(x, after);
    GapWell(after, "");
    assert after + "" == after;
  }

  /** A text with closed literals and whole escapes is accepted as a document, with this tree, if and only if the
      grammar writes it, with this meaning. What the grammar writes is always such a text. */
  lemma AcceptsExactly(s: string, v: Json)
    requires NulFree(s)
    ensures WellQuoted(s) && ParseDocument(s, true) == Parsed(v, "") <==>
              exists x, before, after :: IsDocument(s, x, before, after) && TreeOf(x) == v
  {
    if WellQuoted(s) && ParseDocument(s, true) == Parsed(v, "") {
      var before := GapOf(s);
      var x := SyntaxOf(Skip(s));
      var after := GapOf(ParseValue(Skip(s)).rest);
      assert after + "" == after;
      assert IsDocument(s, x, before, after);
    }
    forall x, before, after | IsDocument(s, x, before, after) && TreeOf(x) == v
      ensures WellQuoted(s) && ParseDocument(s, true) == Parsed(v, "")
    {
      DocumentReads(x, before, after);
      DocumentWell(x, before, after);
    }
  }

  lemma DocumentReads(x: Syntax, before: string, after: string)
    requires Gap(before) && Written(x) && Gap(after)
    ensures ParseDocument(before + (TextOf(x) + after), true) == Parsed(TreeOf(x), "")
  {
    TextStarts(x);
    GapSkips(before, TextOf(x) + after);
    SyntaxReads(x, after);
    GapSkips(after, "");
    assert after + "" == after;
  }
}
