/** Exactly which texts cJSON_Minify leaves with the same meaning. */
module JsonMinifyExactly {
  import opened CStrings
  import opened JsonStrings
  import opened Json
  import opened JsonMinify
  import opened JsonMinifyMeaning
  import opened JsonRoundTrip
  import JsonReader

  /** The text between s and its suffix r has no unclosed literal and no bad escape in it. */
  predicate Kept(s: string, r: string) {
    EscapesFit(s) ==> EscapesFit(r) && (Closed(s) <==> Closed(r))
  }

  lemma PlainKept(w: string, r: string)
    requires '\"' !in w
    ensures Kept(w + r, r)
  {
    NoQuotes(w, r);
  }

  lemma {:induction false} SkipKept(s: string)
    ensures Kept(s, Skip(s))
    decreases |s|
  {
    if s != "" && s[0] as int <= 32 {
      SkipKept(s[1..]);
    }
  }

  lemma HeadKept(t: string)
    requires t != "" && t[0] != '\"'
    ensures Kept(t, t[1..])
  {
    assert t == [t[0]] + t[1..];
    PlainKept([t[0]], t[1..]);
  }

  // ----- strings -----

  /** Without a closing quote the second scan goes on to the end of the text. So a string token with anything left
      after it is closed, and ends where the minifier sees it end. */
  lemma StringKept(s: string)
    requires ParseString(s).Text? && EscapesFit(s)
    ensures ParseString(s).rest != "" ==> LiteralRest(s[1..]).Literal?
    ensures LiteralRest(s[1..]).Literal? ==> Kept(s, ParseString(s).rest)
  {
    match LiteralRest(s[1..])
    case Unclosed => SpanScans(s[1..], "");
    case Literal(n) =>
      var body, t := s[1..n], s[1 + n..];
      LiteralEnds(s[1..]);
      assert s[1..][n - 1] == s[n];
      LiteralText(s, n, t);
      ParseSpan(body, t, t);
  }

  // ----- values -----

  lemma WordKept(word: string, s: string)
    requires word in {"null", "false", "true"} && word <= s
    ensures Kept(s, s[|word|..])
  {
    assert s == word + s[|word|..];
    PlainKept(word, s[|word|..]);
  }

  lemma NumberKept(s: string)
    requires s != "" && (s[0] == '-' || IsDigit(s[0]))
    ensures Kept(s, ParseNumber(s).1)
  {
    var x := NumberPart(s, "");
    PlainKept(x, ParseNumber(s).1);
  }

  /** No value but a string that is the whole text leaves a literal open. */
  lemma {:induction false} ValueKept(s: string)
    requires ParseValue(s).Parsed? && EscapesFit(s)
    requires s[0] == '\"' ==> ParseValue(s).rest != ""
    ensures Kept(s, ParseValue(s).rest)
    decreases |s|, 1
  {
    ValueStarts(s);
    if "null" <= s {
      WordKept("null", s);
    } else if "false" <= s {
      WordKept("false", s);
    } else if "true" <= s {
      WordKept("true", s);
    } else if s[0] == '\"' {
      StringValue(s);
      StringKept(s);
    } else if s[0] == '-' || IsDigit(s[0]) {
      NumberValue(s);
      NumberKept(s);
    } else {
      HeadKept(s);
      SkipKept(s[1..]);
      if s[0] == '[' {
        ArrayKept(Skip(s[1..]));
      } else {
        ObjectKept(Skip(s[1..]));
      }
    }
  }

  lemma {:induction false} ArrayKept(t: string)
    requires ParseArray(t).Parsed? && EscapesFit(t)
    ensures Kept(t, ParseArray(t).rest)
    decreases |t|, 3
  {
    if At(t, 0) == ']' {
      HeadKept(t);
    } else {
      ItemsKept(t);
    }
  }

  lemma {:induction false} ObjectKept(t: string)
    requires ParseObject(t).Parsed? && EscapesFit(t)
    ensures Kept(t, ParseObject(t).rest)
    decreases |t|, 3
  {
    if At(t, 0) == '}' {
      HeadKept(t);
    } else {
      MembersKept(t);
    }
  }

  /** Something follows every element: a comma or the bracket. */
  lemma {:induction false} ItemsKept(s: string)
    requires ParseItems(s).ParsedItems? && EscapesFit(s)
    ensures Kept(s, ParseItems(s).irest)
    decreases |s|, 2
  {
    var p := Skip(s);
    var after := ParseValue(p).rest;
    var turn := JsonReader.NextItem(s);
    var t := Skip(after);
    SkipKept(s);
    ValueKept(p);
    SkipKept(after);
    HeadKept(t);
    if t[0] == ',' {
      ItemsKept(t[1..]);
    }
  }

  lemma {:induction false} MembersKept(s: string)
    requires ParseMembers(s).ParsedMembers? && EscapesFit(s)
    ensures Kept(s, ParseMembers(s).mrest)
    decreases |s|, 2
  {
    var turn := JsonReader.NextMember(s);
    var colon := JsonReader.NextName(s).t;
    var after := ParseValue(Skip(colon)).rest;
    var t := Skip(after);
    NameKept(s);
    SkipKept(colon);
    ValueKept(Skip(colon));
    SkipKept(after);
    HeadKept(t);
    if t[0] == ',' {
      MembersKept(t[1..]);
    }
  }

  lemma NameKept(s: string)
    requires JsonReader.NextName(s).NameTurn? && EscapesFit(s)
    ensures Kept(s, JsonReader.NextName(s).t)
  {
    var p := Skip(s);
    var after := ParseString(p).rest;
    SkipKept(s);
    StringKept(p);
    SkipKept(after);
    HeadKept(Skip(after));
  }

  // ----- documents -----

  lemma {:induction false} BlankClosed(w: string)
    requires Skip(w) == ""
    ensures Closed(w)
  {
    if w != "" {
      BlankClosed(w[1..]);
    }
  }

  lemma {:induction false} RunawayBehind(s: string)
    requires Minify(Skip(s)) == Runaway
    ensures Minify(s) == Runaway
    decreases |s|
  {
    if s != "" && s[0] as int <= 32 {
      RunawayBehind(s[1..]);
    }
  }

  /** In a document that parses to its end, the only literal that can be open is the whole document. */
  lemma OpenIsWhole(s: string)
    requires ParseDocument(s, true).Parsed? && EscapesFit(s) && !Closed(s)
    ensures var p := Skip(s);
            p != "" && p[0] == '\"' && LiteralRest(p[1..]).Unclosed? && ParseDocument(s, true).value.String?
  {
    var p := Skip(s);
    var r := ParseValue(p);
    SkipKept(s);
    ValueStarts(p);
    BlankClosed(r.rest);
    if p[0] != '\"' {
      ValueKept(p);
    } else {
      StringValue(p);
      StringKept(p);
    }
  }

  /** A document that parses to its end means the same after minifying exactly if its strings are closed. If one is
      not, the minifier runs past the end of the text looking for the quote. */
  lemma MinifyKeepsMeaningExactly(s: string)
    requires ParseDocument(s, true).Parsed? && EscapesFit(s)
    ensures Minify(s).Minified? && ParseDocument(Minify(s).text, true) == ParseDocument(s, true) <==> Closed(s)
    ensures !Closed(s) ==> Minify(s) == Runaway
  {
    if Closed(s) {
      MinifyKeepsMeaning(s);
    } else {
      OpenIsWhole(s);
      RunawayBehind(s);
    }
  }

  /** A lone quote is a document for the parser. */
  lemma UnclosedStringRunsAway()
    ensures ParseDocument("\"", true) == Parsed(String(""), "") && Minify("\"") == Runaway
  {
    assert "\""[1..] == "";
    assert ParseString("\"") == Text("", "");
    MinifyKeepsMeaningExactly("\"");
  }

  /** A literal that begins with a \u, a quote among the four characters behind it. */
  function Opened(d: string, rest: string): string {
    "\"" + ("\\u" + (d + rest))
  }

  lemma SkippedFour(d: string, rest: string)
    requires |d| == 4 && d[0] == '\"'
    ensures Decode("\\u" + (d + rest)) == Before("", Decode(rest)) && Count("\\u" + (d + rest)) == Counted(1, d + rest)
  {
    var v := "\\u" + (d + rest);
    PrefixOfConcat("\\u", d + rest);
    assert v[2..6] == d && v[6..] == rest && v[0] == '\\' && v[1] == 'u';
    assert NextTurn(v) == Turn("", 6);
  }

  lemma SkippedDocument(d: string, rest: string, text: string)
    requires |d| == 4 && d[0] == '\"' && Decode(rest) == Text(text, "") && |text| <= 1
    ensures ParseDocument(Opened(d, rest), true) == Parsed(String(text), "")
  {
    SkippedFour(d, rest);
    PrefixOfConcat("\"", "\\u" + (d + rest));
    assert "" + text == text;
    StringValue(Opened(d, rest));
  }

  lemma MinifyTwo(a: string, b: string)
    requires a == "\"\\u\"" && b == "\"b\""
    ensures Closed(a + ("a " + b)) && Minify(a + ("a " + b)) == Minified(a + ("a" + b))
  {
    LiteralOnto(b, "");
    assert b + "" == b && Onto(b, Minify("")) == Minified(b);
    Middle(b);
    LiteralOnto(a, "a " + b);
    OntoThree(a, "a", b, Minify(""));
    assert (a + ("a" + b)) + "" == a + ("a" + b);
  }

  lemma Middle(t: string)
    ensures Minify("a " + t) == Onto("a", Minify(t)) && Closed("a " + t) == Closed(t)
  {
    assert "a" + (" " + t) == "a " + t;
    NoQuotes("a ", t);
    MinifyVisible("a", " " + t);
    MinifySpaces(" ", t);
  }

  lemma LiteralOnto(a: string, t: string)
    requires a == "\"\\u\"" || a == "\"b\""
    ensures Minify(a + t) == Onto(a, Minify(t)) && Closed(a + t) == Closed(t)
  {
    var s := a + t;
    assert s[1..] == a[1..] + t && s[..|a|] == a && s[|a|..] == t;
    assert (a[1..] + t)[1..] == a[2..] + t && (a[1..] + t)[2..] == a[3..] + t;
    assert LiteralRest(s[1..]) == Literal(|a| - 1);
  }

  /** A quote among the four characters behind a \u is skipped by the parser and ends the literal for the minifier. So
      "\u"a "b" means "b", and its minified text "\u"a"b" means the empty string. */
  lemma SkippedQuote()
    ensures var s, m := "\"\\u\"a \"b\"", "\"\\u\"a\"b\"";
            && Closed(s) && ParseDocument(s, true) == Parsed(String("b"), "")
            && Minify(s) == Minified(m) && ParseDocument(m, true) == Parsed(String(""), "")
  {
    assert "b\""[1..] == "\"" && "\""[1..] == "" && Decode("\"") == Text("", "") && Decode("b\"") == Text("b", "");
    SkippedDocument("\"a \"", "b\"", "b");
    SkippedDocument("\"a\"b", "\"", "");
    MinifyTwo("\"\\u\"", "\"b\"");
    Spelled();
  }

  lemma Spelled()
    ensures Opened("\"a \"", "b\"") == "\"\\u\"a \"b\"" == "\"\\u\"" + ("a " + "\"b\"")
    ensures Opened("\"a\"b", "\"") == "\"\\u\"a\"b\"" == "\"\\u\"" + ("a" + "\"b\"")
  {
    assert "\"a \"" + "b\"" == "\"a \"b\"" && "\"a\"b" + "\"" == "\"a\"b\"";
    assert "\\u" + "\"a \"b\"" == "\\u\"a \"b\"" && "\\u" + "\"a\"b\"" == "\\u\"a\"b\"";
    assert "a " + "\"b\"" == "a \"b\"" && "a" + "\"b\"" == "a\"b\"";
  }
}
