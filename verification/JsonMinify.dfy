/** cJSON_Minify: what it leaves of a text, how it does so in place, and what it makes of printed trees. */
module JsonMinify {
  import opened CStrings
  import opened JsonStrings
  import opened Json
  import JsonRoundTrip

  /** `Runaway`: the loop steps past the terminator (an unclosed comment or string). */
  datatype Minified = Minified(text: string) | Runaway

  function Onto(prefix: string, m: Minified): Minified {
    match m
    case Minified(text) => Minified(prefix + text)
    case Runaway => Runaway
  }

  predicate IsSpace(c: char) {
    c == ' ' || c == '\t' || c == '\r' || c == '\n'
  }

  function LineEnd(s: string): (r: string)
    ensures |r| <= |s|
  {
    if s == "" || s[0] == '\n' then s else LineEnd(s[1..])
  }

  predicate StarSlash(s: string) {
    At(s, 0) == '*' && At(s, 1) == '/'
  }

  function CommentEnd(s: string): (r: string)
    ensures |r| <= |s|
    ensures r != "" ==> StarSlash(r) && |r| >= 2
  {
    if s == "" || StarSlash(s) then s else CommentEnd(s[1..])
  }

  /** The rest of a string literal, closing quote included: its length, or none if it is not closed. */
  datatype Literal = Literal(len: nat) | Unclosed

  function Further(k: nat, l: Literal): Literal {
    match l
    case Literal(n) => Literal(k + n)
    case Unclosed => Unclosed
  }

  function LiteralRest(s: string): (r: Literal)
    ensures r.Literal? ==> 1 <= r.len <= |s|
    decreases |s|
  {
    if s == "" then Unclosed
    else if s[0] == '\"' then Literal(1)
    else if s[0] == '\\' then if |s| < 2 then Unclosed else Further(2, LiteralRest(s[2..]))
    else Further(1, LiteralRest(s[1..]))
  }

  function Minify(s: string): Minified
    decreases |s|
  {
    if s == "" then Minified("")
    else if IsSpace(s[0]) then Minify(s[1..])
    else if s[0] == '/' && At(s, 1) == '/' then Minify(LineEnd(s[1..]))
    else if s[0] == '/' && At(s, 1) == '*' then
      var r := CommentEnd(s[1..]);
      if r == "" then Runaway else Minify(r[2..])
    else if s[0] == '\"' then
      match LiteralRest(s[1..])
      case Literal(n) => Onto(s[..1 + n], Minify(s[1 + n..]))
      case Unclosed => Runaway
    else Onto([s[0]], Minify(s[1..]))
  }

  // ----- in place -----

  /** The state between two steps: w bytes written, everything from r on still as it was. */
  ghost predicate Halfway(orig: string, json: array<char>, w: nat, r: nat)
    reads json
  {
    && w <= r <= |orig| < json.Length && json[|orig|] == '\0'
    && (forall i {:trigger json[i]} | r <= i < |orig| :: json[i] == orig[i])
    && Minify(orig) == Onto(json[..w], Minify(orig[r..]))
  }

  /** The text is minified inside its own buffer: the write position never passes the read position,
      so no byte is overwritten before it is read. */
  method MinifyInPlace(json: array<char>, n: nat) returns (ok: bool, len: nat)
    requires n < json.Length && json[n] == '\0' && NulFree(json[..n])
    modifies json
    ensures ok == Minify(old(json[..n])).Minified?
    ensures ok ==> len <= n && json[..len] == Minify(old(json[..n])).text && json[len] == '\0'
    ensures json[n..] == old(json[n..])
  {
    ghost var orig := json[..n];
    var into: nat, r: nat := 0, 0;
    assert orig[0..] == orig && Onto("", Minify(orig)) == Minify(orig);
    ok := true;
    while r < n && ok
      invariant |orig| == n && json[n..] == old(json[n..])
      invariant ok ==> Halfway(orig, json, into, r)
      invariant !ok ==> Minify(orig) == Runaway
      decreases n - r, ok
    {
      ok, into, r := MinifyTurn(json, into, r, orig);
    }
    len := 0;
    if ok {
      assert orig[r..] == "" && json[..into] + "" == json[..into];
      ghost var text := json[..into];
      json[into] := '\0';
      assert json[..into] == text == Minify(orig).text;
      len := into;
    }
  }

  /** One turn of the loop: white space, a comment, a string literal or any other character. */
  method MinifyTurn(json: array<char>, into0: nat, r0: nat, ghost orig: string) returns (ok: bool, into: nat, r: nat)
    requires Halfway(orig, json, into0, r0) && r0 < |orig| && NulFree(orig)
    modifies json
    ensures json[|orig|..] == old(json[|orig|..])
    ensures r0 <= r
    ensures if ok then Halfway(orig, json, into, r) && r0 < r else Minify(orig) == Runaway
  {
    ok, into, r := true, into0, r0;
    Step(orig, r);
    if IsSpace(json[r]) {
      r := r + 1;
    } else if json[r] == '/' && json[r + 1] == '/' {
      r := SkipLine(json, r, orig);
    } else if json[r] == '/' && json[r + 1] == '*' {
      ok, r := SkipComment(json, r, orig);
    } else if json[r] == '\"' {
      ok, into, r := CopyLiteral(json, into, r, orig);
    } else {
      CopyByte(json, into, r, orig);
      into, r := into + 1, r + 1;
    }
  }

  /** Any character that is not white space, a quote or the start of a comment. */
  method CopyByte(json: array<char>, w: nat, r: nat, ghost orig: string)
    requires Halfway(orig, json, w, r) && r < |orig|
    requires !IsSpace(json[r]) && json[r] != '\"'
    requires json[r] == '/' ==> json[r + 1] != '/' && json[r + 1] != '*'
    modifies json
    ensures Halfway(orig, json, w + 1, r + 1) && json[|orig|..] == old(json[|orig|..])
  {
    ghost var before := json[..w];
    assert json[r] == orig[r] && (r + 1 < |orig| ==> json[r + 1] == orig[r + 1]);
    CopyStep(orig, before, w, r);
    json[w] := json[r];
    assert json[..w + 1] == before + [orig[r]];
  }

  lemma CopyStep(orig: string, written: string, w: nat, r: nat)
    requires |written| == w <= r < |orig|
    requires Minify(orig) == Onto(written, Minify(orig[r..]))
    requires !IsSpace(orig[r]) && orig[r] != '\"'
    requires orig[r] == '/' ==> At(orig, r + 1) != '/' && At(orig, r + 1) != '*'
    ensures Minify(orig) == Onto(written + [orig[r]], Minify(orig[r + 1..]))
  {
    Step(orig, r);
    if Minify(orig[r + 1..]).Minified? {
      Associate(written, [orig[r]], Minify(orig[r + 1..]).text);
    }
  }

  lemma Step(s: string, r: nat)
    requires r < |s|
    ensures s[r..][0] == s[r] && s[r..][1..] == s[r + 1..]
    ensures r + 1 < |s| ==> s[r..][1] == s[r + 1] && s[r..][2..] == s[r + 2..]
  {
  }

  method SkipLine(json: array<char>, start: nat, ghost orig: string) returns (r: nat)
    requires start < |orig| < json.Length && json[|orig|] == '\0'
    requires forall i {:trigger json[i]} | start <= i < |orig| :: json[i] == orig[i]
    requires json[start] == '/' && json[start + 1] == '/' && NulFree(orig)
    ensures start < r <= |orig| && Minify(orig[start..]) == Minify(orig[r..])
  {
    Step(orig, start);
    r := start + 1;
    while json[r] != '\0' && json[r] != '\n'
      invariant start < r <= |orig|
      invariant LineEnd(orig[r..]) == LineEnd(orig[start + 1..])
      decreases |orig| - r
    {
      Step(orig, r);
      r := r + 1;
    }
    assert r < |orig| ==> orig[r] in orig;
  }

  method SkipComment(json: array<char>, start: nat, ghost orig: string) returns (ok: bool, r: nat)
    requires start < |orig| < json.Length && json[|orig|] == '\0'
    requires forall i {:trigger json[i]} | start <= i < |orig| :: json[i] == orig[i]
    requires json[start] == '/' && json[start + 1] == '*' && NulFree(orig)
    ensures ok ==> start < r <= |orig| && Minify(orig[start..]) == Minify(orig[r..])
    ensures !ok ==> Minify(orig[start..]) == Runaway
    ensures r <= |orig| && start < r
  {
    Step(orig, start);
    r := start + 1;
    while json[r] != '\0' && !(json[r] == '*' && json[r + 1] == '/')
      invariant start < r <= |orig|
      invariant CommentEnd(orig[r..]) == CommentEnd(orig[start + 1..])
      decreases |orig| - r
    {
      Step(orig, r);
      r := r + 1;
    }
    assert r < |orig| ==> orig[r] in orig;
    ok := json[r] != '\0';
    if ok {
      Step(orig, r);
      r := r + 2;
    }
  }

  /** A string literal: read position and write position advance together. */
  method CopyLiteral(json: array<char>, w0: nat, r0: nat, ghost orig: string) returns (ok: bool, into: nat, r: nat)
    requires Halfway(orig, json, w0, r0) && r0 < |orig| && json[r0] == '\"' && NulFree(orig)
    modifies json
    ensures json[|orig|..] == old(json[|orig|..]) && r0 < r <= |orig|
    ensures ok ==> Halfway(orig, json, into, r)
    ensures !ok ==> Minify(orig) == Runaway
  {
    ghost var before := json[..w0];
    ok, r := CopyLiteralBytes(json, before, orig, w0, r0);
    into := w0 + (r - r0);
    if ok {
      CopiedText(json, before, orig, w0, r0, r);
      LiteralStep(orig, before, r0, r);
    } else {
      UnclosedLiteral(orig, before, r0);
    }
  }

  lemma UnclosedLiteral(orig: string, written: string, r0: nat)
    requires r0 < |orig| && orig[r0] == '\"' && LiteralRest(orig[r0 + 1..]) == Unclosed
    requires Minify(orig) == Onto(written, Minify(orig[r0..]))
    ensures Minify(orig) == Runaway
  {
    Step(orig, r0);
  }

  lemma CopiedText(json: array<char>, before: string, orig: string, w0: nat, r0: nat, r: nat)
    requires |before| == w0 <= r0 <= r <= |orig| < json.Length
    requires Copied(json, before, orig, w0, r0, r)
    ensures json[..w0 + (r - r0)] == before + orig[r0..r]
  {
  }

  method CopyLiteralBytes(json: array<char>, ghost before: string, ghost orig: string, w0: nat, r0: nat)
    returns (ok: bool, r: nat)
    requires |before| == w0 <= r0 < |orig| < json.Length && NulFree(orig) && json[|orig|] == '\0'
    requires Copied(json, before, orig, w0, r0, r0)
    requires forall i {:trigger json[i]} | r0 <= i < |orig| :: json[i] == orig[i]
    modifies json
    ensures r0 < r <= |orig| && Copied(json, before, orig, w0, r0, r)
    ensures forall i | r <= i < json.Length :: json[i] == old(json[i])
    ensures LiteralRest(orig[r0 + 1..]) == if ok then Literal(r - r0 - 1) else Unclosed
  {
    CopyLiteralByte(json, before, orig, w0, r0, r0);
    ok, r := true, r0 + 1;
    while json[r] != '\0' && json[r] != '\"'
      invariant r0 < r <= |orig|
      invariant forall i {:trigger json[i]} | r <= i < json.Length :: json[i] == old(json[i])
      invariant Copied(json, before, orig, w0, r0, r)
      invariant LiteralRest(orig[r0 + 1..]) == Further(r - r0 - 1, LiteralRest(orig[r..]))
      decreases |orig| - r
    {
      ghost var from := r;
      ok, r := CopyLiteralTurn(json, before, orig, w0, r0, r);
      FurtherTurn(from - r0 - 1, r - from, LiteralRest(orig[r..]));
      if !ok {
        return;
      }
    }
    assert r < |orig| ==> orig[r] in orig;
    ok := json[r] != '\0';
    if ok {
      CopyLiteralByte(json, before, orig, w0, r0, r);
      r := r + 1;
    }
  }

  lemma FurtherTurn(a: nat, b: nat, l: Literal)
    ensures Further(a, Further(b, l)) == Further(a + b, l) && Further(a, Unclosed) == Unclosed
  {
  }

  /** One character inside the literal, or a backslash and the character behind it. */
  method CopyLiteralTurn(json: array<char>, ghost before: string, ghost orig: string, w0: nat, r0: nat, r1: nat)
    returns (ok: bool, r: nat)
    requires |before| == w0 <= r0 < r1 < |orig| < json.Length && NulFree(orig) && json[|orig|] == '\0'
    requires Copied(json, before, orig, w0, r0, r1) && orig[r1] != '\"'
    requires forall i {:trigger json[i]} | r1 <= i < |orig| :: json[i] == orig[i]
    modifies json
    ensures r1 < r <= |orig| && Copied(json, before, orig, w0, r0, r)
    ensures forall i {:trigger json[i]} | r <= i < json.Length :: json[i] == old(json[i])
    ensures LiteralRest(orig[r1..]) == if ok then Further(r - r1, LiteralRest(orig[r..])) else Unclosed
  {
    ok, r := true, r1;
    LiteralTurn(orig, r1);
    if json[r] == '\\' {
      CopyLiteralByte(json, before, orig, w0, r0, r);
      r := r + 1;
    }
    assert r < |orig| ==> orig[r] in orig;
    if json[r] == '\0' {
      ok := false;
      return;
    }
    CopyLiteralByte(json, before, orig, w0, r0, r);
    r := r + 1;
  }

  lemma LiteralTurn(orig: string, r: nat)
    requires r < |orig| && orig[r] != '\"'
    ensures var rest := LiteralRest(orig[r..]);
            if orig[r] != '\\' then rest == Further(1, LiteralRest(orig[r + 1..]))
            else if r + 1 == |orig| then rest == Unclosed
            else rest == Further(2, LiteralRest(orig[r + 2..]))
  {
    assert orig[r..][1..] == orig[r + 1..];
    if r + 1 < |orig| {
      assert orig[r..][2..] == orig[r + 2..];
    }
  }

  method CopyLiteralByte(json: array<char>, ghost before: string, ghost orig: string, w0: nat, r0: nat, r: nat)
    requires |before| == w0 <= r0 <= r < |orig| < json.Length
    requires Copied(json, before, orig, w0, r0, r) && json[r] == orig[r]
    modifies json
    ensures Copied(json, before, orig, w0, r0, r + 1)
    ensures forall i | r < i < json.Length :: json[i] == old(json[i])
  {
    json[w0 + (r - r0)] := json[r];
  }

  ghost predicate Copied(json: array<char>, before: string, orig: string, w0: nat, r0: nat, r: nat)
    requires |before| == w0 <= r0 <= r <= |orig| < json.Length
    reads json
  {
    && (forall i {:trigger json[i]} | 0 <= i < w0 :: json[i] == before[i])
    && (forall i {:trigger json[i]} | w0 <= i < w0 + (r - r0) :: json[i] == orig[r0 + (i - w0)])
  }

  lemma LiteralStep(orig: string, written: string, r0: nat, r: nat)
    requires r0 < r <= |orig| && orig[r0] == '\"' && LiteralRest(orig[r0 + 1..]) == Literal(r - r0 - 1)
    requires Minify(orig) == Onto(written, Minify(orig[r0..]))
    ensures Minify(orig) == Onto(written + orig[r0..r], Minify(orig[r..]))
  {
    assert orig[r0..][1..] == orig[r0 + 1..] && orig[r0..] == orig[r0..r] + orig[r..];
    LiteralMinified(orig[r0..], orig[r0..r], orig[r..]);
    OntoOnto(written, orig[r0..r], Minify(orig[r..]));
  }

  lemma LiteralMinified(s: string, literal: string, rest: string)
    requires s == literal + rest && literal != "" && s[0] == '\"' && LiteralRest(s[1..]) == Literal(|literal| - 1)
    ensures Minify(s) == Onto(literal, Minify(rest))
  {
    PrefixOfConcat(literal, rest);
    assert s[..1 + (|literal| - 1)] == literal && s[1 + (|literal| - 1)..] == rest;
  }

  // ----- minifying printed trees -----

  predicate Spaces(w: string) {
    forall i | 0 <= i < |w| :: IsSpace(w[i])
  }

  predicate Visible(w: string) {
    forall i | 0 <= i < |w| :: !IsSpace(w[i]) && w[i] != '/' && w[i] != '\"'
  }

  lemma {:induction false} MinifySpaces(w: string, t: string)
    requires Spaces(w)
    ensures Minify(w + t) == Minify(t)
  {
    if w == "" {
      assert w + t == t;
    } else {
      assert (w + t)[1..] == w[1..] + t;
      MinifySpaces(w[1..], t);
    }
  }

  lemma {:induction false} MinifyVisible(w: string, t: string)
    requires Visible(w)
    ensures Minify(w + t) == Onto(w, Minify(t))
  {
    if w == "" {
      assert w + t == t;
    } else {
      assert (w + t)[1..] == w[1..] + t;
      MinifyVisible(w[1..], t);
      assert w == [w[0]] + w[1..];
      if Minify(t).Minified? {
        Associate([w[0]], w[1..], Minify(t).text);
      }
    }
  }

  lemma {:induction false} LiteralEscape(s: string, t: string)
    requires NulFree(s)
    ensures LiteralRest(Escape(s) + ("\"" + t)) == Literal(|Escape(s)| + 1)
  {
    if s == "" {
      assert Escape(s) + ("\"" + t) == "\"" + t;
    } else {
      Associate(EscapeChar(s[0]), Escape(s[1..]), "\"" + t);
      assert s[0] in s;
      LiteralEscapedChar(s[0], Escape(s[1..]) + ("\"" + t));
      LiteralEscape(s[1..], t);
    }
  }

  lemma LiteralEscapedChar(c: char, t: string)
    requires c != '\0'
    ensures LiteralRest(EscapeChar(c) + t) == Further(|EscapeChar(c)|, LiteralRest(t))
  {
    var e := EscapeChar(c);
    if |e| == 6 {
      var digits := e[2..];
      assert e + t == "\\u" + (digits + t);
      assert ("\\u" + (digits + t))[2..] == digits + t;
      LiteralPlain(digits, t);
    } else {
      assert (e + t)[|e|..] == t;
      assert (e + t)[0] == e[0];
      if |e| == 2 {
        assert (e + t)[1] == e[1];
      }
    }
  }

  lemma {:induction false} LiteralPlain(d: string, t: string)
    requires forall i | 0 <= i < |d| :: d[i] != '\\' && d[i] != '\"'
    ensures LiteralRest(d + t) == Further(|d|, LiteralRest(t))
  {
    if d == "" {
      assert d + t == t;
    } else {
      assert (d + t)[1..] == d[1..] + t;
      LiteralPlain(d[1..], t);
    }
  }

  /** String literals go through unchanged, escapes included. */
  lemma MinifyQuote(s: string, t: string)
    requires NulFree(s)
    ensures Minify(Quote(s) + t) == Onto(Quote(s), Minify(t))
  {
    var all := Quote(s) + t;
    assert all[1..] == Escape(s) + ("\"" + t);
    LiteralEscape(s, t);
    assert all[..|Quote(s)|] == Quote(s) && all[|Quote(s)|..] == t;
  }

  lemma {:induction false} DecimalVisible(n: nat)
    ensures Visible(Decimal(n))
  {
    if n >= 10 {
      DecimalVisible(n / 10);
    }
  }

  lemma {:induction false} TabsSpaces(n: int)
    ensures Spaces(Tabs(n))
  {
    if n > 0 {
      RepeatSpaces(n);
    }
  }

  lemma {:induction false} RepeatSpaces(n: nat)
    ensures Spaces(Repeat("\t", n))
  {
    if n > 0 {
      RepeatSpaces(n - 1);
    }
  }

  lemma OntoOnto(a: string, b: string, m: Minified)
    ensures Onto(a, Onto(b, m)) == Onto(a + b, m)
  {
    if m.Minified? {
      Associate(a, b, m.text);
    }
  }

  /** Minifying the formatted text of a tree gives its unformatted text, and goes on with what follows. */
  lemma {:induction false} MinifyPrint(v: Json, depth: nat, flat: nat, t: string)
    requires Printable(v)
    ensures Minify(Print(v, depth, true) + t) == Onto(Print(v, flat, false), Minify(t))
    decreases v
  {
    match v
    case Null => MinifyVisible("null", t);
    case Bool(b) => MinifyVisible(if b then "true" else "false", t);
    case Number(d) =>
      DecimalVisible(if d.Floor < 0 then -d.Floor else d.Floor);
      MinifyVisible(Signed(d.Floor), t);
    case String(text) => MinifyQuote(text, t);
    case Array(items) =>
      MinifyPrintItems(items, depth + 1, flat + 1, "" + ("]" + t));
      MinifyFrame("[", "", PrintItems(items, depth + 1, true), PrintItems(items, flat + 1, false), "", "]", t);
      MinifyArrayText(PrintItems(items, depth + 1, true));
    case Object(members) =>
      if members.NoMembers? {
        TabsSpaces(depth - 1);
        MinifyEmpty("\n" + Tabs(depth - 1), t);
      } else {
        TabsSpaces(depth);
        MinifyPrintMembers(members, depth + 1, flat + 1, Tabs(depth) + ("}" + t));
        MinifyFrame("{", "\n", PrintMembers(members, depth + 1, true), PrintMembers(members, flat + 1, false),
                    Tabs(depth), "}", t);
        MinifyObjectText(PrintMembers(members, flat + 1, false));
      }
  }

  lemma MinifyArrayText(p: string)
    ensures "[" + "" + p + "" + "]" == "[" + p + "]"
  {
  }

  lemma MinifyObjectText(q: string)
    ensures "{" + "" + q + "" + "}" == "{" + q + "}"
  {
  }

  lemma MinifyEmpty(w: string, t: string)
    requires Spaces(w)
    ensures Minify("{" + w + "}" + t) == Onto("{" + "" + "}", Minify(t))
  {
    assert "{" + w + "}" + t == "{" + (w + ("}" + t));
    MinifyVisible("{", w + ("}" + t));
    MinifySpaces(w, "}" + t);
    MinifyVisible("}", t);
    OntoOnto("{", "}", Minify(t));
    assert "{" + "" + "}" == "{" + "}";
  }

  lemma FrameText(open: string, nl: string, p: string, w: string, close: string, t: string)
    ensures open + nl + p + w + close + t == open + (nl + (p + (w + (close + t))))
  {
    Associate(open + nl + p + w, close, t);
    Associate(open + nl + p, w, close + t);
    Associate(open + nl, p, w + (close + t));
    Associate(open, nl, p + (w + (close + t)));
  }

  lemma MinifyFrame(open: string, nl: string, p: string, q: string, w: string, close: string, t: string)
    requires Visible(open) && Spaces(nl) && Spaces(w) && Visible(close)
    requires Minify(p + (w + (close + t))) == Onto(q, Minify(w + (close + t)))
    ensures Minify(open + nl + p + w + close + t) == Onto(open + q + close, Minify(t))
  {
    FrameText(open, nl, p, w, close, t);
    MinifyVisible(open, nl + (p + (w + (close + t))));
    MinifySpaces(nl, p + (w + (close + t)));
    MinifySpaces(w, close + t);
    MinifyVisible(close, t);
    OntoOnto(q, close, Minify(t));
    OntoOnto(open, q + close, Minify(t));
    Associate(open, q, close);
  }

  lemma {:induction false} MinifyPrintItems(items: Items, depth: nat, flat: nat, t: string)
    requires PrintableItems(items)
    ensures Minify(PrintItems(items, depth, true) + t) == Onto(PrintItems(items, flat, false), Minify(t))
    decreases items
  {
    if items.NoItems? {
      assert "" + t == t;
      assert Onto("", Minify(t)) == Minify(t);
    } else {
      var p, q := Print(items.head, depth, true), Print(items.head, flat, false);
      var p', q' := PrintItems(items.next, depth, true), PrintItems(items.next, flat, false);
      var comma := When(items.next.Item?, ",");
      var sp := When(items.next.Item?, " ");
      MinifyPrint(items.head, depth, flat, comma + (sp + (p' + t)));
      MinifyPrintItems(items.next, depth, flat, t);
      MinifyItem(p, q, comma, sp, p', q', t);
      assert "," + When(true, " ") == "," + " ";
      assert "," + When(false, " ") == ",";
    }
  }

  lemma MinifyItem(p: string, q: string, comma: string, sp: string, p': string, q': string, t: string)
    requires Visible(comma) && Spaces(sp)
    requires Minify(p + (comma + (sp + (p' + t)))) == Onto(q, Minify(comma + (sp + (p' + t))))
    requires Minify(p' + t) == Onto(q', Minify(t))
    ensures Minify(p + (comma + sp) + p' + t) == Onto(q + comma + q', Minify(t))
  {
    JsonRoundTrip.ItemsSplit(p, comma + sp, p', t);
    Associate(comma, sp, p' + t);
    MinifyVisible(comma, sp + (p' + t));
    MinifySpaces(sp, p' + t);
    OntoOnto(comma, q', Minify(t));
    OntoOnto(q, comma + q', Minify(t));
    Associate(q, comma, q');
  }

  lemma {:induction false} MinifyPrintMembers(ms: Members, depth: nat, flat: nat, t: string)
    requires PrintableMembers(ms)
    ensures Minify(PrintMembers(ms, depth, true) + t) == Onto(PrintMembers(ms, flat, false), Minify(t))
    decreases ms
  {
    if ms.NoMembers? {
      assert "" + t == t;
      assert Onto("", Minify(t)) == Minify(t);
    } else {
      var p, q := Print(ms.value, depth, true), Print(ms.value, flat, false);
      var p', q' := PrintMembers(ms.next, depth, true), PrintMembers(ms.next, flat, false);
      var comma := When(ms.next.Member?, ",");
      TabsSpaces(depth);
      MinifyPrint(ms.value, depth, flat, comma + ("\n" + (p' + t)));
      MinifyPrintMembers(ms.next, depth, flat, t);
      MinifyMember(Tabs(depth), ms.name, p, q, comma, p', q', t);
    }
  }

  lemma MinifyMember(w: string, name: string, p: string, q: string, comma: string, p': string, q': string, t: string)
    requires Spaces(w) && NulFree(name) && Visible(comma)
    requires Minify(p + (comma + ("\n" + (p' + t)))) == Onto(q, Minify(comma + ("\n" + (p' + t))))
    requires Minify(p' + t) == Onto(q', Minify(t))
    ensures Minify(w + (Quote(name) + (":" + ("\t" + (p + (comma + "\n"))))) + p' + t)
         == Onto("" + (Quote(name) + (":" + ("" + (q + (comma + ""))))) + q', Minify(t))
  {
    var end, flatEnd := comma + ("\n" + (p' + t)), comma + q';
    MinifyValueText(p, q, comma, p', q', t);
    MinifyNameText(w, name, p + end, q + flatEnd, Minify(t));
    JsonRoundTrip.MemberSplit(w, Quote(name), "\t", p, comma, "\n", p', t);
    FlatMember(Quote(name), q, comma, q');
  }

  lemma MinifyValueText(p: string, q: string, comma: string, p': string, q': string, t: string)
    requires Visible(comma)
    requires Minify(p + (comma + ("\n" + (p' + t)))) == Onto(q, Minify(comma + ("\n" + (p' + t))))
    requires Minify(p' + t) == Onto(q', Minify(t))
    ensures Minify(p + (comma + ("\n" + (p' + t)))) == Onto(q + (comma + q'), Minify(t))
  {
    MinifyVisible(comma, "\n" + (p' + t));
    MinifySpaces("\n", p' + t);
    OntoOnto(comma, q', Minify(t));
    OntoOnto(q, comma + q', Minify(t));
  }

  lemma MinifyNameText(w: string, name: string, x: string, y: string, m: Minified)
    requires Spaces(w) && NulFree(name) && Minify(x) == Onto(y, m)
    ensures Minify(w + (Quote(name) + (":" + ("\t" + x)))) == Onto(Quote(name) + (":" + y), m)
  {
    MinifySpaces(w, Quote(name) + (":" + ("\t" + x)));
    MinifyQuote(name, ":" + ("\t" + x));
    MinifyVisible(":", "\t" + x);
    MinifySpaces("\t", x);
    OntoOnto(":", y, m);
    OntoOnto(Quote(name), ":" + y, m);
  }

  lemma FlatMember(quoted: string, q: string, comma: string, q': string)
    ensures "" + (quoted + (":" + ("" + (q + (comma + ""))))) + q' == quoted + (":" + (q + (comma + q')))
  {
    assert q + (comma + q') == (q + comma) + q';
    assert "" + (q + (comma + "")) == q + comma;
    assert (":" + (q + comma)) + q' == ":" + ((q + comma) + q');
    assert (quoted + (":" + (q + comma))) + q' == quoted + ((":" + (q + comma)) + q');
    assert "" + (quoted + (":" + (q + comma))) == quoted + (":" + (q + comma));
  }

  /** cJSON_Minify on cJSON_Print's text is cJSON_PrintUnformatted's text. */
  lemma MinifyFormatted(v: Json)
    requires Printable(v)
    ensures Minify(Print(v, 0, true)) == Minified(Print(v, 0, false))
  {
    MinifyPrint(v, 0, 0, "");
    assert Print(v, 0, true) + "" == Print(v, 0, true);
    assert Print(v, 0, false) + "" == Print(v, 0, false);
  }
}
