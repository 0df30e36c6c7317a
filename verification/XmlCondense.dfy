/** Whitespace condensing: what the trimming loop of ReadText returns is the words of the text with one space
    between them. */
module XmlCondense {
  import opened CStrings
  import opened XmlBytes
  import opened XmlText

  // ----- words -----

  /** What separates words: any whitespace in raw text, only spaces in a value to be printed, since its other
      whitespace is written as references. */
  predicate Sep(c: char, raw: bool) {
    if raw then IsSpace(c) else c == ' '
  }

  function WordLength(s: string, raw: bool): (n: nat)
    ensures n <= |s| && (forall k | 0 <= k < n :: !Sep(s[k], raw)) && (n == |s| || Sep(s[n], raw))
  {
    if s == "" || Sep(s[0], raw) then 0 else 1 + WordLength(s[1..], raw)
  }

  function Words(s: string, raw: bool): seq<string>
    decreases |s|
  {
    if s == "" then []
    else if Sep(s[0], raw) then Words(s[1..], raw)
    else var n := WordLength(s, raw); [s[..n]] + Words(s[n..], raw)
  }

  function Join(ws: seq<string>): string {
    if ws == [] then "" else if |ws| == 1 then ws[0] else ws[0] + " " + Join(ws[1..])
  }

  predicate AreWords(ws: seq<string>, raw: bool) {
    forall i | 0 <= i < |ws| :: ws[i] != "" && forall k | 0 <= k < |ws[i]| :: !Sep(ws[i][k], raw)
  }

  lemma {:induction false} WordsAreWords(s: string, raw: bool)
    ensures AreWords(Words(s, raw), raw)
    decreases |s|
  {
    if s != "" {
      WordsAreWords(if Sep(s[0], raw) then s[1..] else s[WordLength(s, raw)..], raw);
    }
  }

  lemma {:induction false} WordsOfJoin(ws: seq<string>, raw: bool)
    requires AreWords(ws, raw)
    ensures Words(Join(ws), raw) == ws
  {
    if ws != [] {
      var s := Join(ws);
      if |ws| == 1 {
        FirstWord(ws[0], "", raw);
        assert ws[0] + "" == ws[0];
      } else {
        var more := Join(ws[1..]);
        assert s == ws[0] + (" " + more);
        FirstWord(ws[0], " " + more, raw);
        assert (" " + more)[1..] == more;
        WordsOfJoin(ws[1..], raw);
      }
    }
  }

  lemma FirstWord(w: string, t: string, raw: bool)
    requires AreWords([w], raw) && (t == "" || Sep(t[0], raw))
    ensures Words(w + t, raw) == [w] + Words(t, raw)
  {
    var s := w + t;
    assert [w][0] == w;
    var n := WordLength(s, raw);
    assert forall k | 0 <= k < |w| :: !Sep(s[k], raw);
    assert t != "" ==> Sep(s[|w|], raw);
    assert n == |w|;
    assert s[..n] == w && s[n..] == t;
  }

  /** Condensing twice is condensing once. */
  lemma CondensedIsFixed(s: string, raw: bool)
    ensures Join(Words(Join(Words(s, raw)), raw)) == Join(Words(s, raw))
  {
    WordsAreWords(s, raw);
    WordsOfJoin(Words(s, raw), raw);
  }

  // ----- the loop's own view: a flag for a pending space -----

  function Glue(s: string, pending: bool, raw: bool): string {
    if s == "" then ""
    else if Sep(s[0], raw) then Glue(s[1..], true, raw)
    else (if pending then " " else "") + [s[0]] + Glue(s[1..], false, raw)
  }

  function SkipSeps(s: string, raw: bool): (t: string)
    ensures |t| <= |s| && (t == "" || !Sep(t[0], raw))
  {
    if s == "" || !Sep(s[0], raw) then s else SkipSeps(s[1..], raw)
  }

  lemma GlueText(p: string, c: char, w: string, t: string)
    ensures p + [c] + ("" + w + t) == p + ([c] + w) + t
  {
  }

  lemma {:induction false} GlueWord(s: string, n: nat, pending: bool, raw: bool)
    requires 1 <= n <= |s| && forall k | 0 <= k < n :: !Sep(s[k], raw)
    ensures Glue(s, pending, raw) == (if pending then " " else "") + s[..n] + Glue(s[n..], false, raw)
    decreases n
  {
    var p := if pending then " " else "";
    if n == 1 {
      assert s[..1] == [s[0]];
    } else {
      GlueWord(s[1..], n - 1, false, raw);
      SplitFirst(s, n);
      GlueText(p, s[0], s[1..][..n - 1], Glue(s[n..], false, raw));
    }
  }

  lemma {:induction false} GlueIsJoin(s: string, pending: bool, raw: bool)
    ensures Glue(s, pending, raw)
         == if Words(s, raw) == [] then "" else (if pending || Sep(s[0], raw) then " " else "") + Join(Words(s, raw))
    decreases |s|
  {
    if s != "" {
      if Sep(s[0], raw) {
        GlueIsJoin(s[1..], true, raw);
      } else {
        var n := WordLength(s, raw);
        GlueWord(s, n, pending, raw);
        GlueIsJoin(s[n..], false, raw);
        JoinFirst(if pending then " " else "", s[..n], Words(s[n..], raw));
      }
    }
  }

  lemma JoinFirst(p: string, w: string, ws: seq<string>)
    ensures p + w + (if ws == [] then "" else " " + Join(ws)) == p + Join([w] + ws)
  {
    assert ([w] + ws)[1..] == ws;
  }

  lemma {:induction false} SkippedWords(s: string, raw: bool)
    ensures Words(SkipSeps(s, raw), raw) == Words(s, raw)
    ensures Glue(SkipSeps(s, raw), false, raw) == Join(Words(s, raw))
    decreases |s|
  {
    if s != "" && Sep(s[0], raw) {
      SkippedWords(s[1..], raw);
    } else {
      GlueIsJoin(s, false, raw);
    }
  }

  // ----- one step of the loop -----

  lemma CondenseStep(s: string, pending: bool, tag: string, encoding: Encoding, bytes: string, rest: string)
    requires s != "" && !(tag <= s) && !IsSpace(s[0]) && GetChar(s, encoding) == Got(bytes, rest)
    ensures Condense(s, pending, tag, encoding)
         == Before((if pending then " " else "") + bytes, Condense(rest, false, tag, encoding))
  {
  }

  predicate AllSpace(w: string) {
    forall i | 0 <= i < |w| :: IsSpace(w[i])
  }

  lemma {:induction false} TrailingSpace(w: string, t: string, pending: bool, encoding: Encoding)
    requires AllSpace(w)
    ensures Condense(w + ("<" + t), pending, "<", encoding) == Read("", t)
    ensures SkipSpace(w + ("<" + t), encoding) == "<" + t
  {
    var s := w + ("<" + t);
    if w == "" {
      assert s == "<" + t;
      assert s[1..] == t;
    } else {
      assert s[1..] == w[1..] + ("<" + t);
      TrailingSpace(w[1..], t, true, encoding);
    }
  }

  // ----- raw text -----

  ghost predicate NoMarkup(s: string) {
    forall i | 0 <= i < |s| :: s[i] != '&' && s[i] != '<'
  }

  lemma SplitFront(s: string, u: string, n: nat)
    requires n <= |s|
    ensures (s + u)[..n] == s[..n] && (s + u)[n..] == s[n..] + u
  {
  }

  lemma {:induction false} RawLoop(s: string, t: string, pending: bool, encoding: Encoding)
    requires Clean(s, encoding) && NoMarkup(s)
    ensures Condense(s + ("<" + t), pending, "<", encoding) == Read(Glue(s, pending, true), t)
    decreases |s|
  {
    var u := "<" + t;
    var e := s + u;
    if s == "" {
      assert e == u && u[1..] == t;
    } else {
      var n := StepLength(s, encoding);
      SplitFront(s, u, n);
      SplitFront(s, u, 1);
      if IsSpace(s[0]) {
        RawLoop(s[1..], t, true, encoding);
      } else {
        CondenseStep(e, pending, "<", encoding, s[..n], s[n..] + u);
        RawLoop(s[n..], t, false, encoding);
        GlueWord(s, n, pending, true);
      }
    }
  }

  lemma {:induction false} RawSkip(s: string, t: string, encoding: Encoding)
    requires Clean(s, encoding) && NoMarkup(s) && !(encoding.EncodingUtf8? && ZeroWidth(SkipSeps(s, true)))
    ensures SkipSpace(s + ("<" + t), encoding) == SkipSeps(s, true) + ("<" + t)
    ensures Clean(SkipSeps(s, true), encoding) && NoMarkup(SkipSeps(s, true))
    decreases |s|
  {
    var e := s + ("<" + t);
    if s != "" {
      if IsSpace(s[0]) {
        assert e[1..] == s[1..] + ("<" + t);
        RawSkip(s[1..], t, encoding);
      } else if encoding.EncodingUtf8? && s[0] == 0xEF as char {
        assert StepLength(s, encoding) == 3;
        assert e[1] == s[1] && e[2] == s[2];
      }
    } else {
      assert e == "<" + t;
    }
  }

  /** Text without markup is read as its words with single spaces between them; reading the result again
      changes nothing (CondensedIsFixed). In UTF-8 it must not begin with a sequence of no width. */
  lemma RawTextCondenses(s: string, t: string, encoding: Encoding)
    requires Clean(s, encoding) && NoMarkup(s) && !(encoding.EncodingUtf8? && ZeroWidth(SkipSeps(s, true)))
    ensures ReadTrimming(s + ("<" + t), "<", encoding) == Read(Join(Words(s, true)), t)
  {
    RawSkip(s, t, encoding);
    RawLoop(SkipSeps(s, true), t, false, encoding);
    SkippedWords(s, true);
  }

  lemma JoinHasNoMarkup(s: string)
    requires NoMarkup(s)
    ensures NoMarkup(Join(Words(s, true)))
  {
    GlueHasNoMarkup(s, false, true);
    GlueIsJoin(s, false, true);
    var j, g := Join(Words(s, true)), Glue(s, false, true);
    forall i | 0 <= i < |j|
      ensures j[i] != '&' && j[i] != '<'
    {
      assert j[i] == g[i + |g| - |j|];
    }
  }

  lemma {:induction false} GlueHasNoMarkup(s: string, pending: bool, raw: bool)
    requires NoMarkup(s)
    ensures NoMarkup(Glue(s, pending, raw))
  {
    if s != "" {
      GlueHasNoMarkup(s[1..], Sep(s[0], raw), raw);
    }
  }

  /** In legacy encoding, reading what was read, before any other tag, gives it again. */
  lemma ReadingAgainChangesNothing(s: string, t: string, u: string)
    requires NoMarkup(s)
    ensures var r := ReadTrimming(s + ("<" + t), "<", EncodingLegacy);
            r.Read? && ReadTrimming(r.text + ("<" + u), "<", EncodingLegacy) == Read(r.text, u)
  {
    var j := Join(Words(s, true));
    LegacyIsClean(s);
    RawTextCondenses(s, t, EncodingLegacy);
    JoinHasNoMarkup(s);
    LegacyIsClean(j);
    RawTextCondenses(j, u, EncodingLegacy);
    CondensedIsFixed(s, true);
  }

  // ----- printed text -----

  lemma SpaceEncoded(s: string)
    requires s != "" && s[0] == ' '
    ensures EncodeString(s) == " " + EncodeString(s[1..])
  {
  }

  lemma {:induction false} PrintedLoop(s: string, w: string, t: string, pending: bool, encoding: Encoding)
    requires Clean(s, encoding) && Plain(s) && AllSpace(w)
    ensures Condense(EncodeString(s) + (w + ("<" + t)), pending, "<", encoding) == Read(Glue(s, pending, false), t)
    decreases |s|
  {
    var u := w + ("<" + t);
    var e := EncodeString(s) + u;
    if s == "" {
      assert e == u;
      TrailingSpace(w, t, pending, encoding);
    } else {
      assert s[0..] == s;
      var n := StepLength(s, encoding);
      PlainSuffix(s, n);
      if s[0] == ' ' {
        SpaceEncoded(s);
        Associate(" ", EncodeString(s[1..]), u);
        SpaceTurn(EncodeString(s[1..]) + u, pending, encoding);
        PrintedLoop(s[1..], w, t, true, encoding);
      } else {
        PrintedTurn(s, u, pending, encoding);
        PrintedLoop(s[n..], w, t, false, encoding);
        CleanWord(s, encoding);
        GlueWord(s, n, pending, false);
      }
    }
  }

  lemma SpaceTurn(r: string, pending: bool, encoding: Encoding)
    ensures Condense(" " + r, pending, "<", encoding) == Condense(r, true, "<", encoding)
  {
    var s := " " + r;
    assert s[0] == ' ' && s[1..] == r;
  }

  lemma PrintedTurn(s: string, u: string, pending: bool, encoding: Encoding)
    requires s != "" && s[0] != ' ' && Clean(s, encoding) && !IsReference(s)
    ensures var n := StepLength(s, encoding);
            Condense(EncodeString(s) + u, pending, "<", encoding)
            == Before((if pending then " " else "") + s[..n], Condense(EncodeString(s[n..]) + u, false, "<", encoding))
  {
    var n := StepLength(s, encoding);
    EncodedStepReads(s, u, encoding);
    CondenseStep(EncodeString(s) + u, pending, "<", encoding, s[..n], EncodeString(s[n..]) + u);
  }

  lemma CleanWord(s: string, encoding: Encoding)
    requires s != "" && Clean(s, encoding) && s[0] != ' '
    ensures forall k | 0 <= k < StepLength(s, encoding) :: !Sep(s[k], false)
  {
  }

  /** In UTF-8 a value that begins, after spaces, with a sequence of no width loses it. */
  predicate LosesStart(s: string, encoding: Encoding) {
    encoding.EncodingUtf8? && ZeroWidth(SkipSeps(s, false))
  }

  lemma NothingSkipped(s: string, u: string, encoding: Encoding)
    requires s != "" && s[0] != ' ' && Clean(s, encoding) && !IsReference(s)
    requires !(encoding.EncodingUtf8? && ZeroWidth(s))
    ensures SkipSpace(EncodeString(s) + u, encoding) == EncodeString(s) + u
  {
    var e := EncodeString(s) + u;
    EncodedStepReads(s, u, encoding);
    assert !IsSpace(e[0]);
    if encoding.EncodingUtf8? && s[0] == 0xEF as char {
      EncodeHigh(s, 3);
      assert e[1] == s[1] && e[2] == s[2];
    }
  }

  lemma {:induction false} PrintedSkip(s: string, w: string, t: string, encoding: Encoding)
    requires Clean(s, encoding) && Plain(s) && AllSpace(w) && !LosesStart(s, encoding)
    ensures var v := SkipSeps(s, false);
            && Clean(v, encoding) && Plain(v)
            && SkipSpace(EncodeString(s) + (w + ("<" + t)), encoding)
               == if v == "" then "<" + t else EncodeString(v) + (w + ("<" + t))
    decreases |s|
  {
    var u := w + ("<" + t);
    var e := EncodeString(s) + u;
    if s == "" {
      assert e == u;
      TrailingSpace(w, t, false, encoding);
    } else if s[0] == ' ' {
      SpaceEncoded(s);
      assert e[1..] == EncodeString(s[1..]) + u;
      PlainSuffix(s, 1);
      PrintedSkip(s[1..], w, t, encoding);
    } else {
      assert s[0..] == s;
      NothingSkipped(s, u, encoding);
    }
  }

  /** A printed value, with whitespace between it and the next tag, is read back as its words: only its spaces
      are condensed, tabs and line ends inside it come through as they were. */
  lemma PrintedTextCondenses(s: string, w: string, t: string, encoding: Encoding)
    requires Clean(s, encoding) && Plain(s) && AllSpace(w) && !LosesStart(s, encoding)
    ensures ReadTrimming(EncodeString(s) + (w + ("<" + t)), "<", encoding) == Read(Join(Words(s, false)), t)
  {
    var v := SkipSeps(s, false);
    PrintedSkip(s, w, t, encoding);
    SkippedWords(s, false);
    if v == "" {
      TrailingSpace("", t, false, encoding);
      assert "" + ("<" + t) == "<" + t;
    } else {
      PrintedLoop(v, w, t, false, encoding);
    }
  }

  /** No space at either end and no two together. */
  ghost predicate Tight(s: string) {
    && (s != "" ==> s[0] != ' ' && s[|s| - 1] != ' ')
    && forall i | 0 <= i < |s| - 1 :: s[i] != ' ' || s[i + 1] != ' '
  }

  /** So a value survives exactly when it is tight. */
  lemma SurvivesExactly(s: string)
    ensures Join(Words(s, false)) == s <==> Tight(s)
  {
    if Tight(s) {
      if s != "" {
        GlueOfTight(s, false);
        GlueIsJoin(s, false, false);
        WordsExist(s);
        assert "" + s == s && "" + Join(Words(s, false)) == Join(Words(s, false));
      }
    } else {
      WordsAreWords(s, false);
      JoinIsTight(Words(s, false));
    }
  }

  lemma WordsExist(s: string)
    requires s != "" && s[0] != ' '
    ensures Words(s, false) != []
  {
  }

  lemma {:induction false} GlueOfTight(s: string, pending: bool)
    requires s != "" && (pending ==> s[0] != ' ') && s[|s| - 1] != ' '
    requires forall i | 0 <= i < |s| - 1 :: s[i] != ' ' || s[i + 1] != ' '
    ensures Glue(s, pending, false) == (if pending then " " else "") + s
  {
    if |s| > 1 {
      GlueOfTight(s[1..], s[0] == ' ');
      assert s == [s[0]] + s[1..];
    }
  }

  lemma {:induction false} JoinIsTight(ws: seq<string>)
    requires AreWords(ws, false)
    ensures Tight(Join(ws)) && (ws != [] ==> Join(ws) != "")
  {
    if |ws| == 1 {
      assert ws[0] != "";
    } else if |ws| > 1 {
      var more := Join(ws[1..]);
      JoinIsTight(ws[1..]);
      TightJoin(ws[0], more);
    }
  }

  lemma TightJoin(w: string, more: string)
    requires AreWords([w], false) && Tight(more) && more != ""
    ensures Tight(w + " " + more)
  {
    var s := w + " " + more;
    assert [w][0] == w;
    forall i | 0 <= i < |s| - 1 ensures s[i] != ' ' || s[i + 1] != ' ' {
      if i < |w| {
        assert s[i] == w[i];
      } else {
        assert s[i + 1] == more[i - |w|];
        if i > |w| {
          assert s[i] == more[i - |w| - 1];
        }
      }
    }
    assert s[|s| - 1] == more[|more| - 1] && s[0] == w[0];
  }
}
