/** EncodeString lets "&#x" through, so a value that holds it does not come back: reading undoes encoding exactly
    for the values without it. */
module XmlReferencesLost {
  import opened CStrings
  import opened XmlBytes
  import opened XmlText
  import opened XmlReferences

  /** What reading back the encoded s must not do: return all of s, or more. */
  ghost predicate Shrinks(s: string, q: char, t: string, encoding: Encoding) {
    var r := ReadKeeping(EncodeString(s) + ([q] + t), [q], encoding);
    r.Read? && r.rest == t ==> |r.text| <= |s| && (!Plain(s) ==> |r.text| < |s|)
  }

  lemma {:induction false} ReadShrinks(s: string, q: char, t: string, encoding: Encoding)
    requires Clean(s, encoding) && EndMark(q)
    ensures Shrinks(s, q, t, encoding)
    decreases |s|
  {
    var u := [q] + t;
    if s == "" {
      assert "" + u == u;
    } else if !IsReference(s) {
      ReadShrinks(s[StepLength(s, encoding)..], q, t, encoding);
      StepShrinks(s, q, t, encoding);
    } else {
      var n := PassedThrough(s, 1);
      PassedMeans(s, 1);
      if s[n] == ';' {
        CleanAfterAscii(s, n, encoding);
        ReadShrinks(s[n + 1..], q, t, encoding);
        ClosedReference(s, n, q, t, encoding);
      } else {
        OpenReference(s, q, t, encoding);
      }
    }
  }

  lemma StepShrinks(s: string, q: char, t: string, encoding: Encoding)
    requires s != "" && Clean(s, encoding) && EndMark(q) && !IsReference(s)
    requires Shrinks(s[StepLength(s, encoding)..], q, t, encoding)
    ensures Shrinks(s, q, t, encoding)
  {
    var n, u := StepLength(s, encoding), [q] + t;
    EncodedStepReads(s, u, encoding);
    ReadStep(EncodeString(s) + u, [q], encoding, s[..n], EncodeString(s[n..]) + u);
    if Plain(s[n..]) {
      PlainUnlessLater(s, n, encoding);
    }
  }

  lemma {:induction false} PassedMeans(s: string, n: nat)
    requires 1 <= n < |s|
    ensures var m := PassedThrough(s, n); (m == |s| - 1 || s[m] == ';') && forall k | n <= k < m :: s[k] != ';'
    decreases |s| - n
  {
    if n < |s| - 1 && s[n] != ';' {
      PassedMeans(s, n + 1);
    }
  }

  /** The first "&#x" lies after the first character if it does not start it. */
  lemma PlainUnlessLater(s: string, n: nat, encoding: Encoding)
    requires s != "" && Clean(s, encoding) && !IsReference(s) && n == StepLength(s, encoding) && Plain(s[n..])
    ensures Plain(s)
  {
    forall i | 0 <= i < |s| ensures !IsReference(s[i..]) {
      if i == 0 {
        assert s[0..] == s;
      } else if i >= n {
        assert s[n..][i - n..] == s[i..];
      }
    }
  }

  lemma {:induction false} CleanAfterAscii(s: string, n: nat, encoding: Encoding)
    requires n < |s| && s[n] as int < 0x80 && Clean(s, encoding)
    ensures Clean(s[n + 1..], encoding)
    decreases |s|
  {
    var m := StepLength(s, encoding);
    if n == 0 {
      assert s[1..] == s[m..];
    } else {
      assert n >= m;
      assert s[m..][n - m + 1..] == s[n + 1..];
      CleanAfterAscii(s[m..], n - m, encoding);
    }
  }

  // ----- a reference with its ';' -----

  lemma ClosedReference(s: string, n: nat, q: char, t: string, encoding: Encoding)
    requires IsReference(s) && n == PassedThrough(s, 1) && s[n] == ';' && (forall k | 1 <= k < n :: s[k] != ';')
    requires Shrinks(s[n + 1..], q, t, encoding) && EndMark(q)
    ensures Shrinks(s, q, t, encoding)
  {
    assert n > 2;
    var u, h, v := [q] + t, s[3..n], EncodeString(s[n + 1..]);
    var e := EncodeString(s) + u;
    EncodedReference(s, n);
    assert s[..n] == "&#x" + h;
    RegroupReference(h, v, u);
    assert e == "&#x" + (h + ([';'] + (v + u)));
    HexReads(h, v + u, encoding);
    var d := Digits(AfterLast(h, 'x'), 16);
    if d.Some? {
      var b := Converted(Accumulated(d.value, 16, 1), encoding);
      if n == 3 {
        assert h == "" && d.value == [];
        assert |b| == 1;
      }
      ShrinksIfGot(s, e, q, t, encoding, b, v + u);
    } else {
      ShrinksIfNot(s, e, q, t, encoding);
    }
  }

  lemma EncodedReference(s: string, n: nat)
    requires IsReference(s) && n == PassedThrough(s, 1) && s[n] == ';'
    ensures EncodeString(s) == s[..n] + (";" + EncodeString(s[n + 1..]))
  {
    assert s[n..][1..] == s[n + 1..];
  }

  lemma RegroupReference(h: string, v: string, u: string)
    ensures (("&#x" + h) + (";" + v)) + u == "&#x" + (h + ([';'] + (v + u)))
  {
  }

  // ----- a reference that never ends -----

  /** All but the last character pass through, and that one is encoded. */
  lemma OpenReference(s: string, q: char, t: string, encoding: Encoding)
    requires IsReference(s) && PassedThrough(s, 1) == |s| - 1 && (forall k | 1 <= k < |s| :: s[k] != ';') && EndMark(q)
    ensures Shrinks(s, q, t, encoding)
  {
    var m := |s| - 1;
    var c := s[m];
    LastEncoded(s);
    if EncodeByte(c) == [c] {
      assert s[..m] + [c] == s;
      PlainLast(s, q, t, encoding);
    } else if c < ' ' {
      ControlLast(s, q, t, encoding);
    } else {
      NamedLast(s, q, t, encoding);
    }
  }

  lemma LastEncoded(s: string)
    requires IsReference(s) && PassedThrough(s, 1) == |s| - 1
    ensures EncodeString(s) == s[..|s| - 1] + EncodeByte(s[|s| - 1])
  {
    var l := s[|s| - 1..];
    assert l[1..] == "" && !IsReference(l);
    assert EncodeString(l) == EncodeByte(l[0]) + "";
  }

  /** The reader runs past the end mark: whatever it reads ends later than t begins. */
  lemma PlainLast(s: string, q: char, t: string, encoding: Encoding)
    requires IsReference(s) && (forall k | 1 <= k < |s| :: s[k] != ';') && EndMark(q)
    requires EncodeString(s) == s
    ensures Shrinks(s, q, t, encoding)
  {
    var e := s + ([q] + t);
    assert e[0] == s[0] && e[1] == s[1] && e[2] == s[2];
    var g := GetChar(e, encoding);
    NumericPasses(e, |s|, t);
    if g.Got? {
      ShrinksIfGot(s, e, q, t, encoding, g.bytes, g.rest);
    } else {
      ShrinksIfNot(s, e, q, t, encoding);
    }
  }

  lemma NumericPasses(e: string, n: nat, t: string)
    requires IsReference(e) && |e| == n + 1 + |t| && n >= 3 && forall k | 3 <= k <= n :: e[k] != ';'
    ensures forall encoding :: GetEntity(e, encoding).Got? ==> |GetEntity(e, encoding).rest| < |t|
  {
    var w := e[3..];
    var i := FirstIndex(w, ';');
    if i < |w| {
      assert w[i] == e[i + 3] && i + 3 > n;
    }
  }

  lemma ControlLast(s: string, q: char, t: string, encoding: Encoding)
    requires IsReference(s) && (forall k | 1 <= k < |s| :: s[k] != ';') && EndMark(q)
    requires var c := s[|s| - 1]; c < ' ' && EncodeString(s) == s[..|s| - 1] + EncodeByte(c)
    ensures Shrinks(s, q, t, encoding)
  {
    var m, c, u := |s| - 1, s[|s| - 1], [q] + t;
    ReferenceFront(s, m);
    ControlReference(s[3..m], c, u, encoding);
    assert ReadKeeping(u, [q], encoding) == Read("", t) by {
      assert u[1..] == t;
    }
    ShrinksIfGot(s, EncodeString(s) + u, q, t, encoding, [c], u);
  }

  lemma ReferenceFront(s: string, m: nat)
    requires IsReference(s) && 3 <= m <= |s|
    ensures s[..m] == "&#x" + s[3..m]
  {
  }

  lemma ControlReference(p: string, c: char, u: string, encoding: Encoding)
    requires c < ' ' && ';' !in p
    ensures GetEntity((("&#x" + p) + EncodeByte(c)) + u, encoding) == Got([c], u)
  {
    var hh := [HexDigit(c as int / 16), HexDigit(c as int % 16)];
    var h := p + "&#" + "x" + hh;
    assert EncodeByte(c) == "&#x" + hh + ";";
    RegroupControl(p, hh, u);
    LastPair(p + "&#", c, encoding);
    HexReads(h, u, encoding);
  }

  lemma LastPair(p: string, c: char, encoding: Encoding)
    requires c < ' '
    ensures var hh := [HexDigit(c as int / 16), HexDigit(c as int % 16)];
            var d := Digits(AfterLast(p + "x" + hh, 'x'), 16);
            d.Some? && Converted(Accumulated(d.value, 16, 1), encoding) == [c]
  {
    var a, b := c as int / 16, c as int % 16;
    TwoDigits(a, b);
    AfterMark(p, [HexDigit(a), HexDigit(b)]);
    AccumulatedTwo(a, b);
    ConvertedByte(c, encoding);
  }

  lemma ShrinksIfGot(s: string, e: string, q: char, t: string, encoding: Encoding, bytes: string, rest: string)
    requires e == EncodeString(s) + ([q] + t) && EndMark(q)
    requires e != "" && e[0] == '&' && GetEntity(e, encoding) == Got(bytes, rest)
    requires var r := ReadKeeping(rest, [q], encoding); r.Read? && r.rest == t ==> |bytes| + |r.text| < |s|
    ensures Shrinks(s, q, t, encoding)
  {
    ReadStep(e, [q], encoding, bytes, rest);
  }

  lemma ShrinksIfNot(s: string, e: string, q: char, t: string, encoding: Encoding)
    requires e == EncodeString(s) + ([q] + t) && EndMark(q)
    requires e != "" && e[0] == '&' && GetEntity(e, encoding) == NoChar
    ensures Shrinks(s, q, t, encoding)
  {
  }

  lemma NameEnds(c: char)
    requires c in {'&', '<', '>', '"', '\''}
    ensures var name := EncodeByte(c);
            |name| >= 4 && name[|name| - 1] == ';' && name[|name| - 2] in {'p', 's', 't'}
    ensures forall k | 0 <= k < |EncodeByte(c)| - 1 :: EncodeByte(c)[k] != ';'
  {
  }

  lemma RegroupControl(a: string, hh: string, u: string)
    ensures (("&#x" + a) + ("&#x" + hh + ";")) + u == "&#x" + ((a + "&#" + "x" + hh) + ([';'] + u))
  {
  }

  lemma RegroupNamed(a: string, l: string, u: string)
    ensures (("&#x" + a) + (l + ";")) + u == "&#x" + ((a + l) + ([';'] + u))
  {
  }

  lemma AfterMark(p: string, hh: string)
    requires AfterLast(hh, 'x') == hh && |hh| == 2 && hh[0] != 'x' && hh[1] != 'x'
    ensures AfterLast(p + "x" + hh, 'x') == hh
  {
    var s := p + "x" + hh;
    assert s[..|s| - 1][..|s| - 2] == p + "x";
    assert AfterLast(s[..|s| - 1], 'x') == "" + [hh[0]];
  }

  lemma NamedLast(s: string, q: char, t: string, encoding: Encoding)
    requires IsReference(s) && (forall k | 1 <= k < |s| :: s[k] != ';') && EndMark(q)
    requires var c := s[|s| - 1];
             c in {'&', '<', '>', '"', '\''} && EncodeString(s) == s[..|s| - 1] + EncodeByte(c)
    ensures Shrinks(s, q, t, encoding)
  {
    var m, u := |s| - 1, [q] + t;
    assert s[..m] == "&#x" + s[3..m];
    NamedReference(s[3..m], s[m], u, encoding);
    ShrinksIfNot(s, EncodeString(s) + u, q, t, encoding);
  }

  lemma NamedReference(p: string, c: char, u: string, encoding: Encoding)
    requires c in {'&', '<', '>', '"', '\''} && ';' !in p
    ensures GetEntity((("&#x" + p) + EncodeByte(c)) + u, encoding) == NoChar
  {
    var name := EncodeByte(c);
    NameEnds(c);
    var l := name[..|name| - 1];
    assert name == l + ";";
    RegroupNamed(p, l, u);
    HexReads(p + l, u, encoding);
    NotDigits(p + l);
  }

  /** A last character that is no digit spoils the reference. */
  lemma NotDigits(h: string)
    requires h != "" && h[|h| - 1] in {'p', 's', 't'}
    ensures Digits(AfterLast(h, 'x'), 16) == None
  {
    var a := AfterLast(h, 'x');
    assert a[|a| - 1] == h[|h| - 1];
    LastMatters(a);
  }

  lemma {:induction false} LastMatters(a: string)
    requires a != "" && DigitValue(a[|a| - 1], 16) == None
    ensures Digits(a, 16) == None
  {
    if |a| > 1 {
      LastMatters(a[1..]);
    }
  }

  // ----- exactly when -----

  /** For every value of whole characters: reading undoes encoding if and only if the value has no "&#x" in it. */
  lemma ReadUndoesEncodeExactly(s: string, q: char, t: string, encoding: Encoding)
    requires Clean(s, encoding) && EndMark(q)
    ensures ReadKeeping(EncodeString(s) + ([q] + t), [q], encoding) == Read(s, t) <==> Plain(s)
  {
    if Plain(s) {
      ReadUndoesEncode(s, q, t, encoding);
    } else {
      ReadShrinks(s, q, t, encoding);
    }
  }
}
