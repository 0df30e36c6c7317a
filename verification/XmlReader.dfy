/** The loops of EncodeString, GetEntity, SkipWhiteSpace, ReadName and ReadText over a C string and a position in it,
    each against its specification on the text from that position on. */
module XmlReader {
  import opened CStrings
  import opened XmlBytes
  import opened XmlText
  import XmlTree

  // ----- EncodeString -----

  method EncodeStringLoop(str: string) returns (out: string)
    ensures out == EncodeString(str)
  {
    out := "";
    var i := 0;
    assert str[0..] == str;
    while i < |str|
      invariant 0 <= i <= |str|
      invariant out + EncodeString(str[i..]) == EncodeString(str)
    {
      out, i := EncodeTurn(str, i, out);
    }
    assert out + "" == out;
  }

  method EncodeTurn(str: string, i0: nat, out0: string) returns (out: string, i: nat)
    requires i0 < |str|
    ensures i0 < i <= |str| && out + EncodeString(str[i..]) == out0 + EncodeString(str[i0..])
  {
    if str[i0] == '&' && i0 < |str| - 2 && str[i0 + 1] == '#' && str[i0 + 2] == 'x' {
      EncodePassed(str, i0, out0);
      out, i := PassThrough(str, i0, out0);
    } else {
      EncodeNext(str, i0, out0);
      out, i := out0 + EncodeByte(str[i0]), i0 + 1;
    }
  }

  /** The inner loop of a reference: one character at a time, until the next is a ';' or the last. */
  method PassThrough(str: string, i0: nat, out0: string) returns (out: string, i: nat)
    requires i0 + 3 <= |str|
    ensures i == i0 + PassedThrough(str[i0..], 1) && out == out0 + str[i0..i]
  {
    out, i := out0, i0;
    assert str[i0..i0] == "" && out0 + "" == out0;
    while i < |str| - 1
      invariant i0 <= i < |str|
      invariant out == out0 + str[i0..i]
      invariant i > i0 ==> str[i] != ';' && PassedThrough(str[i0..], 1) == PassedThrough(str[i0..], i - i0)
    {
      SnocAssociate(out0 + str[i0..i], str[i], "");
      assert str[i0..i + 1] == str[i0..i] + [str[i]];
      out, i := out + [str[i]], i + 1;
      assert str[i0..][i - i0] == str[i];
      if str[i] == ';' {
        return;
      }
    }
  }

  lemma EncodePassed(str: string, i: nat, out: string)
    requires i < |str| && IsReference(str[i..])
    ensures var j := i + PassedThrough(str[i..], 1);
            (out + str[i..j]) + EncodeString(str[j..]) == out + EncodeString(str[i..])
  {
    var s, n := str[i..], PassedThrough(str[i..], 1);
    assert s[..n] == str[i..i + n] && s[n..] == str[i + n..];
    Associate(out, s[..n], EncodeString(s[n..]));
  }

  lemma EncodeNext(str: string, i: nat, out: string)
    requires i < |str| && !IsReference(str[i..])
    ensures (out + EncodeByte(str[i])) + EncodeString(str[i + 1..]) == out + EncodeString(str[i..])
  {
    assert str[i..][1..] == str[i + 1..];
    Associate(out, EncodeByte(str[i]), EncodeString(str[i + 1..]));
  }

  // ----- GetEntity -----

  /** The scan from the right as one recursion. */
  function Scan(h: string, mark: char, base: nat, mult: nat, ucs: nat): Option<nat>
    decreases |h|
  {
    if h == "" || h[|h| - 1] == mark then Some(ucs)
    else match DigitValue(h[|h| - 1], base)
      case None => None
      case Some(d) => Scan(h[..|h| - 1], mark, base, Times(mult, base), Add64(ucs, Times(mult, d)))
  }

  lemma {:induction false} DigitsSnoc(a: string, c: char, base: nat)
    ensures Digits(a + [c], base)
         == if Digits(a, base).Some? && DigitValue(c, base).Some?
            then Some(Digits(a, base).value + [DigitValue(c, base).value]) else None
  {
    if a == "" {
      assert ([] + [c])[1..] == "";
      assert DigitValue(c, base).Some? ==> [DigitValue(c, base).value] + [] == [] + [DigitValue(c, base).value];
    } else {
      assert (a + [c])[1..] == a[1..] + [c];
      DigitsSnoc(a[1..], c, base);
      if Digits(a, base).Some? && DigitValue(c, base).Some? {
        SnocFront(DigitValue(a[0], base).value, Digits(a[1..], base).value, DigitValue(c, base).value);
      }
    }
  }

  lemma SnocFront(d: nat, ds: seq<nat>, e: nat)
    ensures [d] + (ds + [e]) == ([d] + ds) + [e]
  {
  }

  lemma AccumulatedSnoc(ds: seq<nat>, d: nat, base: nat, mult: nat)
    ensures Accumulated(ds + [d], base, mult) == Add64(Times(mult, d), Accumulated(ds, base, Times(mult, base)))
  {
    assert (ds + [d])[..|ds|] == ds;
  }

  lemma AddMod(a: nat, b: nat, c: nat)
    ensures Add64(Add64(a, b), c) == Add64(a, Add64(b, c))
  {
  }

  /** The scan computes the sum of the digits behind the last mark, or fails where they are no digits. */
  lemma {:induction false} ScanIsSum(h: string, mark: char, base: nat, mult: nat, ucs: nat)
    requires ucs < M64
    ensures Scan(h, mark, base, mult, ucs)
         == match Digits(AfterLast(h, mark), base) {
              case None => None
              case Some(ds) => Some(Add64(ucs, Accumulated(ds, base, mult)))
            }
    decreases |h|
  {
    if h != "" && h[|h| - 1] != mark {
      var init, c := h[..|h| - 1], h[|h| - 1];
      var a := AfterLast(init, mark);
      DigitsSnoc(a, c, base);
      if DigitValue(c, base).Some? {
        var d := DigitValue(c, base).value;
        var next := Add64(ucs, Times(mult, d));
        ScanIsSum(init, mark, base, Times(mult, base), next);
        if Digits(a, base).Some? {
          SumSnoc(Digits(a, base).value, d, base, mult, ucs);
        }
      }
    }
  }

  lemma SumSnoc(ds: seq<nat>, d: nat, base: nat, mult: nat, ucs: nat)
    ensures Add64(Add64(ucs, Times(mult, d)), Accumulated(ds, base, Times(mult, base)))
         == Add64(ucs, Accumulated(ds + [d], base, mult))
  {
    AccumulatedSnoc(ds, d, base, mult);
    AddMod(ucs, Times(mult, d), Accumulated(ds, base, Times(mult, base)));
  }

  /** strchr for the ';'. */
  method FindSemicolon(text: string, p: nat) returns (q: nat)
    requires p <= |text|
    ensures q == p + FirstIndex(text[p..], ';')
    ensures q < |text| ==> text[p..][..q - p] == text[p..q] && text[p..][q - p + 1..] == text[q + 1..]
  {
    q := p;
    while q < |text| && text[q] != ';'
      invariant p <= q <= |text| && forall k | p <= k < q :: text[k] != ';'
    {
      q := q + 1;
    }
    var w := text[p..];
    assert forall k | 0 <= k < q - p :: w[k] == text[p + k];
    assert q < |text| ==> w[q - p] == ';';
    assert FirstIndex(w, ';') == q - p;
  }

  /** The leftward loop: `lo` is the position just right of the first mark. */
  method ScanLeft(text: string, lo: nat, semi: nat, mark: char, base: nat) returns (ucs: Option<nat>)
    requires 1 <= lo <= semi <= |text| && text[lo - 1] == mark
    ensures ucs == match Digits(AfterLast(text[lo..semi], mark), base) {
                     case None => None
                     case Some(ds) => Some(Accumulated(ds, base, 1))
                   }
  {
    ghost var h := text[lo..semi];
    ScanIsSum(h, mark, base, 1, 0);
    SumSmall(h, mark, base);
    var sum: nat, mult: nat, q := 0, 1, semi;    // q is one to the right of the character looked at
    while text[q - 1] != mark
      invariant lo <= q <= semi
      invariant Scan(text[lo..q], mark, base, mult, sum) == Scan(h, mark, base, 1, 0)
      decreases q
    {
      assert q > lo && text[lo..q][..q - 1 - lo] == text[lo..q - 1];
      var d := DigitValue(text[q - 1], base);
      if d.None? {
        return None;
      }
      sum := Add64(sum, Times(mult, d.value));
      mult := Times(mult, base);
      q := q - 1;
    }
    ucs := Some(sum);
  }

  lemma SumSmall(h: string, mark: char, base: nat)
    ensures var d := Digits(AfterLast(h, mark), base);
            d.Some? ==> Add64(0, Accumulated(d.value, base, 1)) == Accumulated(d.value, base, 1)
  {
  }

  /** The result is the position after the entity, or none for the null pointer. */
  method GetEntityAt(text: string, p: nat, encoding: Encoding) returns (value: string, next: Option<nat>)
    requires p < |text|
    ensures GetEntity(text[p..], encoding)
         == if next.Some? && p < next.value <= |text| then Got(value, text[next.value..]) else NoChar
    ensures next.Some? ==> p < next.value <= |text|
  {
    ghost var s := text[p..];
    if p + 2 < |text| && text[p + 1] == '#' {
      var hex := text[p + 2] == 'x';
      assert s[1] == text[p + 1] && s[2] == text[p + 2];
      value, next := NumericAt(text, p, if hex then 3 else 2, if hex then 'x' else '#',
                               if hex then 16 else 10, encoding);
      return;
    }
    value, next := NamedAt(text, p);
  }

  lemma NumericIs(s: string, from: nat, w: string, mark: char, base: nat, encoding: Encoding)
    requires from <= |s| && w == s[from..]
    ensures var i := FirstIndex(w, ';');
            && (i == |w| ==> Numeric(s, from, mark, base, encoding) == NoChar)
            && (i < |w| ==>
                  var d := Digits(AfterLast(w[..i], mark), base);
                  && (d.None? ==> Numeric(s, from, mark, base, encoding) == NoChar)
                  && (d.Some? ==> Numeric(s, from, mark, base, encoding)
                                  == Got(Converted(Accumulated(d.value, base, 1), encoding), w[i + 1..])))
  {
  }

  method NumericAt(text: string, p: nat, from: nat, mark: char, base: nat, encoding: Encoding)
    returns (value: string, next: Option<nat>)
    requires 1 <= from && p + from <= |text| && text[p + from - 1] == mark
    ensures Numeric(text[p..], from, mark, base, encoding)
         == if next.Some? && p < next.value <= |text| then Got(value, text[next.value..]) else NoChar
    ensures next.Some? ==> p < next.value <= |text|
  {
    assert text[p..][from..] == text[p + from..];
    NumericIs(text[p..], from, text[p + from..], mark, base, encoding);
    var ucs, semi := ScanNumber(text, p + from, mark, base);
    value, next := "", None;
    if ucs.Some? {
      value, next := Converted(ucs.value, encoding), Some(semi + 1);
    }
  }

  method ScanNumber(text: string, lo: nat, mark: char, base: nat) returns (ucs: Option<nat>, semi: nat)
    requires 1 <= lo <= |text| && text[lo - 1] == mark
    ensures lo <= semi <= |text|
    ensures var w := text[lo..];
            var i := FirstIndex(w, ';');
            && (i == |w| ==> ucs == None)
            && (i < |w| ==>
                  && semi < |text| && text[semi + 1..] == w[i + 1..]
                  && ucs == match Digits(AfterLast(w[..i], mark), base) {
                              case None => None
                              case Some(ds) => Some(Accumulated(ds, base, 1))
                            })
  {
    ucs := None;
    semi := FindSemicolon(text, lo);
    if semi < |text| {
      ucs := ScanLeft(text, lo, semi, mark, base);
    }
  }

  method NamedAt(text: string, p: nat) returns (value: string, next: Option<nat>)
    requires p < |text|
    ensures next.Some? && p < next.value <= |text| && Named(text[p..]) == Got(value, text[next.value..])
  {
    var names := [("&amp;", '&'), ("&lt;", '<'), ("&gt;", '>'), ("&quot;", '"'), ("&apos;", '\'')];
    ghost var s := text[p..];
    var i := 0;
    while i < |names|
      invariant 0 <= i <= 5 && forall k | 0 <= k < i :: !(names[k].0 <= s)
    {
      var name := names[i].0;
      if StringEqual(text, p, name) {
        assert s[|name|..] == text[p + |name|..];
        assert names[0].0 == "&amp;" && names[1].0 == "&lt;" && names[2].0 == "&gt;" && names[3].0 == "&quot;"
               && names[4].0 == "&apos;";
        return [names[i].1], Some(p + |name|);
      }
      i := i + 1;
    }
    assert names[0].0 == "&amp;" && names[1].0 == "&lt;" && names[2].0 == "&gt;" && names[3].0 == "&quot;"
           && names[4].0 == "&apos;";
    assert s[1..] == text[p + 1..];
    value, next := "", Some(p + 1);
  }

  /** The tag is what the text at p starts with. */
  predicate StringEqual(text: string, p: nat, tag: string)
    requires p <= |text|
  {
    tag <= text[p..]
  }

  // ----- GetChar and ReadText -----

  /** Where a reader's pointer ends up. */
  datatype Where = Here(p: nat) | Null | PastEnd | Lost

  function Found(text: string, value: string, w: Where): Read {
    match w
    case Here(p) => if p <= |text| then Read(value, text[p..]) else ReadOverrun
    case Null => NoText
    case PastEnd => Unended(value)
    case Lost => ReadOverrun
  }

  method GetCharAt(text: string, p: nat, encoding: Encoding) returns (value: string, w: Where)
    requires p < |text|
    ensures GetChar(text[p..], encoding)
         == match w {
              case Here(q) => if q <= |text| then Got(value, text[q..]) else Overrun
              case Lost => Overrun
              case _ => NoChar
            }
    ensures w.Here? ==> p < w.p <= |text|
  {
    ghost var s := text[p..];
    var length := StepLength(text[p..], encoding);
    if length == 1 {
      if text[p] == '&' {
        var v, next := GetEntityAt(text, p, encoding);
        return v, if next.Some? then Here(next.value) else Null;
      }
      assert s[1..] == text[p + 1..];
      return [text[p]], Here(p + 1);
    }
    value := "";
    var i := 0;
    while p + i < |text| && i < length
      invariant 0 <= i <= length && p + i <= |text| && value == text[p..p + i]
    {
      value, i := value + [text[p + i]], i + 1;
    }
    if i < length {
      return value, Lost;
    }
    assert s[..length] == text[p..p + length] && s[length..] == text[p + length..];
    w := Here(p + length);
  }

  lemma BeforeBefore(a: string, b: string, r: Read)
    ensures Before(a, Before(b, r)) == Before(a + b, r)
  {
    match r
    case Read(text, rest) => Associate(a, b, text);
    case Unended(text) => Associate(a, b, text);
    case _ =>
  }

  lemma BeforeNothing(r: Read)
    ensures Before("", r) == r
  {
    assert r.Read? ==> "" + r.text == r.text;
    assert r.Unended? ==> "" + r.text == r.text;
  }

  /** The loop that keeps whitespace. */
  method ReadTextKeeping(text: string, p0: nat, tag: string, encoding: Encoding) returns (value: string, w: Where)
    requires p0 <= |text|
    ensures Found(text, value, w) == ReadKeeping(text[p0..], tag, encoding)
    ensures w.Here? ==> w.p <= |text|
  {
    value := "";
    var p := p0;
    BeforeNothing(ReadKeeping(text[p..], tag, encoding));
    while p < |text| && !StringEqual(text, p, tag)
      invariant p0 <= p <= |text|
      invariant Before(value, ReadKeeping(text[p..], tag, encoding)) == ReadKeeping(text[p0..], tag, encoding)
      decreases |text| - p
    {
      var v, q := GetCharAt(text, p, encoding);
      if !q.Here? {
        return value, if q.Lost? then Lost else Null;
      }
      BeforeBefore(value, v, ReadKeeping(text[q.p..], tag, encoding));
      value, p := value + v, q.p;
    }
    w := LeaveText(text, p, tag, value);
  }

  method SkipWhiteSpace(text: string, p0: nat, encoding: Encoding) returns (p: nat)
    requires p0 <= |text|
    ensures p0 <= p <= |text| && text[p..] == SkipSpace(text[p0..], encoding)
  {
    p := p0;
    while p < |text|
      invariant p0 <= p <= |text|
      invariant SkipSpace(text[p..], encoding) == SkipSpace(text[p0..], encoding)
      decreases |text| - p
    {
      if encoding.EncodingUtf8? && ZeroWidth(text[p..]) {
        assert text[p..][3..] == text[p + 3..];
        p := p + 3;
      } else if IsSpace(text[p]) {
        assert text[p..][1..] == text[p + 1..];
        p := p + 1;
      } else {
        return;
      }
    }
  }

  lemma TrimTurn(s: string, whitespace: bool, tag: string, encoding: Encoding, v: string, rest: string, value: string)
    requires s != "" && !(tag <= s) && !IsSpace(s[0]) && GetChar(s, encoding) == Got(v, rest)
    ensures Before(value, Condense(s, whitespace, tag, encoding))
         == Before((if whitespace then value + " " else value) + v, Condense(rest, false, tag, encoding))
  {
    var space, r := if whitespace then " " else "", Condense(rest, false, tag, encoding);
    BeforeBefore(value, space + v, r);
    Associate(value, space, v);
    assert value + "" == value;
  }

  /** The loop that condenses whitespace. */
  method ReadTextTrimming(text: string, p0: nat, tag: string, encoding: Encoding) returns (value: string, w: Where)
    requires p0 <= |text|
    ensures Found(text, value, w) == ReadTrimming(text[p0..], tag, encoding)
    ensures w.Here? ==> w.p <= |text|
  {
    if p0 == |text| {
      return "", Null;
    }
    var p := SkipWhiteSpace(text, p0, encoding);
    value, w := CondenseFrom(text, p, tag, encoding);
  }

  method CondenseFrom(text: string, p0: nat, tag: string, encoding: Encoding) returns (value: string, w: Where)
    requires p0 <= |text|
    ensures Found(text, value, w) == Condense(text[p0..], false, tag, encoding)
    ensures w.Here? ==> w.p <= |text|
  {
    value := "";
    var whitespace, p := false, p0;
    ghost var all := Condense(text[p..], false, tag, encoding);
    BeforeNothing(all);
    while p < |text| && !StringEqual(text, p, tag)
      invariant p0 <= p <= |text|
      invariant Before(value, Condense(text[p..], whitespace, tag, encoding)) == all
      decreases |text| - p
    {
      if IsSpace(text[p]) {
        assert text[p..][1..] == text[p + 1..];
        whitespace, p := true, p + 1;
      } else {
        var v, q := GetCharAt(text, p, encoding);
        if !q.Here? {
          return value, if q.Lost? then Lost else Null;
        }
        TrimTurn(text[p..], whitespace, tag, encoding, v, text[q.p..], value);
        if whitespace {
          value, whitespace := value + " ", false;
        }
        value, p := value + v, q.p;
      }
    }
    w := LeaveText(text, p, tag, value);
  }

  /** The end of both loops: past the tag, or as far past the terminator. */
  method LeaveText(text: string, p: nat, tag: string, ghost value: string) returns (w: Where)
    requires p <= |text| && (p == |text| || StringEqual(text, p, tag))
    ensures w.Here? ==> w.p <= |text|
    ensures Found(text, value, w)
         == Before(value, if p == |text| then Unended("") else Read("", text[p..][|tag|..]))
  {
    assert value + "" == value;
    if p == |text| {
      return PastEnd;
    }
    assert text[p..][|tag|..] == text[p + |tag|..];
    w := Here(p + |tag|);
  }

  /** The position after the name, or none. */
  method ReadName(text: string, p: nat) returns (name: string, next: Option<nat>)
    requires p <= |text|
    ensures next.None? <==> XmlTree.NoName(text[p..])
    ensures next.Some? ==>
              && p < next.value == p + XmlTree.NameLength(text[p..]) <= |text|
              && name == text[p..][..XmlTree.NameLength(text[p..])]
              && text[next.value..] == text[p..][XmlTree.NameLength(text[p..])..]
  {
    name, next := "", None;
    if p < |text| && XmlTree.NameStart(text[p]) {
      var q := p;
      while q < |text| && XmlTree.NameChar(text[q])
        invariant p <= q <= |text| && forall k | p <= k < q :: XmlTree.NameChar(text[k])
      {
        q := q + 1;
      }
      ghost var s, n := text[p..], XmlTree.NameLength(text[p..]);
      assert forall k | 0 <= k < q - p :: s[k] == text[p + k];
      assert n == q - p;
      assert s[..n] == text[p..q] && s[n..] == text[q..];
      name, next := text[p..q], Some(q);
    }
  }
}
