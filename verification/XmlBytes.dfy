/** Bytes as TinyXML classifies them. */
module XmlBytes {
  import opened CStrings
  import opened Utf8

  datatype Encoding = EncodingUtf8 | EncodingLegacy

  /** isspace in the C locale; the extra tests for CR and LF in IsWhiteSpace add nothing to it. */
  predicate IsSpace(c: char) {
    c == ' ' || '\t' <= c <= '\r'
  }

  /** The three sequences TinyXML gives no width: U+FEFF, U+FFFE and U+FFFF. */
  predicate ZeroWidth(s: string) {
    && |s| >= 3 && s[0] == 0xEF as char
    && ((s[1] == 0xBB as char && s[2] == 0xBF as char)
        || (s[1] == 0xBF as char && (s[2] == 0xBE as char || s[2] == 0xBF as char)))
  }

  /** How many bytes one step of a reader takes at the front of s. */
  function StepLength(s: string, encoding: Encoding): (n: nat)
    requires s != ""
    ensures 1 <= n <= 4
  {
    if encoding.EncodingUtf8? then LeadLength(s[0]) else 1
  }

  /** Bytes that fall into whole characters: no announced byte is missing or ASCII. Every legacy text does. */
  predicate Clean(s: string, encoding: Encoding) {
    s == "" || var n := StepLength(s, encoding);
      && n <= |s|
      && (forall i | 1 <= i < n :: s[i] as int >= 0x80)
      && Clean(s[n..], encoding)
  }

  lemma {:induction false} LegacyIsClean(s: string)
    ensures Clean(s, EncodingLegacy)
  {
    if s != "" {
      LegacyIsClean(s[1..]);
    }
  }

  /** Well-formed UTF-8 is clean. */
  lemma {:induction false} WellFormedIsClean(s: string, cs: seq<nat>)
    requires Spells(s, cs)
    ensures Clean(s, EncodingUtf8)
    decreases cs
  {
    if cs != [] {
      var d := Decode(s);
      SpelledStep(s);
      WellFormedIsClean(s[d.size..], cs[1..]);
    }
  }

  lemma SpelledStep(s: string)
    requires Decode(s).Scalar?
    ensures s != "" && Decode(s).size <= |s| && StepLength(s, EncodingUtf8) == Decode(s).size
    ensures forall i | 1 <= i < Decode(s).size :: s[i] as int >= 0x80
  {
    var d := Decode(s);
    EncodeDecode(s);
    DecodeEncode(d.c, "");
    assert Encode(d.c) + "" == Encode(d.c);
    assert s[0] == s[..d.size][0];
    forall i | 1 <= i < d.size ensures s[i] as int >= 0x80 {
      assert s[i] == s[..d.size][i];
    }
  }
}
