/** UTF-8 as both programs write it: low six bits at a time, last byte first, then the lead mark.
    `(c | 0x80) & 0xBF` on a value keeps its low six bits under the mark 0x80, which is `0x80 + c % 64`. */
module Utf8 {

  /** A Unicode scalar value (section 3 of RFC 3629): at most 0x10FFFF and not a surrogate. */
  predicate IsScalar(c: nat) {
    c <= 0x10FFFF && !(0xD800 <= c <= 0xDFFF)
  }

  function Continuation(c: nat): char {
    (0x80 + c % 64) as char
  }

  /** The bytes for c below 0x200000. */
  function Encode(c: nat): (bytes: string)
    requires c < 0x20_0000
    ensures 1 <= |bytes| <= 4
  {
    if c < 0x80 then [c as char]
    else if c < 0x800 then [(0xC0 + c / 64) as char, Continuation(c)]
    else if c < 0x1_0000 then [(0xE0 + c / 64 / 64) as char, Continuation(c / 64), Continuation(c)]
    else [(0xF0 + c / 64 / 64 / 64) as char, Continuation(c / 64 / 64), Continuation(c / 64), Continuation(c)]
  }

  predicate IsContinuation(b: char) {
    0x80 <= b as int < 0xC0
  }

  /** The number of bytes a lead byte announces, as tinyxml's utf8ByteTable has it: bytes that cannot lead count 1. */
  function LeadLength(b: char): (n: nat) {
    if 0xC2 <= b as int < 0xE0 then 2
    else if 0xE0 <= b as int < 0xF0 then 3
    else if 0xF0 <= b as int < 0xF5 then 4
    else 1
  }

  /** A decoder written from section 3 of RFC 3629, not from the encoder: the first scalar value of `s`
      and the number of its bytes, or nothing when the bytes are not well-formed (overlong, surrogate, truncated). */
  datatype Decoded = Scalar(c: nat, size: nat) | Malformed

  function Decode(s: string): (d: Decoded)
    ensures d.Scalar? ==> 1 <= d.size <= |s|
  {
    if s == "" then Malformed
    else if s[0] as int < 0x80 then Scalar(s[0] as int, 1)
    else if 0xC0 <= s[0] as int < 0xE0 && |s| >= 2 && IsContinuation(s[1]) then
      Checked((s[0] as int - 0xC0) * 0x40 + Low(s[1]), 2, 0x80)
    else if 0xE0 <= s[0] as int < 0xF0 && |s| >= 3 && IsContinuation(s[1]) && IsContinuation(s[2]) then
      Checked((s[0] as int - 0xE0) * 0x1000 + Low(s[1]) * 0x40 + Low(s[2]), 3, 0x800)
    else if 0xF0 <= s[0] as int < 0xF8 && |s| >= 4
            && IsContinuation(s[1]) && IsContinuation(s[2]) && IsContinuation(s[3]) then
      Checked((s[0] as int - 0xF0) * 0x4_0000 + Low(s[1]) * 0x1000 + Low(s[2]) * 0x40 + Low(s[3]), 4, 0x1_0000)
    else Malformed
  }

  function Low(b: char): nat
    requires IsContinuation(b)
  {
    b as int - 0x80
  }

  function Checked(c: nat, size: nat, least: nat): Decoded {
    if c >= least && IsScalar(c) then Scalar(c, size) else Malformed
  }

  /** Every scalar value survives the trip through its bytes, whatever follows them; the lead byte announces
      how many bytes there are and all others are continuation bytes. */
  lemma DecodeEncode(c: nat, t: string)
    requires IsScalar(c)
    ensures Decode(Encode(c) + t) == Scalar(c, |Encode(c)|)
    ensures LeadLength(Encode(c)[0]) == |Encode(c)|
    ensures forall i | 1 <= i < |Encode(c)| :: IsContinuation(Encode(c)[i])
  {
    var s := Encode(c) + t;
    assert s[..|Encode(c)|] == Encode(c);
    if 0x80 <= c < 0x800 {
      assert s[0] == Encode(c)[0] && s[1] == Encode(c)[1];
    } else if 0x800 <= c < 0x1_0000 {
      assert s[0] == Encode(c)[0] && s[1] == Encode(c)[1] && s[2] == Encode(c)[2];
      assert c == c / 64 / 64 * 0x1000 + c / 64 % 64 * 0x40 + c % 64;
    } else if 0x1_0000 <= c {
      assert s[0] == Encode(c)[0] && s[1] == Encode(c)[1] && s[2] == Encode(c)[2] && s[3] == Encode(c)[3];
      assert c == c / 64 / 64 / 64 * 0x4_0000 + c / 64 / 64 % 64 * 0x1000 + c / 64 % 64 * 0x40 + c % 64;
    }
  }

  /** A byte announces several bytes exactly if some scalar value is written in that many behind it. */
  lemma LeadLengthExactly(b: char, n: nat)
    requires b as int < 0x100 && n > 1
    ensures LeadLength(b) == n <==> exists c: nat :: IsScalar(c) && Encode(c)[0] == b && |Encode(c)| == n
  {
    if LeadLength(b) == n {
      var lead := b as int;
      var c := if n == 2 then (lead - 0xC0) * 0x40
               else if lead == 0xE0 then 0x800
               else if n == 3 then (lead - 0xE0) * 0x1000
               else if lead == 0xF0 then 0x1_0000
               else (lead - 0xF0) * 0x4_0000;
      assert IsScalar(c) && Encode(c)[0] == b && |Encode(c)| == n;
    }
    forall c: nat | IsScalar(c) && Encode(c)[0] == b && |Encode(c)| == n
      ensures LeadLength(b) == n
    {
      DecodeEncode(c, "");
    }
  }

  /** Only what the encoder writes for a scalar value decodes: well-formed bytes have one spelling. */
  lemma EncodeDecode(s: string)
    requires Decode(s).Scalar?
    ensures IsScalar(Decode(s).c) && Decode(s).size <= |s|
    ensures Encode(Decode(s).c) == s[..Decode(s).size]
  {
    var c := Decode(s).c;
    if Decode(s).size == 2 {
      assert c / 64 == s[0] as int - 0xC0 && c % 64 == Low(s[1]);
    } else if Decode(s).size == 3 {
      assert c / 64 == (s[0] as int - 0xE0) * 64 + Low(s[1]) && c % 64 == Low(s[2]);
      assert c / 64 / 64 == s[0] as int - 0xE0 && c / 64 % 64 == Low(s[1]);
    } else if Decode(s).size == 4 {
      assert c / 64 == (s[0] as int - 0xF0) * 0x1000 + Low(s[1]) * 64 + Low(s[2]) && c % 64 == Low(s[3]);
      assert c / 64 / 64 == (s[0] as int - 0xF0) * 64 + Low(s[1]) && c / 64 % 64 == Low(s[2]);
      assert c / 64 / 64 / 64 == s[0] as int - 0xF0 && c / 64 / 64 % 64 == Low(s[1]);
    }
  }

  /** The bytes are exactly the scalar values cs, one well-formed sequence each. */
  predicate Spells(s: string, cs: seq<nat>) {
    if cs == [] then s == ""
    else
      && Decode(s).Scalar? && Decode(s).c == cs[0] && Decode(s).size <= |s|
      && Spells(s[Decode(s).size..], cs[1..])
  }

  lemma SpellsMore(c: nat, s: string, cs: seq<nat>)
    requires IsScalar(c) && Spells(s, cs)
    ensures Spells(Encode(c) + s, [c] + cs)
  {
    DecodeEncode(c, s);
    assert (Encode(c) + s)[|Encode(c)|..] == s;
    assert ([c] + cs)[1..] == cs;
  }
}
