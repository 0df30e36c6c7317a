/** Writing text into arrays, the growing print buffer, and the two leaf printers both printing paths share. */
module JsonBuffer {
  import opened CStrings
  import opened JsonStrings
  import opened Json
  import JsonRoundTrip
  import Pow2

  /** a holds text from index 0 on, and its terminator. */
  ghost predicate Holds(a: array<char>, text: string)
    reads a
  {
    |text| < a.Length && a[..|text|] == text && a[|text|] == '\0'
  }

  /** strcpy without the terminator. */
  method Put(a: array<char>, at: nat, text: string)
    requires at + |text| <= a.Length
    modifies a
    ensures a[..at] == old(a[..at])
    ensures a[at..at + |text|] == text
    ensures a[at + |text|..] == old(a[at + |text|..])
  {
    var i := 0;
    while i < |text|
      invariant 0 <= i <= |text|
      invariant a[..at] == old(a[..at])
      invariant forall k {:trigger text[k]} | 0 <= k < i :: a[at + k] == text[k]
      invariant a[at + |text|..] == old(a[at + |text|..])
    {
      a[at + i] := text[i];
      i := i + 1;
    }
  }

  /** After the text s, write `text` behind it. */
  method PutAfter(a: array<char>, ghost s: string, at: nat, text: string)
    requires at == |s| && at + |text| <= a.Length && a[..at] == s
    modifies a
    ensures a[..at + |text|] == s + text
    ensures a[at + |text|..] == old(a[at + |text|..])
  {
    Put(a, at, text);
    assert a[..at + |text|] == a[..at] + a[at..at + |text|];
  }

  method StrLen(a: array<char>, from: nat, ghost text: string) returns (n: nat)
    requires from <= |text| && Holds(a, text) && NulFree(text)
    ensures from + n == |text|
  {
    n := 0;
    while a[from + n] != '\0'
      invariant from + n <= |text|
      decreases |text| - n
    {
      assert from + n < |text| ==> a[..|text|][from + n] == text[from + n];
      n := n + 1;
    }
  }

  // ----- strings -----

  /** print_string_ptr's two passes over the text: is any escape needed, and how long is the escaped text? */
  method QuoteSize(str: string) returns (flag: bool, len: nat)
    requires NulFree(str)
    ensures flag <==> exists c :: c in str && NeedsEscape(c)
    ensures len == |Escape(str)|
  {
    flag := AnyToEscape(str);
    if flag {
      len := EscapedSize(str);
    } else {
      EscapePlain(str);
      len := |str|;
    }
  }

  method AnyToEscape(str: string) returns (flag: bool)
    ensures flag <==> exists c :: c in str && NeedsEscape(c)
  {
    flag := false;
    var i := 0;
    while i < |str|
      invariant 0 <= i <= |str|
      invariant flag <==> exists c :: c in str[..i] && NeedsEscape(c)
    {
      assert str[..i + 1] == str[..i] + [str[i]];
      flag := flag || NeedsEscape(str[i]);
      i := i + 1;
    }
    assert str[..|str|] == str;
  }

  /** Two characters for those with an escape of their own, six for other control characters. */
  method EscapedSize(str: string) returns (len: nat)
    requires NulFree(str)
    ensures len == |Escape(str)|
  {
    len := 0;
    var i := 0;
    while i < |str|
      invariant 0 <= i <= |str|
      invariant len + |Escape(str[i..])| == |Escape(str)|
    {
      assert str[i..][1..] == str[i + 1..] && str[i] in str;
      var c := str[i];
      len := len + 1;
      if c == '\"' || c == '\\' || c == BACKSPACE || c == FORMFEED || c == '\n' || c == '\r' || c == '\t' {
        len := len + 1;
      } else if c as int < 32 {
        len := len + 5;
      }
      i := i + 1;
    }
  }

  /** The loop over a string that has something to escape. */
  method EscapeInto(a: array<char>, ghost s: string, at: nat, str: string) returns (q: nat)
    requires at == |s| && at + |Escape(str)| <= a.Length && a[..at] == s
    modifies a
    ensures q == at + |Escape(str)| && a[..q] == s + Escape(str)
  {
    q := at;
    var i := 0;
    assert str[..0] == "" && s + "" == s;
    while i < |str|
      invariant 0 <= i <= |str|
      invariant q == at + |Escape(str[..i])| <= a.Length
      invariant a[..q] == s + Escape(str[..i])
    {
      EscapeNext(str, i);
      PutEscaped(a, s + Escape(str[..i]), q, str[i]);
      Associate(s, Escape(str[..i]), EscapeChar(str[i]));
      q := q + |EscapeChar(str[i])|;
      i := i + 1;
    }
    assert str[..|str|] == str;
  }

  /** The quoted text and its terminator, behind the text s; `flag` chooses the verbatim copy. */
  method QuoteInto(a: array<char>, ghost s: string, at: nat, str: string, flag: bool)
    requires NulFree(str) && (flag <==> exists c :: c in str && NeedsEscape(c))
    requires at == |s| && at + |Quote(str)| < a.Length && a[..at] == s
    modifies a
    ensures Holds(a, s + Quote(str))
  {
    PutAfter(a, s, at, "\"");
    var q := at + 1;
    if !flag {
      EscapePlain(str);
      PutAfter(a, s + "\"", q, str);
      q := q + |str|;
    } else {
      q := EscapeInto(a, s + "\"", q, str);
    }
    CloseQuote(a, s, q, str);
  }

  method CloseQuote(a: array<char>, ghost s: string, q: nat, ghost str: string)
    requires q == |s + "\"" + Escape(str)| && q + 1 < a.Length && a[..q] == s + "\"" + Escape(str)
    modifies a
    ensures Holds(a, s + Quote(str))
  {
    PutAfter(a, s + "\"" + Escape(str), q, "\"");
    assert s + "\"" + Escape(str) + "\"" == s + Quote(str);
    a[q + 1] := '\0';
    assert a[..q + 1] == s + Quote(str);
  }

  lemma EscapeNext(str: string, i: nat)
    requires i < |str|
    ensures Escape(str[..i + 1]) == Escape(str[..i]) + EscapeChar(str[i])
    ensures |Escape(str[..i + 1])| <= |Escape(str)|
  {
    assert str[..i + 1] == str[..i] + [str[i]];
    EscapeConcat(str[..i], [str[i]]);
    assert Escape([str[i]]) == EscapeChar(str[i]) + "";
    assert str == str[..i + 1] + str[i + 1..];
    EscapeConcat(str[..i + 1], str[i + 1..]);
  }

  /** One character of the escaping loop. */
  method PutEscaped(a: array<char>, ghost s: string, q: nat, c: char)
    requires q == |s| && q + |EscapeChar(c)| <= a.Length && a[..q] == s
    modifies a
    ensures a[..q + |EscapeChar(c)|] == s + EscapeChar(c)
    ensures a[q + |EscapeChar(c)|..] == old(a[q + |EscapeChar(c)|..])
  {
    var text := [c];
    if !(c as int > 31 && c != '\"' && c != '\\') {
      match c {
        case '\\' => text := "\\\\";
        case '\"' => text := "\\\"";
        case '\n' => text := "\\n";
        case '\r' => text := "\\r";
        case '\t' => text := "\\t";
        case _ =>
          if c == BACKSPACE {
            text := "\\b";
          } else if c == FORMFEED {
            text := "\\f";
          } else {
            text := "\\u00" + [HexDigit(c as int / 16), HexDigit(c as int % 16)];
          }
      }
    }
    PutAfter(a, s, q, text);
  }

  lemma {:induction false} DecimalLength(n: nat, digits: nat, bound: nat)
    requires n < bound && digits >= 1 && bound == Tens(digits)
    ensures |Decimal(n)| <= digits
  {
    if n >= 10 {
      DecimalLength(n / 10, digits - 1, Tens(digits - 1));
    }
  }

  function Tens(digits: nat): nat {
    if digits == 0 then 1 else 10 * Tens(digits - 1)
  }

  lemma SignedLength(d: real)
    requires IsInt(d)
    ensures |Signed(d.Floor)| <= 11
  {
    assert Tens(5) == 10_0000;
    assert Tens(10) == 100_0000_0000;
    DecimalLength(if d.Floor < 0 then -d.Floor else d.Floor, 10, Tens(10));
  }

  // ----- the growing buffer -----

  /** Text sizes stay below this bound, where `int` sums and pow2gt do not overflow. */
  const LIMIT: nat := 0x4000_0000

  class PrintBuffer {
    var buffer: array<char>
    var offset: nat

    constructor (prebuffer: nat)
      ensures fresh(buffer) && buffer.Length == prebuffer && offset == 0
    {
      buffer := new char[prebuffer];
      offset := 0;
    }

    /** The text so far is s, and the offset stands at its end. */
    ghost predicate At(s: string)
      reads this, buffer
    {
      offset == |s| <= buffer.Length && buffer[..|s|] == s
    }

    /** s and its terminator are in the buffer; the offset has still to be moved to its end, from s0 or beyond. */
    ghost predicate Pending(s0: string, s: string)
      reads this, buffer
    {
      |s0| <= offset <= |s| && Holds(buffer, s)
    }

    /** Room for `needed` bytes behind the offset; what is in the buffer stays. */
    method Ensure(needed: nat)
      requires 0 < needed && offset + needed <= LIMIT
      modifies this`buffer
      ensures offset + needed <= buffer.Length
      ensures buffer == old(buffer) || fresh(buffer)
      ensures old(buffer.Length) <= buffer.Length && buffer[..old(buffer.Length)] == old(buffer[..])
      ensures old(offset + needed <= buffer.Length) ==> buffer == old(buffer)
      ensures old(offset + needed > buffer.Length) ==>
              buffer.Length == Pow2.Pow2Gt(offset + needed) < 2 * (offset + needed)
    {
      if offset + needed <= buffer.Length {
        assert buffer[..buffer.Length] == buffer[..];
        return;
      }
      Pow2.Pow2GtEnough(offset + needed);
      var newbuffer := new char[Pow2.Pow2Gt(offset + needed)];
      var i := 0;
      while i < buffer.Length
        invariant 0 <= i <= buffer.Length < newbuffer.Length
        invariant buffer[..] == old(buffer[..]) && newbuffer[..i] == buffer[..i]
      {
        newbuffer[i] := buffer[i];
        i := i + 1;
      }
      assert newbuffer[..i] == old(buffer[..]);
      buffer := newbuffer;
    }

    /** p->offset = update(p). */
    method Update(ghost s0: string, ghost s: string)
      requires Pending(s0, s) && NulFree(s)
      modifies this`offset
      ensures At(s)
    {
      var n := StrLen(buffer, offset, s);
      offset := offset + n;
    }

    /** ensure, write, advance. */
    method Append(ghost s: string, needed: nat, text: string)
      requires At(s) && |text| <= needed && 0 < needed && offset + needed <= LIMIT
      modifies this, buffer
      ensures At(s + text) && (buffer == old(buffer) || fresh(buffer))
    {
      Ensure(needed);
      assert buffer[..offset] == s;
      PutAfter(buffer, s, offset, text);
      offset := offset + |text|;
    }

    /** ensure and write with the terminator; the caller moves the offset. */
    method AppendPending(ghost s: string, needed: nat, text: string)
      requires At(s) && |text| < needed && offset + needed <= LIMIT
      modifies this, buffer
      ensures Pending(s, s + text) && (buffer == old(buffer) || fresh(buffer))
    {
      Ensure(needed);
      assert buffer[..offset] == s;
      PutAfter(buffer, s, offset, text);
      buffer[offset + |text|] := '\0';
      assert buffer[..|s + text|] == s + text;
    }
  }
}
