/** C strings as the sources read them: a sequence of bytes (a byte is a `char` below 256) with no NUL inside.
    Reading at the length gives the terminator. */
module CStrings {

  datatype Option<T> = None | Some(value: T)

  predicate NulFree(s: string) {
    '\0' !in s
  }

  /** The byte a C program sees at index i: the terminator just past the text. */
  function At(s: string, i: nat): char {
    if i < |s| then s[i] else '\0'
  }

  function Repeat(text: string, n: nat): string {
    if n == 0 then "" else text + Repeat(text, n - 1)
  }

  lemma PrefixOfConcat(p: string, t: string)
    ensures p <= p + t
    ensures (p + t)[|p|..] == t
  {
  }

  /** Splitting after the first k characters, one at a time. */
  lemma SplitFirst(s: string, k: nat)
    requires 1 <= k <= |s|
    ensures s[..k] == [s[0]] + s[1..][..k - 1] && s[1..][k - 1..] == s[k..]
  {
  }

  lemma ConsAssociate(x: char, a: string, b: string)
    ensures ([x] + a) + b == [x] + (a + b)
  {
  }

  lemma SnocAssociate<T>(a: seq<T>, x: T, b: seq<T>)
    ensures (a + [x]) + b == a + ([x] + b)
  {
  }

  lemma Associate(a: string, b: string, c: string)
    ensures (a + b) + c == a + (b + c)
  {
  }
}
