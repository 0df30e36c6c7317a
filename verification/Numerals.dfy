/** Numbers written in digits, independently of the code that reads or writes them. */
module Numerals {

  /** The number the digits write, the most significant one first. */
  function Positional(ds: seq<nat>, base: nat): nat
    decreases |ds|
  {
    if ds == [] then 0 else Positional(ds[..|ds| - 1], base) * base + ds[|ds| - 1]
  }

  lemma PositionalSnoc(ds: seq<nat>, d: nat, base: nat)
    ensures Positional(ds + [d], base) == Positional(ds, base) * base + d
  {
    assert (ds + [d])[..|ds|] == ds;
  }

  /** Reading on from a number that was read before. */
  function Onto(n: nat, ds: seq<nat>, base: nat): nat
    decreases |ds|
  {
    if ds == [] then n else Onto(n * base + ds[0], ds[1..], base)
  }

  lemma {:induction false} OntoPositional(front: seq<nat>, ds: seq<nat>, base: nat)
    ensures Onto(Positional(front, base), ds, base) == Positional(front + ds, base)
    decreases |ds|
  {
    if ds == [] {
      assert front + [] == front;
    } else {
      PositionalSnoc(front, ds[0], base);
      OntoPositional(front + [ds[0]], ds[1..], base);
      assert (front + [ds[0]]) + ds[1..] == front + ds;
    }
  }

  /** s writes these digits, in letters of either case beyond nine. */
  ghost predicate Writes(s: string, ds: seq<nat>, base: nat)
    requires base <= 16
  {
    && |s| == |ds|
    && forall i | 0 <= i < |s| ::
         ds[i] < base && (s[i] == "0123456789abcdef"[ds[i]] || s[i] == "0123456789ABCDEF"[ds[i]])
  }

  /** In decimal there is one way. */
  function Decimals(ds: seq<nat>): (s: string)
    requires forall i | 0 <= i < |ds| :: ds[i] < 10
    ensures |s| == |ds|
    ensures forall i | 0 <= i < |ds| :: s[i] == "0123456789"[ds[i]]
  {
    seq(|ds|, i requires 0 <= i < |ds| => "0123456789"[ds[i]])
  }
}
