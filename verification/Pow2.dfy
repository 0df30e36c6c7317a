/** pow2gt: the bit-smearing round-up that sizes the print buffer. */
module Pow2 {

  /** Bitwise or on naturals. */
  function Or(a: nat, b: nat): nat
    decreases a + b
  {
    if a == 0 then b else if b == 0 then a
    else 2 * Or(a / 2, b / 2) + (if a % 2 == 1 || b % 2 == 1 then 1 else 0)
  }

  function Shift(x: nat, k: nat): nat {
    if k == 0 then x else Shift(x / 2, k - 1)
  }

  function Smear(x: nat, k: nat): nat {
    Or(x, Shift(x, k))
  }

  /** --x, five smears, x + 1. */
  function Pow2Gt(x: nat): nat
    requires x > 0
  {
    Smear(Smear(Smear(Smear(Smear(x - 1, 1), 2), 4), 8), 16) + 1
  }

  function P2(n: nat): nat {
    if n == 0 then 1 else 2 * P2(n - 1)
  }

  /** y fits n bits and the top k of them are ones (all of them when k >= n). */
  ghost predicate TopOnes(y: nat, k: nat, n: nat) {
    if n == 0 then y == 0
    else (k >= n ==> y % 2 == 1) && TopOnes(y / 2, k, n - 1)
  }

  lemma {:induction false} OnesStay(y: nat, k: nat, more: nat, n: nat)
    requires TopOnes(y, k, n) && k >= n && more >= k
    ensures TopOnes(y, more, n)
  {
    if n > 0 {
      OnesStay(y / 2, k, more, n - 1);
    }
  }

  lemma {:induction false} ShiftKeepsOnes(y: nat, j: nat, k: nat, n: nat)
    requires TopOnes(y, k, n)
    ensures TopOnes(Shift(y, j), k, if j <= n then n - j else 0)
  {
    if j > 0 {
      ShiftKeepsOnes(y / 2, j - 1, k, if n == 0 then 0 else n - 1);
    }
  }

  lemma {:induction false} OrDoublesOnes(a: nat, b: nat, k: nat, n: nat)
    requires TopOnes(a, k, n) && TopOnes(b, k, if k <= n then n - k else 0)
    ensures TopOnes(Or(a, b), 2 * k, n)
  {
    if k >= n {
      OnesStay(a, k, 2 * k, n);
    } else {
      OrDoublesOnes(a / 2, b / 2, k, n - 1);
      assert Or(a, b) / 2 == Or(a / 2, b / 2);
    }
  }

  lemma SmearDoublesOnes(y: nat, k: nat, n: nat)
    requires TopOnes(y, k, n)
    ensures TopOnes(Smear(y, k), 2 * k, n)
  {
    ShiftKeepsOnes(y, k, k, n);
    OrDoublesOnes(y, Shift(y, k), k, n);
  }

  lemma {:induction false} AllOnes(y: nat, k: nat, n: nat)
    requires TopOnes(y, k, n) && k >= n
    ensures y + 1 == P2(n)
  {
    if n > 0 {
      AllOnes(y / 2, k, n - 1);
    }
  }

  lemma {:induction false} BitLength(y: nat, bound: nat) returns (n: nat)
    requires y < P2(bound)
    ensures n <= bound && TopOnes(y, 1, n) && y < P2(n)
    ensures n > 0 ==> P2(n - 1) <= y
  {
    if y == 0 {
      n := 0;
    } else {
      n := BitLength(y / 2, bound - 1);
      n := n + 1;
    }
  }

  /** On every size up to 2^30, pow2gt is the least power of two that is not smaller. */
  lemma Pow2GtIsLeast(x: nat) returns (n: nat)
    requires 0 < x <= P2(30)
    ensures n <= 30 && Pow2Gt(x) == P2(n) && x <= P2(n)
    ensures n > 0 ==> P2(n - 1) < x
  {
    n := BitLength(x - 1, 30);
    SmearDoublesOnes(x - 1, 1, n);
    var a := Smear(x - 1, 1);
    SmearDoublesOnes(a, 2, n);
    var b := Smear(a, 2);
    SmearDoublesOnes(b, 4, n);
    var c := Smear(b, 4);
    SmearDoublesOnes(c, 8, n);
    var d := Smear(c, 8);
    SmearDoublesOnes(d, 16, n);
    AllOnes(Smear(d, 16), 32, n);
  }

  lemma P2Of30()
    ensures P2(30) == 0x4000_0000
  {
    assert P2(5) == 32;
    assert P2(10) == 1024;
    assert P2(20) == 1024 * 1024;
  }

  lemma Pow2GtEnough(x: nat)
    requires 0 < x <= 0x4000_0000
    ensures x <= Pow2Gt(x) < 2 * x
  {
    P2Of30();
    var n := Pow2GtIsLeast(x);
  }
}
