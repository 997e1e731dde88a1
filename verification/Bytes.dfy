/** Bytes, and the C convention that a string ends at its first NUL. */
module Bytes {
  newtype Byte = b: int | 0 <= b < 256

  type Text = seq<Byte>

  /** What strlen sees. */
  function CStr(s: Text): (c: Text)
    ensures c <= s && NulFree(c)
    ensures NulFree(s) ==> c == s
    ensures |c| < |s| ==> s[|c|] == 0
  {
    if s == [] then []
    else
      assert s[0] in s && s == [s[0]] + s[1..];
      assert forall b :: b in s[1..] ==> b in s;
      if s[0] == 0 then [] else
      [s[0]] + CStr(s[1..])
  }

  ghost predicate NulFree(s: Text) {
    forall b :: b in s ==> b != 0
  }

  /** The first byte, or the terminating NUL. */
  function Head(s: Text): Byte {
    if s == [] then 0 else s[0]
  }

  predicate IsDigit(b: Byte) {
    48 <= b <= 57
  }

  lemma Assoc<T>(a: seq<T>, b: seq<T>, c: seq<T>)
    ensures a + b + c == a + (b + c)
  {
  }

  /** Exclusive or, bit by bit. */
  function XorBits(a: nat, b: nat, bits: nat): nat {
    if bits == 0 then 0 else 2 * XorBits(a / 2, b / 2, bits - 1) + if a % 2 == b % 2 then 0 else 1
  }

  function Pow2(k: nat): nat {
    if k == 0 then 1 else 2 * Pow2(k - 1)
  }

  lemma {:induction false} XorTwice(a: nat, b: nat, bits: nat)
    requires a < Pow2(bits)
    ensures XorBits(a, b, bits) < Pow2(bits) && XorBits(XorBits(a, b, bits), b, bits) == a
  {
    if bits > 0 {
      XorTwice(a / 2, b / 2, bits - 1);
      var x := XorBits(a / 2, b / 2, bits - 1);
      Parity(a, b, x);
    }
  }

  lemma Parity(a: nat, b: nat, x: nat)
    ensures var r := 2 * x + if a % 2 == b % 2 then 0 else 1;
            r / 2 == x && a == 2 * (a / 2) + if r % 2 == b % 2 then 0 else 1
  {
  }
}
