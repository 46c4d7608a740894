/**
  Scalar helpers the board geometry is built on: the absolute value of a
  real, the engine's rounding function, and the low bit `(int)v & 1` that the
  board takes of integer-valued coordinates.
 */
module RealMath {

  function Abs(x: real): (r: real)
    ensures r >= 0.0
    ensures r == x || r == -x
  {
    if x < 0.0 then -x else x
  }

  /** `Mathf.Round`: the nearest integer, a tie going to the even neighbour.
      The three ensures clauses determine the result uniquely. */
  function Round(x: real): (n: int)
    ensures -0.5 <= n as real - x <= 0.5
    ensures x.Floor as real == x ==> n == x.Floor
    ensures Abs(n as real - x) == 0.5 ==> n % 2 == 0
  {
    var f := x.Floor;
    var frac := x - f as real;
    if frac < 0.5 then f
    else if frac > 0.5 then f + 1
    else if f % 2 == 0 then f
    else f + 1
  }

  /** The contract of `Round` determines it: any integer within 1/2 of `x`
      that is even whenever it is exactly 1/2 away is `Round(x)`. */
  lemma RoundUnique(x: real, n: int)
    requires -0.5 <= n as real - x <= 0.5
    requires Abs(n as real - x) == 0.5 ==> n % 2 == 0
    ensures n == Round(x)
  {
  }

  /** `(int)v & 1` for an integer-valued `v`: in two's complement the low bit
      of a negative number is its remainder modulo 2 taken towards minus
      infinity, which is Dafny's `%`. */
  function And1(v: int): (b: int)
    ensures b == 0 || b == 1
    ensures (v - b) % 2 == 0
  {
    v % 2
  }

  /** The low bit of the 32-bit two's-complement representation agrees with
      `And1` over the whole range of a C# `int`. */
  lemma And1IsLowBit(v: int)
    requires -0x8000_0000 <= v < 0x8000_0000
    ensures And1(v) == (((v % 0x1_0000_0000) as bv32) & 1) as int
  {
    var u := v % 0x1_0000_0000;
    assert u % 2 == v % 2;
    var b := u as bv32;
    assert (b & 1) as int == u % 2;
  }
}
