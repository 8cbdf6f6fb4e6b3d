/**
 * The Java arithmetic the components rely on: signed bytes, and integer
 * division and remainder that truncate toward zero.
 */
module JavaLang {

  /** The value of a byte as Java's signed byte type reads it. */
  function SignedByte(b: bv8): (r: int)
    ensures -128 <= r < 128
    ensures r == b as int || r == b as int - 256
  {
    if b < 128 then b as int else b as int - 256
  }

  /** Java's a / b on integers: the quotient truncated toward zero. */
  function Div(a: int, b: int): (q: int)
    requires b > 0
    ensures a >= 0 ==> q == a / b
    ensures a < 0 ==> q == -((-a) / b)
  {
    if a >= 0 then a / b else -((-a) / b)
  }

  /** Java's a % b on integers: the remainder takes the sign of a. */
  function Rem(a: int, b: int): (r: int)
    requires b > 0
    ensures a == Div(a, b) * b + r
    ensures a >= 0 ==> 0 <= r < b
    ensures a < 0 ==> -b < r <= 0
  {
    if a >= 0 then a % b else -((-a) % b)
  }

  /** A byte is even in Java's signed reading exactly when it is even as an unsigned value. */
  lemma SignedParity(b: bv8)
    ensures Rem(SignedByte(b), 2) == 0 <==> (b as int) % 2 == 0
  {
    var v := b as int;
    RemTwoIsZeroIffEven(SignedByte(b));
    assert SignedByte(b) == v || SignedByte(b) == v - 256;
    assert (v - 256) % 2 == v % 2;
  }

  /** An odd negative number has remainder -1, not 1: Java's x % 2 == 0 is still the even test. */
  lemma RemTwoIsZeroIffEven(a: int)
    ensures Rem(a, 2) == 0 <==> a % 2 == 0
    ensures a < 0 && a % 2 != 0 ==> Rem(a, 2) == -1
  {
  }
}
