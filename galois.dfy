/** The GF(2^8) primitives the encoding-matrix builder calls. Their
    table-driven definitions live outside raid6/raid6.go, so the model takes
    them as a parameter and states the field laws the builder relies on. */
module Galois {
  import opened Errors

  /** Field elements are bytes. */
  type Byte = bv8

  /** galMultiply, galDivide and galExp. The exponent of `exp` is an ordinary
      non-negative integer, not a field element. */
  datatype Field = Field(
    mul: (Byte, Byte) -> Byte,
    div: (Byte, Byte) -> Byte,
    exp: (Byte, nat) -> Byte)

  /** The laws of GF(2^8) the builder depends on; addition is XOR, so
      `x ^ x == 0` needs no law of its own. */
  ghost predicate Laws(F: Field) {
    && (forall m: Byte :: F.mul(m, 1) == m)
    && (forall f: Byte :: f != 0 ==> F.div(f, f) == 1)
    && (forall x: Byte :: F.div(x, 1) == x)
    && (forall x: Byte :: F.exp(x, 0) == 1)
    && (forall c: nat :: c >= 1 ==> F.exp(0, c) == 0)
  }

  /** Zero absorbs multiplication and is its own quotient. */
  ghost predicate ZeroLaws(F: Field) {
    && (forall m: Byte :: F.mul(m, 0) == 0)
    && (forall f: Byte :: f != 0 ==> F.div(0, f) == 0)
  }

  /** Field addition and subtraction. */
  function Add(a: Byte, b: Byte): (s: Byte) {
    a ^ b
  }

  /** galDivide: division by zero is a failure; otherwise the quotient
      obeys the laws the division loop relies on. */
  function GalDivide(F: Field, a: Byte, b: Byte): (q: Result<Byte>)
    ensures q.Failure? <==> b == 0
    ensures q.Failure? ==> q.error == DivisionByZero
    ensures Laws(F) && b == 1 ==> q == Success(a)
    ensures Laws(F) && b != 0 && a == b ==> q == Success(1)
    ensures ZeroLaws(F) && b != 0 && a == 0 ==> q == Success(0)
  {
    if b == 0 then Failure(DivisionByZero) else Success(F.div(a, b))
  }
}
