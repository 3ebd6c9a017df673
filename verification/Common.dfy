/** Types shared by every part of the model. */
module Common {
  /** An 8-bit unsigned machine byte. */
  type Byte = bv8

  datatype Option<+T> = None | Some(value: T)

  type Id = string

  /** Milliseconds. */
  type Time = nat

  /** A remote call succeeds, fails without effect, or fails after it took effect. */
  datatype Outcome = Done | FailedBefore | FailedAfter

  /** The value of a call, or the error it returned. */
  datatype Result<+T, +E> = Ok(value: T) | Err(error: E)

  /** The number a byte stands for. */
  function AsNat(b: Byte): (n: nat)
    ensures n < 256
  {
    b as nat
  }

  lemma NatAsByte(n: nat)
    requires n < 256
    ensures AsNat(n as Byte) == n
  {}

  lemma ByteAsNat(b: Byte)
    ensures AsNat(b) as Byte == b
  {}

  lemma AsNatInjective(x: Byte, y: Byte)
    ensures AsNat(x) == AsNat(y) <==> x == y
    ensures AsNat(x) == 0 <==> x == 0
  {}
}
