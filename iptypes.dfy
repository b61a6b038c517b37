/** The records the pipeline of main.cpp works on. */
module IpTypes {

  /** One `uint8_t`. */
  type Octet = x: int | 0 <= x < 256

  /**
    `static_cast<uint8_t>` of an `int`: conversion to an unsigned type keeps
    the value modulo 2^8 (Dafny's `%` is never negative, as that rule needs).
  */
  function ToOctet(v: int): (r: Octet)
    ensures 0 <= v < 256 ==> r == v
    ensures (r - v) % 256 == 0
  {
    v % 256
  }

  /**
    A record as the comparator and the two fixed-octet filters use it: a
    vector of octets that they index at 0..3 without a bounds check, so at
    least four octets long.  Longer vectors are read at 0..3 only.
  */
  type Address = a: seq<Octet> | |a| >= 4 witness [0, 0, 0, 0]
}
