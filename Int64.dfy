/** Signed 64-bit integers (C# `long`) and their unchecked, two's-complement
    wrap-around, as the generators' `long` arithmetic behaves. */
module Int64 {

  const MinValue: int := -0x8000_0000_0000_0000
  const MaxValue: int := 0x7fff_ffff_ffff_ffff
  const Modulus: int := 0x1_0000_0000_0000_0000

  /** True iff `x` is representable as a C# `long`. */
  predicate InRange(x: int) {
    MinValue <= x <= MaxValue
  }

  /** The `long` that unchecked C# arithmetic yields for the exact result `x`. */
  function Wrap(x: int): (r: int)
    ensures InRange(r)
    ensures (x - r) % Modulus == 0
    ensures InRange(x) ==> r == x
  {
    var q := (x - MinValue) / Modulus;
    assert x - MinValue == q * Modulus + (x - MinValue) % Modulus;
    (x - MinValue) % Modulus + MinValue
  }

  /** Subtracting one from the smallest `long` wraps to the largest. */
  lemma DecrementOfMinWraps()
    ensures Wrap(MinValue - 1) == MaxValue
  {
    assert (MinValue - 1 - MinValue) % Modulus == Modulus - 1;
  }
}
