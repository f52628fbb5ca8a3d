/** Machine words of the 32-bit kernel. Unsigned C arithmetic wraps, so every operation that can
    leave the range is written with one of the functions below. Sizes stand as literals: arithmetic
    on named constants is nonlinear to the solver. */
module Word {
  const U32_MAX: int := 0xFFFF_FFFF

  type u32 = x: int | 0 <= x < 0x1_0000_0000
  type byte = x: int | 0 <= x < 256

  function Wrap(x: int): u32 {
    x % 0x1_0000_0000
  }

  lemma WrapSmall(a: u32)
    ensures Wrap(a) == a
  {
  }

  lemma WrapAdd(a: int, b: int)
    ensures Wrap(Wrap(a) + b) == Wrap(a + b)
  {
  }

  function Min(a: int, b: int): int {
    if a < b then a else b
  }

  function Max(a: int, b: int): int {
    if a < b then b else a
  }
}
