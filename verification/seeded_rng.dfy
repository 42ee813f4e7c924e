/** The seeded generator (`StdRng`) as the game uses it.  Its bit stream is
    a library detail, so the stream is a parameter: `bits(seed, i)` is the
    boolean the i-th `gen::<bool>()` call yields after seeding with `seed`.
    The generator's state is the seed and the number of draws made since. */
module SeededRng {

  type BitStream = (nat, nat) -> bool

  const U64Limit: nat := 0x1_0000_0000_0000_0000

  /** An unsigned 64-bit integer (`u64`). */
  type U64 = x: nat | x < U64Limit

  datatype StdRng = StdRng(seed: U64, drawn: nat)

  /** `StdRng::seed_from_u64`: the state right after seeding. */
  function SeedFromU64(seed: U64): StdRng
  {
    StdRng(seed, 0)
  }

  /** `rng.gen::<bool>()`: yields the next boolean of the stream and advances the state by one draw. */
  function GenBool(bits: BitStream, rng: StdRng): (res: (bool, StdRng))
    ensures res.0 == bits(rng.seed, rng.drawn)
    ensures res.1 == StdRng(rng.seed, rng.drawn + 1)
  {
    (bits(rng.seed, rng.drawn), StdRng(rng.seed, rng.drawn + 1))
  }
}
