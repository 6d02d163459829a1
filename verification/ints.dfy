/** The fixed-width unsigned integers of the source. Dafny integers are
    unbounded, so the widths are subset types and every wrap-around is written
    out where the source relies on it. */
module Ints {

  const U32_MOD: int := 0x1_0000_0000

  /** `uint32_t` (and `unsigned int`). */
  type U32 = x: int | 0 <= x < 0x1_0000_0000

  /** `int64_t`, the index type of `kdb_get_data`. */
  type I64 = x: int | -0x8000_0000_0000_0000 <= x < 0x8000_0000_0000_0000

  /** `uint64_t`. */
  type U64 = x: int | 0 <= x < 0x1_0000_0000_0000_0000

}
