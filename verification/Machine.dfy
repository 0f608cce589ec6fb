/** Fixed-width integers and the optional value, shared by all modules. */
module Machine {

  newtype byte = x: int | 0 <= x < 0x100
  newtype u32 = x: int | 0 <= x < 0x1_0000_0000
  newtype u64 = x: int | 0 <= x < 0x1_0000_0000_0000_0000

  const U64_MAX: int := 0xFFFF_FFFF_FFFF_FFFF

  datatype Option<+A> = None | Some(value: A)
}
