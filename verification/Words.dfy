/** Fixed-width values shared by every module. A word is the source's uint32_t, a byte its
    uint8_t, a stamp its uint64_t; wrap-around is always written out with `%`. */
module Words {
  const TWO_32 := 0x1_0000_0000
  const TWO_63 := 0x8000_0000_0000_0000
  const TWO_64 := 0x1_0000_0000_0000_0000

  type byte = x: int | 0 <= x < 0x100
  type word = x: int | 0 <= x < TWO_32
  type stamp = x: int | 0 <= x < TWO_64

  datatype Option<+T> = None | Some(value: T)
}
