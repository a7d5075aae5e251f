/** Go's fixed-width numbers, optional values and map reads. */
module GoTypes {

  const TWO32 := 0x1_0000_0000
  const TWO64 := 0x1_0000_0000_0000_0000

  type uint8 = x: int | 0 <= x < 256

  type uint32 = x: int | 0 <= x < TWO32

  type uint64 = x: int | 0 <= x < TWO64

  type byte = uint8

  datatype Option<T> = None | Some(value: T)

  /** Absent keys read as zero. */
  function Lookup<K(==)>(m: map<K, int>, key: K): int {
    if key in m then m[key] else 0
  }
}
