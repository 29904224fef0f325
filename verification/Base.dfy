/** Fixed-width integers and the Option type used throughout. */
module Base {

  const TWO_32: int := 0x1_0000_0000
  const TWO_64: int := 0x1_0000_0000_0000_0000

  type U32 = x: int | 0 <= x < TWO_32
  type U64 = x: int | 0 <= x < TWO_64
  type Byte = x: int | 0 <= x < 256

  /** The six argument registers of a system call. */
  type Args = s: seq<U64> | |s| == 6 witness [0, 0, 0, 0, 0, 0]

  type Pid = nat

  datatype Option<+T> = None | Some(value: T)

  function Get<K, V>(m: map<K, V>, k: K): Option<V> {
    if k in m then Some(m[k]) else None
  }
}
