/** Shared types: the fixed-width integers of the C++ program and an Option. */
module Common {

  /** An 8-bit unsigned value (`uint8_t`); a byte of the transport stream. */
  type uint8 = x: int | 0 <= x < 0x100

  /** A 16-bit unsigned value (`uint16_t`). */
  type uint16 = x: int | 0 <= x < 0x1_0000

  datatype Option<+T> = None | Some(value: T)

  /** The big-endian 16-bit number held in two bytes. */
  function BigEndian16(hi: uint8, lo: uint8): (r: uint16)
    ensures r / 0x100 == hi && r % 0x100 == lo
  {
    hi * 0x100 + lo
  }

  lemma AppendAssoc<T>(a: seq<T>, b: seq<T>, c: seq<T>)
    ensures a + b + c == a + (b + c) && a + [] == a && [] + a == a
  {
  }

  lemma ConsAppend<T>(a: seq<T>, b: seq<T>)
    requires |a| > 0
    ensures (a + b)[0] == a[0] && (a + b)[1..] == a[1..] + b
  {
  }

  function Min(a: int, b: int): int
  {
    if a <= b then a else b
  }
}
