/** Types shared by the models: bytes and optional values. */
module Common {
  type byte = x: int | 0 <= x < 256
  type bytes = seq<byte>

  /** A 16-bit little-endian number. */
  function Uint16(lo: byte, hi: byte): nat {
    lo as nat + 0x100 * hi as nat
  }

  function Min(a: nat, b: nat): nat {
    if a < b then a else b
  }

  /** Moving the first of what is left to the end of what is done. */
  lemma MoveHead<T>(done: seq<T>, left: seq<T>)
    requires left != []
    ensures done + [left[0]] + left[1..] == done + left
  {
  }

  lemma Regroup<T>(a: seq<T>, b: seq<T>, c: seq<T>)
    ensures a + (b + c) == a + b + c
  {
  }

  datatype Option<+T> = None | Some(value: T)
}
