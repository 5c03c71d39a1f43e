/** Bytes and wrapping 32-bit integers as the Go sources use them, and what all modules share. */
module Words {
  type Byte = x: int | 0 <= x < 256

  const U32: int := 0x1_0000_0000

  const U64: int := 0x1_0000_0000_0000_0000

  type Word = x: int | 0 <= x < 0x1_0000_0000

  /** uint32 addition. */
  function Add32(x: Word, y: Word): Word {
    if x + y < U32 then x + y else x + y - U32
  }

  /** uint32 subtraction. */
  function Sub32(x: Word, y: Word): Word {
    if y <= x then x - y else x - y + U32
  }

  /** The uint32 conversion of a length. */
  function Wrap32(n: nat): Word {
    n % U32
  }

  function Min(x: int, y: int): int {
    if x < y then x else y
  }

  datatype Option<T> = None | Some(value: T)

  /** What is still to be had goes behind what is done. */
  predicate Continues(whole: Option<seq<Byte>>, done: seq<Byte>, rest: Option<seq<Byte>>) {
    if rest.None? then whole.None? else whole == Some(done + rest.value)
  }

  lemma SliceNext<T>(s: seq<T>, i: nat, j: nat)
    requires i <= j < |s|
    ensures s[i..j + 1] == s[i..j] + [s[j]]
  {
  }

  lemma Regroup<T>(x: seq<T>, y: seq<T>, z: seq<T>)
    ensures x + (y + z) == (x + y) + z
  {
  }
}
