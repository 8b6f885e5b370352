/** Replies as values, and the number parsers the commands rely on. */
module Replies {
  import opened Bytes
  import opened Scores

  datatype Option<+T> = None | Some(value: T)

  const TWO_63: int := 0x8000_0000_0000_0000

  type Int64 = i: int | -0x8000_0000_0000_0000 <= i < 0x8000_0000_0000_0000

  /** `str2int` and `str2dbl`: partial, and nothing more is known about them; never NaN. */
  datatype Numbers = Numbers(toInt: Bytes -> Option<Int64>, toDbl: Bytes -> Option<Score>)

  /** What a serialized response means. */
  datatype Reply =
    | Nil
    | Err(code: nat, msg: Bytes)
    | Str(text: Bytes)
    | Int(val: int)
    | Dbl(score: Score)
    | Arr(items: seq<Reply>)

  const ERR_UNKNOWN: nat := 1
  const ERR_TOO_BIG: nat := 2
  const ERR_BAD_TYP: nat := 3
  const ERR_BAD_ARG: nat := 4

  /** The bytes of a C string literal. */
  function Ascii(s: string): Bytes {
    seq(|s|, i requires 0 <= i < |s| => if (s[i] as int) < 256 then s[i] as int else 0)
  }
}
