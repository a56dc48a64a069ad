/** Small definitions that several modules share. */
module Common {

  type byte = x: int | 0 <= x < 256
  type Int32 = x: int | -0x8000_0000 <= x < 0x8000_0000

  datatype Option<+T> = None | Some(value: T)

  function Abs(x: int): nat { if x < 0 then -x else x }

  /** One for a fact that holds, to say how many of several facts hold. */
  ghost function Count(b: bool): nat { if b then 1 else 0 }

  lemma Associate<T>(x: seq<T>, y: seq<T>, z: seq<T>)
    ensures x + y + z == x + (y + z)
    ensures y != [] ==> |z| < |x + y + z|
  {}
}
