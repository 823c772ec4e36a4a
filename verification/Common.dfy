/** Types shared by the text, hash and stream modules. */
module Common {
  datatype Option<+T> = None | Some(value: T)

  type Byte = x: int | 0 <= x < 256

  function Zeros(n: nat): seq<Byte> {
    seq(n, _ => 0)
  }

  function AsBytes(d: seq<int>): (b: seq<Byte>)
    requires forall i :: 0 <= i < |d| ==> 0 <= d[i] < 256
    ensures b == d
  {
    d
  }
}
