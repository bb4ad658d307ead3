/** Values shared by every component: bytes, optional values and results. */
module Common {

  type Byte = x: int | 0 <= x < 256

  type Bytes = seq<Byte>

  datatype Option<+T> = None | Some(value: T)

  datatype Result<+T, +E> = Ok(value: T) | Err(error: E)

  function Max(a: nat, b: nat): nat {
    if a < b then b else a
  }

  /** No element occurs twice. */
  predicate Distinct<T(==)>(s: seq<T>) {
    forall i, j :: 0 <= i < j < |s| ==> s[i] != s[j]
  }

  /** `part` is `whole` with some elements left out. */
  predicate Subsequence<T(==)>(part: seq<T>, whole: seq<T>)
    decreases |whole|
  {
    || part == []
    || (whole != [] && part[0] == whole[0] && Subsequence(part[1..], whole[1..]))
    || (whole != [] && Subsequence(part, whole[1..]))
  }
}
