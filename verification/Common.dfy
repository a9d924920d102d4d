/** Small definitions shared by every component. */
module Common {

  datatype Option<+T> = None | Some(value: T)

  type UserId = string

  /** The 64-bit unsigned integers in which the service keeps its time stamps. */
  type u64 = x: int | 0 <= x < TWO_TO_THE_64

  const TWO_TO_THE_64: int := 0x1_0000_0000_0000_0000

  /** The unsigned difference `now - start`, which wraps around when `start` lies in the future. */
  function Since(now: u64, start: u64): u64 {
    if start <= now then now - start else now - start + TWO_TO_THE_64
  }

  function Max(a: int, b: int): int {
    if a < b then b else a
  }

  function Last<T>(s: seq<T>): T
    requires s != []
  {
    s[|s| - 1]
  }

  /** A run without its last step. */
  function Front<T>(s: seq<T>): seq<T>
    requires s != []
  {
    s[..|s| - 1]
  }

  lemma FrontOfSuffix<T>(s: seq<T>, n: nat)
    requires n < |s|
    ensures Last(s[n..]) == Last(s)
    ensures Front(s[n..]) == if n < |s| - 1 then Front(s)[n..] else []
  {
    assert forall k :: 0 <= k < |s| - n ==> s[n..][k] == s[n + k];
  }

  lemma FrontOfAppend<T>(s: seq<T>, x: T)
    ensures Front(s + [x]) == s && Last(s + [x]) == x
  {
  }
}
