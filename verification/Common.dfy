/** What several of the models use. */
module Common {

  datatype Option<+T> = None | Some(value: T)

  const UINT32: nat := 0x1_0000_0000

  function Uint32(i: int): nat { i % UINT32 }

  ghost predicate Distinct<T>(s: seq<T>) {
    forall j, k | 0 <= j < k < |s| :: s[j] != s[k]
  }
}
