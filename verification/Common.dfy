// What several modules share.
module Common {
  datatype Option<+T> = None | Some(value: T)

  // Thread numbers or block addresses of which none occurs twice.
  ghost predicate Distinct(s: seq<nat>) {
    forall i, j | 0 <= i < j < |s| :: s[i] != s[j]
  }

  function Pow2(n: nat): (p: nat)
    ensures p >= 1
  {
    if n == 0 then 1 else 2 * Pow2(n - 1)
  }
}
