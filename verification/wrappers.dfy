/** The usual optional value, shared by every module of the model. */
module Wrappers {

  datatype Option<+T> = None | Some(value: T) {

    /** The carried value, or `default` when there is none. */
    function GetOr(default: T): T {
      match this
      case Some(v) => v
      case None => default
    }
  }
}

/** One fact about sequences several proofs share. */
module Slices {

  lemma SliceOfSlice<T>(s: seq<T>, a: nat, b: nat, i: nat, j: nat)
    requires a <= b <= |s| && i <= j <= b - a
    ensures s[a..b][i..j] == s[a + i..a + j]
  {
    var l, r := s[a..b][i..j], s[a + i..a + j];
    assert |l| == |r|;
    assert forall k | 0 <= k < |r| :: l[k] == s[a..b][i + k] == r[k];
  }
}

/** Rounding up, which Dafny's reals do not bring along. */
module Rounding {

  function Ceil(x: real): int {
    -((-x).Floor)
  }
}
