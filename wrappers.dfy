/** Option and Result values shared by every module of the model. */
module Wrappers {

  datatype Option<+T> = None | Some(value: T) {
    function GetOr(default: T): T {
      match this
      case Some(v) => v
      case None => default
    }
  }

  /** The outcome of an operation that may raise: a value or the error it raised. */
  datatype Result<+R, +E> = Ok(value: R) | Err(error: E)
}

/** Python's `a in b` for two strings: `a` occurs as a contiguous slice of `b`. */
module Text {

  /** `a` occurs in `b` starting at index `k`. */
  predicate OccursAt(a: string, b: string, k: nat) {
    k + |a| <= |b| && b[k..k + |a|] == a
  }

  predicate IsSubstring(a: string, b: string) {
    exists k: nat | k <= |b| :: OccursAt(a, b, k)
  }

  /** Python's `a in b` finds a needle wherever it occurs, so every slice of `b` is found. */
  lemma {:induction false} SliceIsSubstring(b: string, i: nat, j: nat)
    requires i <= j <= |b|
    ensures IsSubstring(b[i..j], b)
  {
    assert OccursAt(b[i..j], b, i);
  }

  /** The empty string is contained in every string, as in Python. */
  lemma EmptyIsSubstring(b: string)
    ensures IsSubstring("", b)
  {
    assert OccursAt("", b, 0);
  }
}
