/** The Fisher-Yates `shuffle` of application/game_logic.py. */
module Shuffling {

  /**
   * Copies `s` into a fresh array and permutes the copy by swapping position
   * `m - 1` with a position chosen in `[0, m)`, for m = |s| down to 1. The
   * random choice is nondeterministic here, so the contract holds for every
   * sequence of choices. `s` is a value, so the caller's sequence is untouched.
   */
  method Shuffle<T>(s: seq<T>) returns (r: seq<T>)
    ensures |r| == |s|
    ensures multiset(r) == multiset(s)
  {
    var a := new T[|s|](k requires 0 <= k < |s| => s[k]);
    assert a[..] == s;
    var m := a.Length;
    while m > 0
      invariant 0 <= m <= a.Length
      invariant multiset(a[..]) == multiset(s)
    {
      var i :| 0 <= i <= m - 1;
      m := m - 1;
      a[m], a[i] := a[i], a[m];
    }
    r := a[..];
  }
}
