/** Small value-level helpers shared by the chat backend model. */
module Common {

  /** A JavaScript value that may be `null`/`undefined`. */
  datatype Option<+T> = None | Some(value: T)

  function Min(a: int, b: int): (m: int)
    ensures m <= a && m <= b && (m == a || m == b)
  {
    if a <= b then a else b
  }

  /** The start index that `Array.prototype.slice(start)` uses for an array of length `len`:
      a negative start counts from the end and is clamped at 0, a non-negative one is clamped at `len`. */
  function SliceStart(len: nat, start: int): (k: nat)
    ensures k <= len
  {
    if start < 0 then
      if len + start < 0 then 0 else len + start
    else
      Min(start, len)
  }

  /** `s.slice(start)` for an integer `start`: always a suffix of `s`; a negative `start` keeps the
      last `-start` elements, a non-negative one drops the first `start`. */
  function SliceFrom<T>(s: seq<T>, start: int): (r: seq<T>)
    ensures |r| <= |s| && r == s[|s| - |r|..]
    ensures start < 0 ==> |r| == Min(-start, |s|)
    ensures start >= 0 ==> |r| == |s| - Min(start, |s|)
  {
    s[SliceStart(|s|, start)..]
  }

  /** `s.slice(-n)`: the last `n` elements for a positive `n`. In JavaScript `-0` is read by `slice`
      as `0`, so `n == 0` gives the whole array, and a negative `n` drops the first `-n` elements. */
  function LastN<T>(s: seq<T>, n: int): (r: seq<T>)
    ensures n > 0 ==> |r| == Min(n, |s|) && r == s[|s| - |r|..]
    ensures n == 0 ==> r == s
    ensures n < 0 ==> r == s[Min(-n, |s|)..]
  {
    SliceFrom(s, -n)
  }

  /** Keeping the last `n >= 0` elements of a non-empty array keeps its last element. */
  lemma LastNKeepsLast<T>(s: seq<T>, n: int)
    requires |s| > 0 && n >= 0
    ensures |LastN(s, n)| > 0 && LastN(s, n)[|LastN(s, n)| - 1] == s[|s| - 1]
  {
  }
}
