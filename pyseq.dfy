/** Python's indexing and slicing of strings and lists.  The editor slices with
    negative and out-of-range bounds (`p` at cursor 0, `x` on a one-character
    text, an empty text), so these are written out rather than replaced by
    Dafny's `s[i..j]`, which demands in-range bounds. */
module PySeq {

  /** The position a slice bound `i` stands for in a sequence of length `n`:
      a negative bound counts from the end, and both ends are clipped. */
  function Bound(i: int, n: nat): (r: nat)
    ensures r <= n
    ensures 0 <= i <= n ==> r == i
    ensures i < 0 <= n + i ==> r == n + i
    ensures n + i < 0 ==> r == 0
    ensures n < i ==> r == n
  {
    if i < 0 then (if -i <= n then n + i else 0)
    else if i <= n then i
    else n
  }

  /** `s[i:j]`: empty when the normalised bounds cross. */
  function Slice<T>(s: seq<T>, i: int, j: int): (r: seq<T>)
    ensures 0 <= i <= j <= |s| ==> r == s[i..j]
    ensures |r| <= |s|
  {
    var a, b := Bound(i, |s|), Bound(j, |s|);
    if a <= b then s[a..b] else []
  }

  /** `s[:j]` */
  function Take<T>(s: seq<T>, j: int): (r: seq<T>)
    ensures 0 <= j <= |s| ==> r == s[..j]
    ensures |r| == Bound(j, |s|)
  {
    s[..Bound(j, |s|)]
  }

  /** `s[i:]` */
  function Drop<T>(s: seq<T>, i: int): (r: seq<T>)
    ensures 0 <= i <= |s| ==> r == s[i..]
    ensures |r| == |s| - Bound(i, |s|)
  {
    s[Bound(i, |s|)..]
  }

  /** `s[i]`, which Python accepts for `-|s| <= i < |s|` and rejects with
      IndexError otherwise. */
  function At<T>(s: seq<T>, i: int): (r: T)
    requires -|s| <= i < |s|
    ensures 0 <= i ==> r == s[i]
    ensures i < 0 ==> r == s[|s| + i]
  {
    if i < 0 then s[|s| + i] else s[i]
  }

  /** `s.endswith(suffix)` */
  predicate EndsWith(s: string, suffix: string)
    ensures EndsWith(s, suffix) <==>
      |suffix| <= |s| && forall k :: 0 <= k < |suffix| ==> s[|s| - |suffix| + k] == suffix[k]
  {
    |suffix| <= |s| && s[|s| - |suffix|..] == suffix
  }
}
