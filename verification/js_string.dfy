/** The two JavaScript string operations the upload decoder relies on,
    `String.prototype.indexOf(search, position)` and
    `String.prototype.substring(start, end)`, with their position clamping. */
module JsString {

  /** A position argument clamped into `[0, len]`, as both operations do. */
  function Clamp(i: int, len: nat): (r: nat)
    ensures r <= len
    ensures 0 <= i <= len ==> r == i
    ensures i < 0 ==> r == 0
    ensures len < i ==> r == len
  {
    if i < 0 then 0 else if len < i then len else i
  }

  /** `pat` occurs in `s` starting at index `k`. */
  predicate OccursAt(s: string, pat: string, k: int)
  {
    0 <= k && k + |pat| <= |s| && s[k..k + |pat|] == pat
  }

  /** No occurrence of `pat` in `s` starts at or after `from`. */
  ghost predicate AbsentFrom(s: string, pat: string, from: int)
  {
    forall k :: from <= k ==> !OccursAt(s, pat, k)
  }

  /** `k` is the first occurrence of `pat` in `s` at or after `from`. */
  ghost predicate FirstFrom(s: string, pat: string, from: int, k: int)
  {
    from <= k && OccursAt(s, pat, k) &&
    forall j :: from <= j < k ==> !OccursAt(s, pat, j)
  }

  /** A one-character pattern occurs exactly where that character stands. */
  lemma OccursAtChar(s: string, c: char, k: int)
    ensures OccursAt(s, [c], k) <==> 0 <= k < |s| && s[k] == c
  {
    if 0 <= k < |s| {
      assert s[k..k + 1] == [s[k]];
    }
  }

  /** The linear search behind `indexOf`, starting at a non-negative index. */
  function IndexFrom(s: string, pat: string, k: nat): (r: int)
    requires k <= |s|
    decreases |s| - k
    ensures r == -1 ==> AbsentFrom(s, pat, k)
    ensures r != -1 ==> FirstFrom(s, pat, k, r)
  {
    if |s| < k + |pat| then -1
    else if s[k..k + |pat|] == pat then k
    else IndexFrom(s, pat, k + 1)
  }

  /** `s.indexOf(pat, from)`: the least index at or after the clamped `from`
      where `pat` occurs, or -1 when there is none. */
  function IndexOf(s: string, pat: string, from: int): (r: int)
    ensures -1 <= r
    ensures r == -1 <==> AbsentFrom(s, pat, Clamp(from, |s|))
    ensures r != -1 ==> FirstFrom(s, pat, Clamp(from, |s|), r)
  {
    IndexFrom(s, pat, Clamp(from, |s|))
  }

  /** `s.substring(start, end)`: both positions are clamped into `[0, |s|]`
      and swapped when the first exceeds the second. */
  function Substring(s: string, start: int, end: int): (r: string)
    ensures |r| <= |s|
    ensures 0 <= start <= end <= |s| ==> r == s[start..end]
    ensures 0 <= start <= |s| <= end ==> r == s[start..]
    ensures end < 0 ==> r == s[..Clamp(start, |s|)]
    ensures start <= 0 && 0 <= end <= |s| ==> r == s[..end]
  {
    var a := Clamp(start, |s|);
    var b := Clamp(end, |s|);
    if a <= b then s[a..b] else s[b..a]
  }

  /** The order of the two positions does not matter. */
  lemma SubstringSymmetric(s: string, start: int, end: int)
    ensures Substring(s, start, end) == Substring(s, end, start)
  {
  }
}
