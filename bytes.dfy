/**
 * Byte strings and the first-occurrence search that Python's `bytes.find`
 * performs on them.
 */
module Bytes {

  type byte = x: int | 0 <= x < 256

  type Bytes = seq<byte>

  /** `pat` occurs in `s` starting at index `k`. */
  predicate OccursAt(s: Bytes, pat: Bytes, k: nat) {
    k + |pat| <= |s| && s[k..k + |pat|] == pat
  }

  /** `pat` occurs somewhere in `s`. */
  ghost predicate Contains(s: Bytes, pat: Bytes) {
    exists k: nat :: OccursAt(s, pat, k)
  }

  /** Search for `pat` in `s` from index `i` on; -1 when there is no occurrence. */
  function FindFrom(s: Bytes, pat: Bytes, i: nat): (r: int)
    requires i <= |s|
    ensures r == -1 || (i <= r && OccursAt(s, pat, r))
    ensures forall k: nat :: i <= k && (r == -1 || k < r) ==> !OccursAt(s, pat, k)
    decreases |s| - i
  {
    if i + |pat| > |s| then -1
    else if s[i..i + |pat|] == pat then i
    else FindFrom(s, pat, i + 1)
  }

  /**
   * `s.find(pat)`: the index of the first occurrence of `pat` in `s`, or -1
   * when `pat` does not occur in `s`.
   */
  function Find(s: Bytes, pat: Bytes): (r: int)
    ensures r == -1 <==> !Contains(s, pat)
    ensures r != -1 ==> 0 <= r && OccursAt(s, pat, r)
    ensures forall k: nat :: k < r ==> !OccursAt(s, pat, k)
  {
    FindFrom(s, pat, 0)
  }

  /** An occurrence with none before it is the one `Find` returns. */
  lemma FindIsFirst(s: Bytes, pat: Bytes, p: nat)
    requires OccursAt(s, pat, p)
    requires forall k: nat :: k < p ==> !OccursAt(s, pat, k)
    ensures Find(s, pat) == p
  {
  }

  /**
   * The bytes before the first occurrence of `pat`, together with all but the
   * last byte of that occurrence, do not contain `pat`.
   */
  lemma NothingBeforeFirst(s: Bytes, pat: Bytes, p: nat)
    requires |pat| > 0 && Find(s, pat) == p
    ensures !Contains(s[..p + |pat| - 1], pat)
  {
    var t := s[..p + |pat| - 1];
    forall k: nat | OccursAt(t, pat, k) ensures false {
      OccursAtPrefix(s, t, pat, k);
    }
  }

  /** Whether `pat` occurs at `k` depends only on a prefix of `s` that holds the occurrence. */
  lemma OccursAtPrefix(s: Bytes, t: Bytes, pat: Bytes, k: nat)
    requires |t| <= |s| && s[..|t|] == t
    requires k + |pat| <= |t|
    ensures OccursAt(s, pat, k) <==> OccursAt(t, pat, k)
  {
    forall i | k <= i < k + |pat|
      ensures s[i] == t[i]
    {
      assert s[..|t|][i] == s[i];
    }
    assert s[k..k + |pat|] == t[k..k + |pat|];
  }
}
