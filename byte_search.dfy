/**
  Byte sequences and the substring search that `Buffer.indexOf` performs on them.
  The search answers with an explicit Option instead of the `-1` sentinel; the
  tag locator converts back where `findTag` keeps the sentinel.
 */
module ByteSearch {
  import opened Wrappers

  newtype byte = b: int | 0 <= b < 256

  type Bytes = seq<byte>

  /** `pat` occurs in `s` starting at offset `i`. */
  predicate OccursAt(s: Bytes, pat: Bytes, i: nat)
  {
    i + |pat| <= |s| && s[i..i + |pat|] == pat
  }

  /** `pat` occurs nowhere in `s`. */
  ghost predicate Free(s: Bytes, pat: Bytes)
  {
    forall k: nat :: !OccursAt(s, pat, k)
  }

  /**
    The offset of the first occurrence of `pat` in `s` at or after `from`,
    as `buf.indexOf(pat, from)` computes it for a non-negative `from`.
   */
  function IndexOf(s: Bytes, pat: Bytes, from: nat): (r: Option<nat>)
    ensures r.Some? ==> from <= r.value && OccursAt(s, pat, r.value)
    ensures r.Some? ==> forall k: nat :: from <= k < r.value ==> !OccursAt(s, pat, k)
    ensures r.None? ==> forall k: nat :: from <= k ==> !OccursAt(s, pat, k)
    decreases |s| - from
  {
    if from + |pat| > |s| then None
    else if s[from..from + |pat|] == pat then Some(from)
    else IndexOf(s, pat, from + 1)
  }

  /** Whether `pat` occurs at `k` depends only on the bytes up to the end of that occurrence. */
  lemma OccursInPrefix(s: Bytes, pat: Bytes, k: nat, e: nat)
    requires k + |pat| <= e <= |s|
    ensures OccursAt(s, pat, k) <==> OccursAt(s[..e], pat, k)
  {
    assert s[..e][k..k + |pat|] == s[k..k + |pat|];
  }

  /** No proper suffix of `pat` is also a prefix of it, so two occurrences never overlap. */
  predicate SelfOverlapFree(pat: Bytes)
  {
    forall k :: 0 < k < |pat| ==> pat[k..] != pat[..|pat| - k]
  }

  /** Two occurrences less than a pattern's length apart make a suffix of it equal a prefix. */
  lemma OverlapShared(s: Bytes, pat: Bytes, a: nat, b: nat)
    requires OccursAt(s, pat, a) && OccursAt(s, pat, b)
    requires a < b < a + |pat|
    ensures pat[b - a..] == pat[..|pat| - (b - a)]
  {
    assert pat[b - a..] == s[b..a + |pat|];
  }

  /** Around an occurrence of an overlap-free pattern, closer than its length, there is no other. */
  lemma OccurrencesApart(s: Bytes, pat: Bytes, a: nat)
    requires SelfOverlapFree(pat)
    requires OccursAt(s, pat, a)
    ensures forall k: nat :: a < k + |pat| && k < a + |pat| && k != a ==> !OccursAt(s, pat, k)
  {
    forall k: nat | a < k + |pat| && k < a + |pat| && k != a
      ensures !OccursAt(s, pat, k)
    {
      if OccursAt(s, pat, k) {
        if a < k {
          OverlapShared(s, pat, a, k);
        } else {
          OverlapShared(s, pat, k, a);
        }
      }
    }
  }
}
