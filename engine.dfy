/** Vocabulary shared by both versions of the patch engine: the wildcard-aware
    byte comparison, the leftmost search over a window (the engine's use of
    `std::search`), the clipping of search windows to the buffer, and the
    outcome of one engine call. */
module Engine {

  /** An unsigned 8-bit buffer byte (`uint8_t`). */
  newtype byte = b: int | 0 <= b < 256

  /** How an engine call ended: it ran to the end of its window, or it stopped
      at a replacement that would have been written past the end of the
      buffer (a hardening: the C++ code writes there unchecked). */
  datatype Status = Completed | OutOfBounds

  /** One call of `search_and_patch_r`: the buffer afterwards, the positions
      of the matches found at this call's own level (the "Found <name> at"
      log lines, in order; none at all is the "was not found" warning), and
      how the call ended. */
  datatype Run = Run(buf: seq<byte>, hits: seq<nat>, status: Status)

  /** A step that reports no matches of its own (a patch, a list of children,
      the whole driver loop). */
  datatype Effect = Effect(buf: seq<byte>, status: Status)

  function Min(x: nat, y: nat): nat
  {
    if x <= y then x else y
  }

  function Max(x: nat, y: nat): nat
  {
    if x <= y then y else x
  }

  /** The search comparer: buffer byte `b` matches needle byte `n` when they
      are equal, or when a non-zero `wildcard` is set and `n` is that byte.
      A wildcard of 0 means exact comparison, so a needle byte 0x00 is literal. */
  predicate ByteMatches(b: byte, n: byte, wildcard: byte): (m: bool)
    ensures b == n ==> m
    ensures wildcard == 0 ==> (m <==> b == n)
    ensures wildcard != 0 && n == wildcard ==> m
    ensures n != wildcard ==> (m <==> b == n)
  {
    b == n || (wildcard != 0 && n == wildcard)
  }

  /** The whole needle matches the buffer from position `i`, compared one
      byte at a time as `std::search` does. */
  predicate MatchesAt(s: seq<byte>, i: nat, needle: seq<byte>, wildcard: byte): (m: bool)
    ensures m ==> i + |needle| <= |s|
    decreases |needle|
  {
    i + |needle| <= |s| &&
    (needle == [] ||
     (ByteMatches(s[i], needle[0], wildcard) && MatchesAt(s, i + 1, needle[1..], wildcard)))
  }

  /** `std::search(lo, hi, needle, comparer)`: the leftmost position in the
      window `[lo, hi)` at which the whole needle matches, or `hi` when there
      is none (see `FindLeftmost`). */
  function Find(s: seq<byte>, lo: nat, hi: nat, needle: seq<byte>, wildcard: byte): (r: nat)
    requires lo <= hi <= |s|
    ensures lo <= r <= hi
    ensures r < hi ==> r + |needle| <= hi
    decreases hi - lo
  {
    if hi < lo + |needle| then hi
    else if MatchesAt(s, lo, needle, wildcard) then lo
    else Find(s, lo + 1, hi, needle, wildcard)
  }

  /** A match is the needle matching element-wise: every needle byte matches
      the buffer byte at its offset. */
  lemma {:induction false} MatchesAtPointwise(s: seq<byte>, i: nat, needle: seq<byte>, wildcard: byte)
    ensures MatchesAt(s, i, needle, wildcard) <==>
      i + |needle| <= |s| && forall k :: 0 <= k < |needle| ==> ByteMatches(s[i + k], needle[k], wildcard)
    decreases |needle|
  {
    if needle != [] && i + |needle| <= |s| {
      MatchesAtPointwise(s, i + 1, needle[1..], wildcard);
      if forall k :: 0 <= k < |needle| ==> ByteMatches(s[i + k], needle[k], wildcard) {
        forall k | 0 <= k < |needle| - 1 ensures ByteMatches(s[i + 1 + k], needle[1..][k], wildcard) {
          assert ByteMatches(s[i + (k + 1)], needle[k + 1], wildcard);
        }
      }
      if MatchesAt(s, i, needle, wildcard) {
        forall k | 0 <= k < |needle| ensures ByteMatches(s[i + k], needle[k], wildcard) {
          if k > 0 {
            assert ByteMatches(s[i + 1 + (k - 1)], needle[1..][k - 1], wildcard);
          }
        }
      }
    }
  }

  /** The search result is a match when it is inside the window, and no
      position before it in the window is one: it is the leftmost match, and
      `hi` means that the window holds none. */
  lemma {:induction false} FindLeftmost(s: seq<byte>, lo: nat, hi: nat, needle: seq<byte>, wildcard: byte)
    requires lo <= hi <= |s|
    ensures var r := Find(s, lo, hi, needle, wildcard);
      (r < hi ==> MatchesAt(s, r, needle, wildcard)) &&
      forall i :: lo <= i < r && i + |needle| <= hi ==> !MatchesAt(s, i, needle, wildcard)
    decreases hi - lo
  {
    if lo + |needle| <= hi && !MatchesAt(s, lo, needle, wildcard) {
      FindLeftmost(s, lo + 1, hi, needle, wildcard);
    }
  }

  /** End of a child's window, which always starts at the parent's match
      `res`: `maxSearch` bytes past `res` when that is non-zero, otherwise the
      parent's own `end`. Clipped to the buffer length `len` (a hardening);
      it is not clipped to the parent's `end`, as in the C++ code. */
  function ChildEnd(res: nat, end: nat, maxSearch: nat, len: nat): (e: nat)
    requires res <= end <= len
    ensures res <= e <= len
    ensures e <= end + maxSearch
    ensures maxSearch == 0 ==> e == end
    ensures maxSearch != 0 && res + maxSearch <= len ==> e == res + maxSearch
    ensures maxSearch != 0 && len < res + maxSearch ==> e == len
  {
    if maxSearch != 0 then Min(res + maxSearch, len) else end
  }

  /** End of a top-level pattern's window, which always starts at 0: the
      pattern's `maxSearch` when non-zero, otherwise the whole buffer.
      Clipped to the buffer length (a hardening). */
  function TopEnd(maxSearch: nat, len: nat): (e: nat)
    ensures e <= len
    ensures maxSearch == 0 ==> e == len
    ensures maxSearch != 0 && maxSearch <= len ==> e == maxSearch
  {
    if maxSearch != 0 then Min(maxSearch, len) else len
  }

  /** The needle occurs literally at position `i`. */
  predicate OccursAt(s: seq<byte>, i: nat, needle: seq<byte>)
  {
    i + |needle| <= |s| && s[i..i + |needle|] == needle
  }

  /** Without wildcard bytes in the needle, the search is a plain substring
      search: the first literal occurrence of the needle. */
  lemma {:induction false} FindExact(s: seq<byte>, lo: nat, hi: nat, needle: seq<byte>, wildcard: byte)
    requires lo <= hi <= |s|
    requires wildcard == 0 || forall k :: 0 <= k < |needle| ==> needle[k] != wildcard
    ensures var r := Find(s, lo, hi, needle, wildcard);
      (r < hi ==> OccursAt(s, r, needle)) &&
      forall i :: lo <= i < r && i + |needle| <= hi ==> !OccursAt(s, i, needle)
  {
    var r := Find(s, lo, hi, needle, wildcard);
    FindLeftmost(s, lo, hi, needle, wildcard);
    forall i | lo <= i <= r && i + |needle| <= hi
      ensures MatchesAt(s, i, needle, wildcard) <==> OccursAt(s, i, needle)
    {
      MatchesAtPointwise(s, i, needle, wildcard);
      if MatchesAt(s, i, needle, wildcard) {
        forall k | 0 <= k < |needle| ensures s[i..i + |needle|][k] == needle[k] {
          assert ByteMatches(s[i + k], needle[k], wildcard);
        }
      }
      if OccursAt(s, i, needle) {
        forall k | 0 <= k < |needle| ensures ByteMatches(s[i + k], needle[k], wildcard) {
          assert s[i..i + |needle|][k] == s[i + k];
        }
      }
    }
  }

  /** Positions inside `[lo, hi)` with room for a needle of length `n`, each
      at least `n` past the one before: leftmost, non-overlapping matches. */
  ghost predicate Spaced(xs: seq<nat>, n: nat, lo: nat, hi: nat)
  {
    (forall k :: 0 <= k < |xs| ==> lo <= xs[k] && xs[k] + n <= hi) &&
    (forall j, k :: 0 <= j < k < |xs| ==> xs[j] + n <= xs[k])
  }

  /** A match followed by matches from its end on is still spaced. */
  lemma SpacedCons(x: nat, xs: seq<nat>, n: nat, lo: nat, hi: nat)
    requires lo <= x && x + n <= hi
    requires Spaced(xs, n, x + n, hi)
    ensures Spaced([x] + xs, n, lo, hi)
  {
    var ys := [x] + xs;
    forall j, k | 0 <= j < k < |ys| ensures ys[j] + n <= ys[k] {
      if j > 0 {
        assert ys[j] == xs[j - 1] && ys[k] == xs[k - 1];
      } else {
        assert ys[k] == xs[k - 1];
      }
    }
  }
}
