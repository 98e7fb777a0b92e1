/**
 * Boyer-Moore-Horspool search with a sentinel in the skip table
 * (benchmark/source/stringsearch/bmhsrch.c).
 */
module Horspool {
  type Byte = n: int | 0 <= n < 256

  const LARGE: int := 32767

  datatype Found = At(pos: nat) | Nowhere

  /** The pattern occurs in the text at `k`. */
  predicate Occurs(text: seq<Byte>, pat: seq<Byte>, k: nat) {
    k + |pat| <= |text| && text[k..k + |pat|] == pat
  }

  /** `c` does not occur in the pattern at places `lo`, ..., `hi` - 1. */
  predicate Absent(pat: seq<Byte>, c: Byte, lo: int, hi: int)
    requires hi <= |pat|
  {
    forall i :: 0 <= i && lo <= i < hi ==> pat[i] != c
  }

  /** The distance `d` from the pattern's last place back to the last `c` before place `hi`, or to
      the place before the first. */
  predicate Distance(pat: seq<Byte>, c: Byte, hi: nat, d: int)
    requires hi <= |pat|
  {
    d <= |pat| && (d < |pat| ==> 0 <= |pat| - 1 - d < hi && pat[|pat| - 1 - d] == c) && Absent(pat, c, |pat| - d, hi)
  }

  class Searcher {
    var pat: seq<Byte>
    var patlen: nat
    const skip: array<int>
    var skip2: int

    /** The tables are those of the pattern; the last character's entry is the sentinel. */
    predicate Ready()
      reads this, skip
    {
      skip.Length == 256 && pat != [] && patlen == |pat| &&
      (forall c: Byte :: skip[c] == LARGE <==> c == pat[|pat| - 1]) &&
      (forall c: Byte :: c != pat[|pat| - 1] ==> 1 <= skip[c] && Distance(pat, c, |pat|, skip[c])) &&
      1 <= skip2 && Distance(pat, pat[|pat| - 1], |pat| - 1, skip2)
    }

    constructor ()
      ensures fresh(skip) && skip.Length == 256
    {
      skip := new int[256];
      pat, patlen, skip2 := [], 0, 0;
    }

    /** bmh_init. */
    method Init(pattern: seq<Byte>)
      requires skip.Length == 256 && 1 <= |pattern| < LARGE
      modifies this, skip
      ensures Ready() && pat == pattern
    {
      pat, patlen := pattern, |pattern|;
      FillSkip(pattern);
      var last := pat[patlen - 1];
      skip[last] := LARGE;
      skip2 := patlen;
      for i := 0 to patlen - 1
        invariant pat == pattern && 1 <= skip2 && Distance(pat, last, i, skip2)
        modifies `skip2
      {
        if pat[i] == last { skip2 := patlen - i - 1; }
      }
    }

    /** The first two loops of bmh_init. */
    method FillSkip(pattern: seq<Byte>)
      requires skip.Length == 256 && 1 <= |pattern|
      modifies skip
      ensures forall c: Byte :: 0 <= skip[c] <= |pattern| && Distance(pattern, c, |pattern|, skip[c])
    {
      for i := 0 to 256
        invariant forall c :: 0 <= c < i ==> skip[c] == |pattern|
      {
        skip[i] := |pattern|;
      }
      for i := 0 to |pattern|
        invariant forall c: Byte :: 0 <= skip[c] <= |pattern| && Distance(pattern, c, i, skip[c])
      {
        skip[pattern[i]] := |pattern| - i - 1;
      }
    }

    /** bmh_search: the leftmost occurrence, for texts as long as the sentinel allows. The index
        `i` counts from the end of the text, so it is negative inside it. */
    method Search(text: seq<Byte>) returns (r: Found)
      requires Ready() && patlen + |text| < LARGE
      ensures match r
              case At(k) => Occurs(text, pat, k) && forall j: nat :: j < k ==> !Occurs(text, pat, j)
              case Nowhere => forall j: nat :: !Occurs(text, pat, j)
    {
      var stringlen := |text|;
      var i := patlen - 1 - stringlen;
      if i >= 0 { return Nowhere; }
      while true
        invariant -stringlen <= patlen - 1 - stringlen <= i < 0
        invariant NoneBefore(text, pat, stringlen + i)
        decreases -i
      {
        i := FastLoop(text, i);
        if i < LARGE - stringlen { return Nowhere; }
        i := i - LARGE;
        var j := Mismatch(text, stringlen + i - (patlen - 1));
        if j < 0 {
          return At(stringlen + i - (patlen - 1));
        }
        ShiftPast(text, pat, stringlen + i, skip2, |pat| - 1, pat[|pat| - 1]);
        i := i + skip2;
        if i >= 0 { return Nowhere; }
      }
    }

    /** The fast inner loop: skip until the last character matches or the text is over; the
        sentinel keeps the two apart. */
    method FastLoop(text: seq<Byte>, i0: int) returns (i: int)
      requires Ready() && patlen + |text| < LARGE && -|text| <= patlen - 1 - |text| <= i0 < 0 &&
               NoneBefore(text, pat, |text| + i0)
      ensures if i < LARGE - |text| then forall j: nat :: !Occurs(text, pat, j)
              else
                i0 <= i - LARGE < 0 && text[|text| + i - LARGE] == pat[|pat| - 1] &&
                NoneBefore(text, pat, |text| + i - LARGE)
    {
      i := i0;
      while true
        invariant i0 <= i < 0 && NoneBefore(text, pat, |text| + i)
        decreases -i
      {
        var c := text[|text| + i];
        if c != pat[|pat| - 1] { ShiftPast(text, pat, |text| + i, skip[c], |pat|, c); }
        i := i + skip[c];
        if i >= 0 { return; }
      }
    }

    /** The comparison loop: the place of the last mismatch before the pattern's last place, or -1. */
    method Mismatch(text: seq<Byte>, s: nat) returns (j: int)
      requires Ready() && s + patlen <= |text| && text[s + patlen - 1] == pat[patlen - 1]
      ensures j < 0 <==> Occurs(text, pat, s)
    {
      j := patlen - 2;
      while j >= 0 && text[s + j] == pat[j]
        invariant -1 <= j < patlen - 1 && forall k :: j < k < patlen ==> text[s + k] == pat[k]
      {
        j := j - 1;
      }
      if j >= 0 { assert text[s..s + |pat|][j] != pat[j]; }
    }
  }

  /** No occurrence of the pattern ends before place `e`. */
  predicate NoneBefore(text: seq<Byte>, pat: seq<Byte>, e: int) {
    forall k: nat :: k + |pat| - 1 < e ==> !Occurs(text, pat, k)
  }

  /** With `c` at place `e` of the text, no occurrence ends within the pattern's distance of `c`. */
  lemma ShiftPast(text: seq<Byte>, pat: seq<Byte>, e: nat, d: int, hi: nat, c: Byte)
    requires pat != [] && e < |text| && text[e] == c && hi <= |pat| && Distance(pat, c, hi, d) &&
             NoneBefore(text, pat, e)
    requires (hi == |pat| && c != pat[|pat| - 1]) ||
             (hi == |pat| - 1 && forall k: nat :: k + |pat| - 1 == e ==> !Occurs(text, pat, k))
    ensures NoneBefore(text, pat, e + d)
  {
    forall k: nat | k + |pat| - 1 < e + d
      ensures !Occurs(text, pat, k)
    {
      if k <= e < k + |pat| <= |text| { assert text[k..k + |pat|][e - k] == c; }
    }
  }
}
