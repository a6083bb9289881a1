/**
 * The pieces of Python's `str` behaviour the banner generator relies on:
 * what counts as whitespace, slicing with out-of-range bounds, `strip()`
 * and `upper()`.
 */
module Text {

  /**
   * Python's `str.isspace()`. The same set is matched by `\s` in a `str`
   * regular expression and removed by `str.strip()`.
   */
  predicate IsSpace(c: char) {
    ('\t' <= c <= '\r') || ('\U{1C}' <= c <= ' ') || c == '\U{85}' || c == '\U{A0}'
    || c == '\U{1680}' || ('\U{2000}' <= c <= '\U{200A}') || c == '\U{2028}'
    || c == '\U{2029}' || c == '\U{202F}' || c == '\U{205F}' || c == '\U{3000}'
  }

  /**
   * The whitespace `int()` skips around a number: every `isspace()`
   * character except the four ASCII separators U+001C..U+001F, which `int()`
   * does not map to a blank and so rejects.
   */
  predicate IsIntSpace(c: char) {
    IsSpace(c) && !('\U{1C}' <= c <= '\U{1F}')
  }

  predicate NoSpace(s: string) {
    forall i :: 0 <= i < |s| ==> !IsSpace(s[i])
  }

  lemma NoSpaceCons(c: char, s: string)
    ensures NoSpace([c] + s) <==> !IsSpace(c) && NoSpace(s)
  {
    var t := [c] + s;
    assert t[0] == c;
    assert forall i :: 0 <= i < |s| ==> t[i + 1] == s[i];
    if !IsSpace(c) && NoSpace(s) {
      forall i | 0 <= i < |t|
        ensures !IsSpace(t[i])
      {
        if 0 < i {
          assert t[i] == s[i - 1];
        }
      }
    }
  }

  /** A slice bound as Python resolves it: negatives count from the end, then clamp to [0, n]. */
  function SliceBound(k: int, n: nat): (r: nat)
    ensures r <= n
    ensures 0 <= k <= n ==> r == k
  {
    if k < 0 then (if n + k < 0 then 0 else n + k) else if k > n then n else k
  }

  /** `s[i:j]`: never fails, whatever the bounds. */
  function Slice<T>(s: seq<T>, i: int, j: int): (r: seq<T>)
    ensures |r| <= |s|
    ensures 0 <= i <= j <= |s| ==> r == s[i..j]
    ensures 0 <= i && |s| <= j ==> r == s[SliceBound(i, |s|)..]
  {
    var lo, hi := SliceBound(i, |s|), SliceBound(j, |s|);
    if lo < hi then s[lo..hi] else []
  }

  /** Leading whitespace removed (`str.lstrip()`). */
  function TrimStart(s: string): (r: string)
    ensures |r| <= |s| && r == s[|s| - |r|..]
    ensures r == [] || !IsSpace(r[0])
    ensures forall i :: 0 <= i < |s| - |r| ==> IsSpace(s[i])
  {
    if s != [] && IsSpace(s[0]) then TrimStart(s[1..]) else s
  }

  /** Trailing whitespace removed (`str.rstrip()`). */
  function TrimEnd(s: string): (r: string)
    ensures |r| <= |s| && r == s[..|r|]
    ensures r == [] || !IsSpace(r[|r| - 1])
    ensures forall i :: |r| <= i < |s| ==> IsSpace(s[i])
  {
    if s != [] && IsSpace(s[|s| - 1]) then TrimEnd(s[..|s| - 1]) else s
  }

  /** The number of whitespace characters `s` starts with. */
  function LeadingSpace(s: string): (n: nat)
    ensures n <= |s|
    ensures forall i :: 0 <= i < n ==> IsSpace(s[i])
    ensures n == |s| || !IsSpace(s[n])
  {
    if s != [] && IsSpace(s[0]) then 1 + LeadingSpace(s[1..]) else 0
  }

  /**
   * `str.strip()`: the part of `s` after its leading whitespace, up to its
   * trailing whitespace. Together with `LeadingSpace`, the contract fixes
   * the result: only whitespace lies outside it and it neither starts nor
   * ends in whitespace.
   */
  function Strip(s: string): (r: string)
    ensures |r| <= |s|
    ensures r == [] || (!IsSpace(r[0]) && !IsSpace(r[|r| - 1]))
    ensures LeadingSpace(s) + |r| <= |s| && r == s[LeadingSpace(s)..LeadingSpace(s) + |r|]
    ensures forall i :: LeadingSpace(s) + |r| <= i < |s| ==> IsSpace(s[i])
    ensures forall i :: 0 <= i < |r| ==> r[i] in s
    ensures NoSpace(s) ==> r == s
  {
    var k := LeadingSpace(s);
    var a := s[k..];
    var r := TrimEnd(a);
    StripInside(s, k, a, r);
    StripOutside(s, k, a, r);
    r
  }

  /** The facts about `Strip` that concern the kept slice itself. */
  lemma StripInside(s: string, k: nat, a: string, r: string)
    requires k <= |s| && a == s[k..] && |r| <= |a| && r == a[..|r|]
    requires k == |s| || !IsSpace(s[k])
    ensures k + |r| <= |s| && r == s[k..k + |r|]
    ensures r == [] || !IsSpace(r[0])
    ensures forall i :: 0 <= i < |r| ==> r[i] in s
  {
    if r != [] {
      assert r[0] == s[k];
    }
    forall i | 0 <= i < |r|
      ensures r[i] in s
    {
      assert r[i] == s[k + i];
    }
  }

  /** The facts about `Strip` that concern what it removes. */
  lemma StripOutside(s: string, k: nat, a: string, r: string)
    requires k <= |s| && a == s[k..] && |r| <= |a|
    requires forall i :: 0 <= i < k ==> IsSpace(s[i])
    requires forall i :: |r| <= i < |a| ==> IsSpace(a[i])
    ensures forall i :: k + |r| <= i < |s| ==> IsSpace(s[i])
    ensures NoSpace(s) ==> k == 0 && |r| == |s|
  {
    forall i | k + |r| <= i < |s|
      ensures IsSpace(s[i])
    {
      assert |r| <= i - k < |a| && s[i] == a[i - k];
    }
    if 0 < k {
      assert IsSpace(s[0]);
    }
    if |r| < |a| {
      assert IsSpace(a[|r|]) && a[|r|] == s[k + |r|];
    }
  }

  /** `str.upper()` on the ASCII letters; other characters are kept as they are. */
  function Upper(s: string): (r: string)
    ensures |r| == |s|
    ensures forall i :: 0 <= i < |s| ==> ('a' <= s[i] <= 'z' ==> r[i] as int == s[i] as int - 32)
    ensures forall i :: 0 <= i < |s| ==> (!('a' <= s[i] <= 'z') ==> r[i] == s[i])
  {
    if s == [] then []
    else [if 'a' <= s[0] <= 'z' then (s[0] as int - 32) as char else s[0]] + Upper(s[1..])
  }
}
