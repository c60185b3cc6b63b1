/** The string operations of Rust's `str` that the crawler relies on, on `seq<char>`. */
module Strings {
  import opened Wrappers

  /** `pat` occurs in `s` starting at index `i`. */
  ghost predicate OccursAt(s: string, pat: string, i: int)
  {
    0 <= i && i + |pat| <= |s| && s[i..i + |pat|] == pat
  }

  /** The leftmost occurrence of `pat` in `s` at or after index `k`. */
  function FindFrom(s: string, pat: string, k: nat): (r: Option<nat>)
    ensures r.Some? ==> k <= r.value && OccursAt(s, pat, r.value)
    ensures r.Some? ==> forall j :: k <= j < r.value ==> !OccursAt(s, pat, j)
    ensures r.None? ==> forall j :: k <= j ==> !OccursAt(s, pat, j)
    decreases |s| - k
  {
    if k + |pat| > |s| then None
    else if s[k..k + |pat|] == pat then Some(k)
    else
      assert |pat| > 0;
      FindFrom(s, pat, k + 1)
  }

  /** `str::find`. */
  function Find(s: string, pat: string): Option<nat>
  {
    FindFrom(s, pat, 0)
  }

  /** `str::contains`. */
  predicate Contains(s: string, pat: string)
  {
    Find(s, pat).Some?
  }

  /** `str::ends_with`. */
  predicate EndsWith(s: string, suffix: string)
  {
    |suffix| <= |s| && s[|s| - |suffix|..] == suffix
  }

  lemma ContainsIff(s: string, pat: string)
    ensures Contains(s, pat) <==> exists i :: OccursAt(s, pat, i)
  {
  }

  /** An occurrence located in a suffix `s[k..]` is also an occurrence in `s`. */
  lemma OccursInSuffix(s: string, pat: string, k: nat, i: int)
    requires k <= |s| && OccursAt(s[k..], pat, i)
    ensures OccursAt(s, pat, k + i)
  {
    assert s[k..][i..i + |pat|] == s[k + i..k + i + |pat|];
  }

  /** Unicode White_Space, the class behind Rust's `char::is_whitespace`, `str::trim` and regex `\s`. */
  predicate IsSpace(c: char)
  {
    || ('\U{0009}' <= c <= '\U{000D}') || c == ' ' || c == '\U{0085}' || c == '\U{00A0}'
    || c == '\U{1680}' || ('\U{2000}' <= c <= '\U{200A}') || c == '\U{2028}' || c == '\U{2029}'
    || c == '\U{202F}' || c == '\U{205F}' || c == '\U{3000}'
  }

  /** `str::trim_end_matches(p)` for a character predicate `p`: drops every trailing match. */
  function TrimEndBy(s: string, drop: char -> bool): (r: string)
    ensures |r| <= |s| && r == s[..|r|]
    ensures r == [] || !drop(r[|r| - 1])
    ensures forall i :: |r| <= i < |s| ==> drop(s[i])
  {
    if s != [] && drop(s[|s| - 1]) then TrimEndBy(s[..|s| - 1], drop) else s
  }

  /** `str::trim_start_matches(p)` for a character predicate `p`: drops every leading match. */
  function TrimStartBy(s: string, drop: char -> bool): (r: string)
    ensures |r| <= |s| && r == s[|s| - |r|..]
    ensures r == [] || !drop(r[0])
    ensures forall i :: 0 <= i < |s| - |r| ==> drop(s[i])
  {
    if s != [] && drop(s[0]) then TrimStartBy(s[1..], drop) else s
  }

  /** `str::trim`: strips leading and trailing white space. */
  function Trim(s: string): string
  {
    TrimEndBy(TrimStartBy(s, IsSpace), IsSpace)
  }

  /** `s.split(sep).nth(1)`: the piece between the first and the second occurrence of `sep`
      (or the end of `s`), and None when `sep` does not occur. */
  function SecondPiece(s: string, sep: string): (r: Option<string>)
    requires |sep| > 0
    ensures r.None? <==> Find(s, sep).None?
    ensures r.Some? ==>
              var start := Find(s, sep).value + |sep|;
              && start + |r.value| <= |s|
              && r.value == s[start..start + |r.value|]
              && (start + |r.value| == |s| || OccursAt(s, sep, start + |r.value|))
    ensures r.Some? ==> !Contains(r.value, sep)
  {
    match Find(s, sep)
    case None => None
    case Some(i) =>
      var rest := s[i + |sep|..];
      match Find(rest, sep)
      case None => Some(rest)
      case Some(j) =>
        PieceBeforeFirst(rest, sep, j);
        OccursInSuffix(s, sep, i + |sep|, j);
        Some(rest[..j])
  }

  /** The text before the first occurrence of `sep` does not contain `sep`. */
  lemma PieceBeforeFirst(rest: string, sep: string, j: nat)
    requires |sep| > 0 && Find(rest, sep) == Some(j)
    ensures !Contains(rest[..j], sep)
  {
    if Contains(rest[..j], sep) {
      var m := Find(rest[..j], sep).value;
      assert rest[..j][m..m + |sep|] == rest[m..m + |sep|];
      assert OccursAt(rest, sep, m);
      assert false;
    }
  }
}
