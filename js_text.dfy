/**
 * The JavaScript string primitives the matching engine relies on: the `\s`
 * and `trim` whitespace class, the regular-expression word class, ASCII
 * lower-casing and `String.prototype.indexOf` with its clamped start index.
 */
module JsText {

  /** ECMAScript WhiteSpace and LineTerminator code points: the class of `\s` and of `trim`. */
  predicate IsSpace(c: char) {
    var n := c as int;
    n == 0x09 || n == 0x0A || n == 0x0B || n == 0x0C || n == 0x0D || n == 0x20
    || n == 0xA0 || n == 0x1680 || (0x2000 <= n <= 0x200A) || n == 0x2028 || n == 0x2029
    || n == 0x202F || n == 0x205F || n == 0x3000 || n == 0xFEFF
  }

  /** The word class of `\b` without the `u` flag: `[A-Za-z0-9_]`. */
  predicate IsWordChar(c: char) {
    ('a' <= c <= 'z') || ('A' <= c <= 'Z') || ('0' <= c <= '9') || c == '_'
  }

  predicate IsUpper(c: char) {
    'A' <= c <= 'Z'
  }

  /** `toLowerCase` restricted to ASCII; every other character is left as it is. */
  function LowerChar(c: char): (r: char)
    ensures IsSpace(r) == IsSpace(c)
    ensures IsWordChar(r) == IsWordChar(c)
    ensures !IsUpper(r)
    ensures !IsUpper(c) ==> r == c
  {
    if IsUpper(c) then (c as int + 32) as char else c
  }

  function Lower(s: string): (r: string)
    ensures |r| == |s|
    ensures forall i :: 0 <= i < |s| ==> r[i] == LowerChar(s[i])
  {
    seq(|s|, i requires 0 <= i < |s| => LowerChar(s[i]))
  }

  lemma LowerIdempotent(s: string)
    ensures Lower(Lower(s)) == Lower(s)
  {
    assert forall i :: 0 <= i < |s| ==> Lower(Lower(s))[i] == Lower(s)[i];
  }

  lemma LowerSlice(s: string, a: nat, b: nat)
    requires a <= b <= |s|
    ensures Lower(s[a..b]) == Lower(s)[a..b]
  {
  }

  lemma LowerConcat(s: string, t: string)
    ensures Lower(s + t) == Lower(s) + Lower(t)
  {
    assert forall i :: 0 <= i < |s + t| ==> Lower(s + t)[i] == (Lower(s) + Lower(t))[i];
  }

  /** `t` occurs in `s` at index `i`. */
  predicate MatchAt(s: string, t: string, i: int) {
    0 <= i && i + |t| <= |s| && s[i..i + |t|] == t
  }

  /** JS `indexOf` clamps its start index into [0, |s|]. */
  function ClampIndex(from: int, len: nat): (k: nat)
    ensures k <= len
    ensures from <= 0 ==> k == 0
    ensures 0 <= from <= len ==> k == from
    ensures len <= from ==> k == len
  {
    if from < 0 then 0 else if from > len then len else from
  }

  /** The first occurrence of `t` in `s` at index `k` or later, or -1; `k` is already clamped. */
  function IndexFrom(s: string, t: string, k: nat): (r: int)
    requires k <= |s|
    decreases |s| - k
    ensures r == -1 || (k <= r && r + |t| <= |s|)
  {
    if k + |t| > |s| then -1
    else if s[k..k + |t|] == t then k
    else IndexFrom(s, t, k + 1)
  }

  /** `s.indexOf(t, from)`. */
  function IndexOf(s: string, t: string, from: int): (r: int)
    ensures r == -1 || (0 <= r && r + |t| <= |s|)
  {
    IndexFrom(s, t, ClampIndex(from, |s|))
  }

  /** The search from `k` finds the first occurrence at or after `k`, and -1 exactly when there is none. */
  lemma {:induction false} IndexFromSpec(s: string, t: string, k: nat)
    requires k <= |s|
    decreases |s| - k
    ensures var r := IndexFrom(s, t, k);
      && (r == -1 || (k <= r && MatchAt(s, t, r)))
      && (r == -1 ==> forall j :: k <= j ==> !MatchAt(s, t, j))
      && (r != -1 ==> forall j :: k <= j < r ==> !MatchAt(s, t, j))
  {
    if k + |t| <= |s| && s[k..k + |t|] != t {
      IndexFromSpec(s, t, k + 1);
    }
  }

  /**
   * `indexOf` gives -1 exactly when `t` does not occur at or after the
   * clamped start, and otherwise the first occurrence there.
   */
  lemma IndexOfSpec(s: string, t: string, from: int)
    ensures var r := IndexOf(s, t, from);
      && (r == -1 <==> forall j :: ClampIndex(from, |s|) <= j ==> !MatchAt(s, t, j))
      && (r != -1 ==> ClampIndex(from, |s|) <= r && MatchAt(s, t, r))
      && (r != -1 ==> forall j :: ClampIndex(from, |s|) <= j < r ==> !MatchAt(s, t, j))
  {
    IndexFromSpec(s, t, ClampIndex(from, |s|));
  }

  /**
   * `s.substring(a, b)`: both ends are clamped into [0, |s|] and swapped when
   * out of order.
   */
  function Substring(s: string, a: int, b: int): string {
    var lo := ClampIndex(a, |s|);
    var hi := ClampIndex(b, |s|);
    if lo <= hi then s[lo..hi] else s[hi..lo]
  }

  /** `s.includes(t)`. */
  function Includes(s: string, t: string): bool {
    IndexOf(s, t, 0) != -1
  }

  /** `includes` holds exactly when `t` occurs somewhere in `s`. */
  lemma IncludesSpec(s: string, t: string)
    ensures Includes(s, t) <==> exists j :: MatchAt(s, t, j)
  {
    IndexOfSpec(s, t, 0);
  }
}
