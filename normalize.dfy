/**
 * `normalizeText`: collapse every run of whitespace to one space, trim, and
 * lower-case. The normalised text is the search buffer of the matching
 * engine; its properties (idempotence, the shape of its whitespace, the
 * non-whitespace characters it keeps) are proved here.
 */
module Normalize {
  import opened JsText

  /** `trimStart`: the string without its leading whitespace. */
  function TrimStart(s: string): (r: string)
    ensures |r| <= |s|
  {
    if s != [] && IsSpace(s[0]) then TrimStart(s[1..]) else s
  }

  /** `trimStart` drops exactly the leading run of whitespace: what remains is a suffix that does not start with whitespace. */
  lemma {:induction false} TrimStartSpec(s: string)
    decreases |s|
    ensures var r := TrimStart(s);
      && r == s[|s| - |r|..]
      && (r == [] || !IsSpace(r[0]))
      && (forall i :: 0 <= i < |s| - |r| ==> IsSpace(s[i]))
  {
    if s != [] && IsSpace(s[0]) {
      TrimStartSpec(s[1..]);
      var r := TrimStart(s[1..]);
      assert s[1..][|s| - 1 - |r|..] == s[|s| - |r|..];
      forall i | 0 <= i < |s| - |r|
        ensures IsSpace(s[i])
      {
        if i > 0 {
          assert s[i] == s[1..][i - 1];
        }
      }
    }
  }

  /** `trimEnd`: the string without its trailing whitespace. */
  function TrimEnd(s: string): (r: string)
    ensures |r| <= |s|
  {
    if s != [] && IsSpace(s[|s| - 1]) then TrimEnd(s[..|s| - 1]) else s
  }

  /** `trimEnd` drops exactly the trailing run of whitespace: what remains is a prefix that does not end with whitespace. */
  lemma {:induction false} TrimEndSpec(s: string)
    decreases |s|
    ensures var r := TrimEnd(s);
      && r == s[..|r|]
      && (r == [] || !IsSpace(r[|r| - 1]))
      && (forall i :: |r| <= i < |s| ==> IsSpace(s[i]))
  {
    if s != [] && IsSpace(s[|s| - 1]) {
      var t := s[..|s| - 1];
      TrimEndSpec(t);
      var r := TrimEnd(t);
      assert t[..|r|] == s[..|r|];
      forall i | |r| <= i < |s|
        ensures IsSpace(s[i])
      {
        if i < |s| - 1 {
          assert s[i] == t[i];
        }
      }
    }
  }

  /** `String.prototype.trim`. */
  function Trim(s: string): string {
    TrimEnd(TrimStart(s))
  }

  /** `replace(/\s+/g, ' ')`: every maximal run of whitespace becomes a single space. */
  function Collapse(s: string): (r: string)
    decreases |s|
    ensures |r| <= |s|
    ensures s != [] ==> r != [] && r[0] == (if IsSpace(s[0]) then ' ' else s[0])
  {
    if s == [] then []
    else if IsSpace(s[0]) then [' '] + Collapse(TrimStart(s[1..]))
    else [s[0]] + Collapse(s[1..])
  }

  /** `normalizeText`. */
  function NormalizeText(s: string): (r: string)
    ensures Normal(r)
    ensures |r| <= |s|
  {
    NormalShape(s);
    Lower(Trim(Collapse(s)))
  }

  // ---------------------------------------------------------------------------
  // The shape of a normalised string

  predicate AllSpace(s: string) {
    forall i :: 0 <= i < |s| ==> IsSpace(s[i])
  }

  /** Every whitespace character is the plain space. */
  predicate SpacesAreBlank(s: string) {
    forall i :: 0 <= i < |s| && IsSpace(s[i]) ==> s[i] == ' '
  }

  predicate NoAdjacentSpaces(s: string) {
    forall i :: 0 <= i < |s| - 1 ==> !(IsSpace(s[i]) && IsSpace(s[i + 1]))
  }

  predicate Collapsed(s: string) {
    SpacesAreBlank(s) && NoAdjacentSpaces(s)
  }

  predicate Trimmed(s: string) {
    s == [] || (!IsSpace(s[0]) && !IsSpace(s[|s| - 1]))
  }

  predicate LowerCased(s: string) {
    forall i :: 0 <= i < |s| ==> !IsUpper(s[i])
  }

  /** What `normalizeText` produces: no leading, trailing or doubled whitespace, only plain spaces, no capitals. */
  predicate Normal(s: string) {
    Collapsed(s) && Trimmed(s) && LowerCased(s)
  }

  lemma {:induction false} CollapseIsCollapsed(s: string)
    decreases |s|
    ensures Collapsed(Collapse(s))
  {
    if s == [] {
    } else if IsSpace(s[0]) {
      var t := TrimStart(s[1..]);
      TrimStartSpec(s[1..]);
      CollapseIsCollapsed(t);
      var c := Collapse(t);
      assert Collapse(s) == [' '] + c;
      assert c != [] ==> !IsSpace(c[0]);
    } else {
      CollapseIsCollapsed(s[1..]);
      assert Collapse(s) == [s[0]] + Collapse(s[1..]);
    }
  }

  lemma {:induction false} CollapseOfCollapsed(s: string)
    requires Collapsed(s)
    decreases |s|
    ensures Collapse(s) == s
  {
    if s == [] {
    } else {
      assert Collapsed(s[1..]) by {
        assert forall i :: 0 <= i < |s[1..]| ==> s[1..][i] == s[i + 1];
      }
      if IsSpace(s[0]) {
        assert s[1..] == [] || !IsSpace(s[1..][0]);
        assert TrimStart(s[1..]) == s[1..];
        CollapseOfCollapsed(s[1..]);
        assert s == [' '] + s[1..];
      } else {
        CollapseOfCollapsed(s[1..]);
        assert s == [s[0]] + s[1..];
      }
    }
  }

  /** `trimStart` drops a leading whitespace run that ends before a non-whitespace character, and nothing more. */
  lemma {:induction false} TrimStartSpaces(w: string, y: string)
    requires AllSpace(w) && (y == [] || !IsSpace(y[0]))
    decreases |w|
    ensures TrimStart(w + y) == y
  {
    if w != [] {
      assert (w + y)[1..] == w[1..] + y;
      assert AllSpace(w[1..]) by {
        assert forall i :: 0 <= i < |w[1..]| ==> w[1..][i] == w[i + 1];
      }
      TrimStartSpaces(w[1..], y);
    }
  }

  /** `trimStart` of a string with a non-whitespace character stops inside it, so what follows is kept. */
  lemma {:induction false} TrimStartKeepsTail(a: string, b: string)
    requires !AllSpace(a)
    decreases |a|
    ensures TrimStart(a + b) == TrimStart(a) + b
  {
    if IsSpace(a[0]) {
      assert (a + b)[1..] == a[1..] + b;
      assert !AllSpace(a[1..]) by {
        var i :| 0 <= i < |a| && !IsSpace(a[i]);
        assert a[1..][i - 1] == a[i];
      }
      TrimStartKeepsTail(a[1..], b);
    }
  }

  /**
   * `replace(/\s+/g, ' ')` turns a whitespace run between two non-whitespace
   * characters into exactly one space, and the text on either side collapses
   * on its own.
   */
  lemma {:induction false} CollapseRun(x: string, w: string, y: string)
    requires x == [] || !IsSpace(x[|x| - 1])
    requires w != [] && AllSpace(w)
    requires y != [] && !IsSpace(y[0])
    decreases |x|
    ensures Collapse(x + w + y) == Collapse(x) + " " + Collapse(y)
  {
    assert AllSpace(w[1..]) by {
      assert forall i :: 0 <= i < |w[1..]| ==> w[1..][i] == w[i + 1];
    }
    if x == [] {
      assert x + w + y == w + y;
      assert (w + y)[1..] == w[1..] + y;
      TrimStartSpaces(w[1..], y);
    } else if IsSpace(x[0]) {
      var t := x[1..];
      assert t != [] && t[|t| - 1] == x[|x| - 1];
      assert (x + w + y)[1..] == t + (w + y);
      TrimStartKeepsTail(t, w + y);
      var x' := TrimStart(t);
      TrimStartSpec(t);
      assert x' != [] && x'[|x'| - 1] == t[|t| - 1];
      assert x' + (w + y) == x' + w + y;
      CollapseRun(x', w, y);
    } else {
      assert (x + w + y)[1..] == x[1..] + w + y;
      CollapseRun(x[1..], w, y);
    }
  }

  lemma CollapsedSlice(s: string, a: nat, b: nat)
    requires Collapsed(s) && a <= b <= |s|
    ensures Collapsed(s[a..b])
  {
    assert forall i :: 0 <= i < b - a ==> s[a..b][i] == s[a + i];
  }

  /** Trimming yields a slice of the input with no whitespace at either end. */
  lemma TrimIsTrimmedSlice(s: string) returns (a: nat, b: nat)
    ensures a <= b <= |s| && Trim(s) == s[a..b]
    ensures Trimmed(Trim(s))
  {
    var r1 := TrimStart(s);
    var r2 := TrimEnd(r1);
    TrimStartSpec(s);
    TrimEndSpec(r1);
    a := |s| - |r1|;
    b := a + |r2|;
    assert r2 == r1[..|r2|];
    assert r2 == s[a..b];
    assert r2 != [] ==> r2[0] == r1[0];
  }

  lemma LowerKeepsShape(s: string)
    ensures Collapsed(s) ==> Collapsed(Lower(s))
    ensures Trimmed(s) ==> Trimmed(Lower(s))
    ensures LowerCased(Lower(s))
  {
  }

  /** Collapsing, trimming and lower-casing gives the normal shape and never lengthens the text. */
  lemma NormalShape(s: string)
    ensures Normal(Lower(Trim(Collapse(s))))
    ensures |Lower(Trim(Collapse(s)))| <= |s|
  {
    var c := Collapse(s);
    CollapseIsCollapsed(s);
    var a, b := TrimIsTrimmedSlice(c);
    CollapsedSlice(c, a, b);
    LowerKeepsShape(Trim(c));
  }

  /** A string of normal shape is left unchanged by `normalizeText`. */
  lemma NormalIsFixed(s: string)
    requires Normal(s)
    ensures NormalizeText(s) == s
  {
    CollapseOfCollapsed(s);
    assert TrimStart(s) == s;
    assert TrimEnd(s) == s;
    assert forall i :: 0 <= i < |s| ==> Lower(s)[i] == s[i];
  }

  /** `normalizeText` is idempotent. */
  lemma NormalizeIdempotent(s: string)
    ensures NormalizeText(NormalizeText(s)) == NormalizeText(s)
  {
    NormalIsFixed(NormalizeText(s));
  }

  // ---------------------------------------------------------------------------
  // The non-whitespace characters survive normalisation, lower-cased and in order

  /** The string with every whitespace character removed. */
  function NonSpaces(s: string): (r: string)
    ensures |r| <= |s|
  {
    if s == [] then [] else (if IsSpace(s[0]) then [] else [s[0]]) + NonSpaces(s[1..])
  }

  lemma {:induction false} NonSpacesConcat(a: string, b: string)
    decreases |a|
    ensures NonSpaces(a + b) == NonSpaces(a) + NonSpaces(b)
  {
    if a == [] {
      assert a + b == b;
    } else {
      assert (a + b)[1..] == a[1..] + b;
      NonSpacesConcat(a[1..], b);
    }
  }

  lemma {:induction false} NonSpacesEmpty(s: string)
    decreases |s|
    ensures NonSpaces(s) == [] <==> AllSpace(s)
  {
    if s != [] {
      NonSpacesEmpty(s[1..]);
      assert AllSpace(s) <==> IsSpace(s[0]) && AllSpace(s[1..]) by {
        assert forall i :: 1 <= i < |s| ==> s[i] == s[1..][i - 1];
      }
    }
  }

  lemma NonSpacesTrimStart(s: string)
    ensures NonSpaces(TrimStart(s)) == NonSpaces(s)
  {
    var r := TrimStart(s);
    var k := |s| - |r|;
    TrimStartSpec(s);
    assert s == s[..k] + r;
    NonSpacesConcat(s[..k], r);
    NonSpacesEmpty(s[..k]);
  }

  lemma NonSpacesTrimEnd(s: string)
    ensures NonSpaces(TrimEnd(s)) == NonSpaces(s)
  {
    var r := TrimEnd(s);
    TrimEndSpec(s);
    assert s == r + s[|r|..];
    NonSpacesConcat(r, s[|r|..]);
    NonSpacesEmpty(s[|r|..]);
  }

  lemma {:induction false} NonSpacesCollapse(s: string)
    decreases |s|
    ensures NonSpaces(Collapse(s)) == NonSpaces(s)
  {
    if s != [] {
      if IsSpace(s[0]) {
        var t := TrimStart(s[1..]);
        NonSpacesCollapse(t);
        NonSpacesTrimStart(s[1..]);
        NonSpacesConcat([' '], Collapse(t));
      } else {
        NonSpacesCollapse(s[1..]);
        NonSpacesConcat([s[0]], Collapse(s[1..]));
      }
    }
  }

  lemma {:induction false} NonSpacesLower(s: string)
    decreases |s|
    ensures NonSpaces(Lower(s)) == Lower(NonSpaces(s))
  {
    if s != [] {
      NonSpacesLower(s[1..]);
      assert Lower(s)[1..] == Lower(s[1..]);
      var h := if IsSpace(s[0]) then [] else [s[0]];
      LowerConcat(h, NonSpaces(s[1..]));
    }
  }

  /**
   * Punctuation and every other non-whitespace character is kept: removing the
   * whitespace from the output gives the lower-cased non-whitespace characters
   * of the input, in the same order.
   */
  lemma NormalizeKeepsNonSpaces(s: string)
    ensures NonSpaces(NormalizeText(s)) == Lower(NonSpaces(s))
  {
    var c := Collapse(s);
    NonSpacesCollapse(s);
    NonSpacesTrimStart(c);
    NonSpacesTrimEnd(TrimStart(c));
    NonSpacesLower(Trim(c));
  }

  /** `normalizeText` yields `''` exactly for whitespace-only input. */
  lemma NormalizeEmptyIff(s: string)
    ensures NormalizeText(s) == [] <==> AllSpace(s)
  {
    var n := NormalizeText(s);
    NormalizeKeepsNonSpaces(s);
    NonSpacesEmpty(s);
    NonSpacesEmpty(n);
    if n != [] {
      assert !IsSpace(n[0]);
    }
  }

  /** `trim()` yields `''` exactly for whitespace-only input. */
  lemma TrimEmptyIff(s: string)
    ensures Trim(s) == [] <==> AllSpace(s)
  {
    NonSpacesTrimStart(s);
    NonSpacesTrimEnd(TrimStart(s));
    NonSpacesEmpty(s);
    NonSpacesEmpty(Trim(s));
    if Trim(s) != [] {
      assert !IsSpace(TrimEnd(TrimStart(s))[0]) by {
        var a, b := TrimIsTrimmedSlice(s);
      }
    }
  }

  /** Text the tree walker accepts (non-blank after `trim`) normalises to a non-empty string. */
  lemma NonBlankNormalizesNonEmpty(s: string)
    requires Trim(s) != []
    ensures NormalizeText(s) != []
  {
    TrimEmptyIff(s);
    NormalizeEmptyIff(s);
  }

  /** `normalizeText` of a one-character string, as the position walk applies it (see `NormalizeOneChar`). */
  function NormalizeChar(c: char): string {
    if IsSpace(c) then [] else [LowerChar(c)]
  }

  /** `NormalizeChar(c)` is the normalisation of the string `[c]`: empty for whitespace, the lower-cased character otherwise. */
  lemma NormalizeOneChar(c: char)
    ensures NormalizeText([c]) == NormalizeChar(c)
  {
    if IsSpace(c) {
      assert Collapse([c]) == [' '] + Collapse(TrimStart([]));
      assert Collapse([c]) == [' '];
      assert TrimStart([' ']) == TrimStart([]);
    } else {
      assert Collapse([c]) == [c] + Collapse([]);
      assert TrimStart([c]) == [c];
      assert TrimEnd([c]) == [c];
    }
  }
}
