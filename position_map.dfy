/**
 * `mapNormalizedToOriginalPosition`: recover, inside one text node's
 * unnormalised text, the range of a target found in its normalised text.
 *
 * The walk that converts the normalised index back counts one step for every
 * character whose own normalisation is non-empty, that is for every
 * non-whitespace character; whitespace is skipped without counting. The
 * result is then corrected by a direct case-insensitive search for the
 * target within ten characters of the walk's position, and when that fails
 * the walk's position is used as it is.
 */
module PositionMapping {
  import opened Wrappers
  import opened JsText
  import opened Normalize

  datatype Position = Position(start: int, end: int)

  /** How far the direct search may start before, or land after, the walk's position. */
  const SearchSlack: int := 10

  /**
   * Where the walk stops when it starts at index `i` still needing `goal`
   * non-whitespace characters: once it has them, or at the end of the text.
   */
  function WalkFrom(text: string, i: nat, goal: nat): (p: nat)
    requires i <= |text|
    decreases |text| - i
    ensures i <= p <= |text|
  {
    if goal == 0 || i == |text| then i
    else WalkFrom(text, i + 1, if IsSpace(text[i]) then goal else goal - 1)
  }

  /** One step of the walk: a whitespace character is passed over without counting. */
  lemma WalkFromStep(text: string, i: nat, goal: nat)
    requires i < |text| && goal > 0
    ensures WalkFrom(text, i, goal) == WalkFrom(text, i + 1, if IsSpace(text[i]) then goal else goal - 1)
  {
  }

  /** The walk stops once the goal is reached or the text is exhausted. */
  lemma WalkFromStop(text: string, i: nat, goal: nat)
    requires i <= |text| && (goal == 0 || i == |text|)
    ensures WalkFrom(text, i, goal) == i
  {
  }

  /** The walk's position for the normalised index `goal`. */
  function WalkPosition(text: string, goal: nat): (p: nat)
    ensures p <= |text|
  {
    WalkFrom(text, 0, goal)
  }

  /**
   * From index `i`, the walk stops at the shortest stretch holding `goal`
   * non-whitespace characters, and runs to the end of the text when there are fewer.
   */
  lemma WalkFromCharacterised(text: string, i: nat, goal: nat)
    requires i <= |text|
    ensures var p := WalkFrom(text, i, goal);
      && (goal <= |NonSpaces(text[i..])| ==> |NonSpaces(text[i..p])| == goal && (p == i || !IsSpace(text[p - 1])))
      && (goal > |NonSpaces(text[i..])| ==> p == |text|)
  {
    WalkFromCount(text, i, goal);
    if goal <= |NonSpaces(text[i..])| {
      WalkFromLast(text, i, goal);
    }
  }

  /** The stretch the walk passes over holds `goal` non-whitespace characters, or all there are. */
  lemma {:induction false} WalkFromCount(text: string, i: nat, goal: nat)
    requires i <= |text|
    decreases |text| - i
    ensures var p := WalkFrom(text, i, goal);
      && (goal <= |NonSpaces(text[i..])| ==> |NonSpaces(text[i..p])| == goal)
      && (goal > |NonSpaces(text[i..])| ==> p == |text|)
  {
    if goal != 0 && i != |text| {
      var g := if IsSpace(text[i]) then goal else goal - 1;
      var p := WalkFrom(text, i + 1, g);
      WalkFromCount(text, i + 1, g);
      assert text[i..p] == [text[i]] + text[i + 1..p];
      NonSpacesConcat([text[i]], text[i + 1..p]);
      assert text[i..] == [text[i]] + text[i + 1..];
      NonSpacesConcat([text[i]], text[i + 1..]);
    } else if i == |text| {
      assert text[i..] == [];
    } else {
      assert text[i..i] == [];
    }
  }

  /** When the text holds enough non-whitespace characters, the walk stops right after one of them. */
  lemma {:induction false} WalkFromLast(text: string, i: nat, goal: nat)
    requires i <= |text| && goal <= |NonSpaces(text[i..])|
    decreases |text| - i
    ensures var p := WalkFrom(text, i, goal);
      p == i || !IsSpace(text[p - 1])
  {
    if goal != 0 {
      assert text[i..] == [text[i]] + text[i + 1..];
      NonSpacesConcat([text[i]], text[i + 1..]);
      var g := if IsSpace(text[i]) then goal else goal - 1;
      WalkFromLast(text, i + 1, g);
      if IsSpace(text[i]) {
        assert text[i + 1..] != [];
      }
    }
  }

  /**
   * The walk stops at the shortest prefix holding `goal` non-whitespace
   * characters, and runs to the end of the text when there are fewer.
   */
  lemma WalkCharacterised(text: string, goal: nat)
    ensures var p := WalkPosition(text, goal);
      && (goal <= |NonSpaces(text)| ==> |NonSpaces(text[..p])| == goal && (p == 0 || !IsSpace(text[p - 1])))
      && (goal > |NonSpaces(text)| ==> p == |text|)
  {
    WalkFromCharacterised(text, 0, goal);
    assert text[0..] == text;
    assert text[0..WalkPosition(text, goal)] == text[..WalkPosition(text, goal)];
  }

  /** The index of the normalised target in the normalised node text, searched from the hint. */
  function NormalizedIndex(originalText: string, targetOriginal: string, normalizedStart: int): int {
    IndexOf(NormalizeText(originalText), NormalizeText(targetOriginal), normalizedStart)
  }

  /** The case-insensitive literal search from ten characters before the walk's position. */
  function DirectMatch(originalText: string, targetOriginal: string, startPos: int): int {
    IndexOf(Lower(originalText), Lower(targetOriginal), startPos - SearchSlack)
  }

  /** The range `mapNormalizedToOriginalPosition` returns, or `None` for its `null`. */
  function Remap(originalText: string, targetOriginal: string, normalizedStart: int): (r: Option<Position>)
    ensures r.Some? ==> 0 <= r.value.start <= r.value.end <= |originalText|
  {
    RemapFrom(originalText, targetOriginal, NormalizedIndex(originalText, targetOriginal, normalizedStart))
  }

  /** The same, once the normalised index is known. */
  function RemapFrom(originalText: string, targetOriginal: string, normalizedIndex: int): (r: Option<Position>)
    ensures r.Some? ==> 0 <= r.value.start <= r.value.end <= |originalText|
  {
    if normalizedIndex < 0 then None
    else
      var startPos := WalkPosition(originalText, normalizedIndex);
      var directMatch := DirectMatch(originalText, targetOriginal, startPos);
      if directMatch != -1 && directMatch <= startPos + SearchSlack then
        Some(Position(directMatch, directMatch + |targetOriginal|))
      else
        Some(Position(startPos, if startPos + |targetOriginal| <= |originalText| then startPos + |targetOriginal| else |originalText|))
  }

  /** `mapNormalizedToOriginalPosition`: the search, the two-counter walk, the direct search and the fallback. */
  method MapNormalizedToOriginalPosition(originalText: string, targetOriginal: string, normalizedStart: int)
    returns (r: Option<Position>)
    ensures r == Remap(originalText, targetOriginal, normalizedStart)
  {
    var normalizedText := NormalizeText(originalText);
    var normalizedTarget := NormalizeText(targetOriginal);
    var normalizedIndex := IndexOf(normalizedText, normalizedTarget, normalizedStart);
    if normalizedIndex == -1 {
      RemapSearched(originalText, targetOriginal, normalizedStart, normalizedIndex);
      return None;
    }
    var startPos := WalkToIndex(originalText, normalizedIndex);
    RemapSearched(originalText, targetOriginal, normalizedStart, normalizedIndex);
    var directMatch := IndexOf(Lower(originalText), Lower(targetOriginal), startPos - 10);
    RemapWalked(originalText, targetOriginal, normalizedIndex, startPos, directMatch);
    if directMatch != -1 && directMatch <= startPos + 10 {
      return Some(Position(directMatch, directMatch + |targetOriginal|));
    }
    var end := startPos + |targetOriginal|;
    if |originalText| < end {
      end := |originalText|;
    }
    assert end == if startPos + |targetOriginal| <= |originalText| then startPos + |targetOriginal| else |originalText|;
    return Some(Position(startPos, end));
  }

  /**
   * The two-counter loop of `mapNormalizedToOriginalPosition`: advance through
   * the original text, counting the characters whose normalisation is
   * non-empty, until `goal` of them have been passed or the text ends.
   */
  method WalkToIndex(originalText: string, goal: nat) returns (originalIndex: nat)
    ensures originalIndex == WalkPosition(originalText, goal)
  {
    originalIndex := 0;
    var normalizedIndex := 0;
    while normalizedIndex < goal && originalIndex < |originalText|
      invariant originalIndex <= |originalText| && normalizedIndex <= goal
      invariant WalkFrom(originalText, originalIndex, goal - normalizedIndex) == WalkPosition(originalText, goal)
      decreases |originalText| - originalIndex
    {
      var normalizedChar := NormalizeChar(originalText[originalIndex]);
      WalkFromStep(originalText, originalIndex, goal - normalizedIndex);
      if normalizedChar != [] {
        normalizedIndex := normalizedIndex + |normalizedChar|;
      }
      originalIndex := originalIndex + 1;
    }
    WalkFromStop(originalText, originalIndex, goal - normalizedIndex);
  }

  /** The hint's search, as the method performs it, is the one `Remap` starts from. */
  lemma RemapSearched(originalText: string, targetOriginal: string, normalizedStart: int, normalizedIndex: int)
    requires normalizedIndex == IndexOf(NormalizeText(originalText), NormalizeText(targetOriginal), normalizedStart)
    ensures Remap(originalText, targetOriginal, normalizedStart) == RemapFrom(originalText, targetOriginal, normalizedIndex)
  {
    assert NormalizedIndex(originalText, targetOriginal, normalizedStart) == normalizedIndex;
  }

  /** `RemapFrom` once the walk and the direct search are known, as the method computes them. */
  lemma RemapWalked(originalText: string, targetOriginal: string, normalizedIndex: nat, startPos: int, directMatch: int)
    requires startPos == WalkPosition(originalText, normalizedIndex)
    requires directMatch == IndexOf(Lower(originalText), Lower(targetOriginal), startPos - 10)
    ensures RemapFrom(originalText, targetOriginal, normalizedIndex) ==
      if directMatch != -1 && directMatch <= startPos + SearchSlack then
        Some(Position(directMatch, directMatch + |targetOriginal|))
      else
        Some(Position(startPos, if startPos + |targetOriginal| <= |originalText| then startPos + |targetOriginal| else |originalText|))
  {
    assert DirectMatch(originalText, targetOriginal, startPos) == directMatch;
  }

  /**
   * `null` exactly when the normalised target does not occur in the
   * normalised text at or after the (clamped) hint; otherwise a range inside
   * the text.
   */
  lemma RemapResult(originalText: string, targetOriginal: string, normalizedStart: int)
    ensures var r := Remap(originalText, targetOriginal, normalizedStart);
      && (r.None? <==>
            forall j :: ClampIndex(normalizedStart, |NormalizeText(originalText)|) <= j ==>
              !MatchAt(NormalizeText(originalText), NormalizeText(targetOriginal), j))
      && (r.Some? ==> 0 <= r.value.start <= r.value.end <= |originalText|)
  {
    IndexOfSpec(NormalizeText(originalText), NormalizeText(targetOriginal), normalizedStart);
  }

  /** The target occurs at `j` in the text, compared case-insensitively. */
  predicate LiteralAt(originalText: string, targetOriginal: string, j: int) {
    MatchAt(Lower(originalText), Lower(targetOriginal), j)
  }

  /**
   * When the target occurs literally (ignoring case) in the window of ten
   * characters either side of the walk's position, the result is the first
   * such occurrence from the window's start, and its text is the target.
   */
  lemma RemapDirect(originalText: string, targetOriginal: string, normalizedIndex: nat, j: int)
    requires var startPos := WalkPosition(originalText, normalizedIndex);
      startPos - SearchSlack <= j <= startPos + SearchSlack && LiteralAt(originalText, targetOriginal, j)
    ensures var r := RemapFrom(originalText, targetOriginal, normalizedIndex);
      && r.Some?
      && 0 <= r.value.start <= r.value.end <= |originalText|
      && r.value.end - r.value.start == |targetOriginal|
      && Lower(originalText[r.value.start..r.value.end]) == Lower(targetOriginal)
      && r.value.start <= j
      && forall i :: ClampIndex(WalkPosition(originalText, normalizedIndex) - SearchSlack, |originalText|) <= i < r.value.start ==>
           !LiteralAt(originalText, targetOriginal, i)
  {
    var startPos := WalkPosition(originalText, normalizedIndex);
    var dm := DirectMatch(originalText, targetOriginal, startPos);
    IndexOfSpec(Lower(originalText), Lower(targetOriginal), startPos - SearchSlack);
    assert dm != -1 && dm <= j;
    LowerSlice(originalText, dm, dm + |targetOriginal|);
  }

  /** With no literal occurrence in that window, the walk's position is used, clipped to the text. */
  lemma RemapFallback(originalText: string, targetOriginal: string, normalizedIndex: nat)
    requires var startPos := WalkPosition(originalText, normalizedIndex);
      forall j :: startPos - SearchSlack <= j <= startPos + SearchSlack ==> !LiteralAt(originalText, targetOriginal, j)
    ensures var startPos := WalkPosition(originalText, normalizedIndex);
      RemapFrom(originalText, targetOriginal, normalizedIndex) ==
        Some(Position(startPos, if startPos + |targetOriginal| <= |originalText| then startPos + |targetOriginal| else |originalText|))
  {
    var startPos := WalkPosition(originalText, normalizedIndex);
    var dm := DirectMatch(originalText, targetOriginal, startPos);
    IndexOfSpec(Lower(originalText), Lower(targetOriginal), startPos - SearchSlack);
    if dm != -1 && dm <= startPos + SearchSlack {
      assert LiteralAt(originalText, targetOriginal, dm);
    }
  }
}
