/**
 * `findWordBoundaryMatches`: all occurrences of a literal target that start and
 * end on a word boundary, found as the `g`/`i` regular expression `\b<target>\b`
 * finds them: each `exec` returns the leftmost occurrence at or after
 * `lastIndex`, and the next search resumes where that occurrence ends (one
 * position further when the target is empty).
 */
module WordBoundary {
  import opened Wrappers
  import opened JsText

  /** The character at `j` exists and is a word character; positions outside the text count as non-word. */
  predicate WordAt(text: string, j: int) {
    0 <= j < |text| && IsWordChar(text[j])
  }

  /** `\b` holds at position `k`. */
  predicate IsBoundary(text: string, k: int) {
    WordAt(text, k - 1) != WordAt(text, k)
  }

  /** Two strings of the same length that agree character by character up to ASCII case (the `i` flag). */
  predicate SameUpToCase(a: string, b: string)
    decreases |a|
  {
    |a| == |b| && (a == [] || (LowerChar(a[0]) == LowerChar(b[0]) && SameUpToCase(a[1..], b[1..])))
  }

  /** Agreeing up to case is having the same lower-cased form. */
  lemma SameUpToCaseIff(a: string, b: string)
    ensures SameUpToCase(a, b) <==> Lower(a) == Lower(b)
  {
    SameUpToCasePointwise(a, b);
    if |a| == |b| && (forall i :: 0 <= i < |a| ==> LowerChar(a[i]) == LowerChar(b[i])) {
      assert forall i :: 0 <= i < |a| ==> Lower(a)[i] == Lower(b)[i];
    }
    if Lower(a) == Lower(b) {
      assert forall i :: 0 <= i < |a| ==> LowerChar(a[i]) == Lower(a)[i] == Lower(b)[i] == LowerChar(b[i]);
    }
  }

  lemma {:induction false} SameUpToCasePointwise(a: string, b: string)
    decreases |a|
    ensures SameUpToCase(a, b) <==> |a| == |b| && forall i :: 0 <= i < |a| ==> LowerChar(a[i]) == LowerChar(b[i])
  {
    if |a| == |b| && a != [] {
      SameUpToCasePointwise(a[1..], b[1..]);
      assert forall i :: 1 <= i < |a| ==> a[i] == a[1..][i - 1] && b[i] == b[1..][i - 1];
    }
  }

  /** The target occurs at `i`, compared case-insensitively (the `i` flag). */
  predicate MatchesAt(text: string, target: string, i: int) {
    0 <= i && i + |target| <= |text| && SameUpToCase(text[i..i + |target|], target)
  }

  /** `\b<target>\b` matches at `i`. */
  predicate BoundaryOccurrence(text: string, target: string, i: int) {
    MatchesAt(text, target, i) && IsBoundary(text, i) && IsBoundary(text, i + |target|)
  }

  /** How far `lastIndex` moves past a match at `p`: its length, or 1 for an empty match. */
  function Advance(target: string): (n: nat)
    ensures n >= 1 && (|target| > 0 ==> n == |target|)
  {
    if |target| == 0 then 1 else |target|
  }

  /** One `regex.exec(text)` with `lastIndex` set: the leftmost occurrence at or after it. */
  function Exec(text: string, target: string, lastIndex: nat): (r: Option<nat>)
    decreases |text| + 1 - lastIndex
    ensures r.Some? ==> lastIndex <= r.value && r.value + |target| <= |text|
  {
    if lastIndex + |target| > |text| then None
    else if BoundaryOccurrence(text, target, lastIndex) then Some(lastIndex)
    else Exec(text, target, lastIndex + 1)
  }

  /** `exec` finds the leftmost boundary occurrence at or after `lastIndex`, and fails only when there is none. */
  lemma {:induction false} ExecSpec(text: string, target: string, lastIndex: nat)
    decreases |text| + 1 - lastIndex
    ensures var r := Exec(text, target, lastIndex);
      && (r.Some? ==> BoundaryOccurrence(text, target, r.value))
      && (r.Some? ==> forall j :: lastIndex <= j < r.value ==> !BoundaryOccurrence(text, target, j))
      && (r.None? ==> forall j :: lastIndex <= j ==> !BoundaryOccurrence(text, target, j))
  {
    if lastIndex + |target| > |text| {
      assert Exec(text, target, lastIndex) == None;
    } else if BoundaryOccurrence(text, target, lastIndex) {
      assert Exec(text, target, lastIndex) == Some(lastIndex);
    } else {
      assert Exec(text, target, lastIndex) == Exec(text, target, lastIndex + 1);
      ExecSpec(text, target, lastIndex + 1);
    }
  }

  /** The indices the `exec` loop collects when it starts from `lastIndex`. */
  function MatchesFrom(text: string, target: string, lastIndex: nat): seq<nat>
    decreases |text| + 1 - lastIndex
  {
    match Exec(text, target, lastIndex)
    case None => []
    case Some(p) => [p] + MatchesFrom(text, target, p + Advance(target))
  }

  /** The indices `findWordBoundaryMatches(text, target)` returns. */
  function WordBoundaryMatches(text: string, target: string): seq<nat> {
    MatchesFrom(text, target, 0)
  }

  /**
   * `findWordBoundaryMatches(text, target)` returns boundary occurrences in
   * increasing order, spaced by the target length, and exactly those
   * occurrences that no earlier returned occurrence overlaps.
   */
  lemma WordBoundaryMatchesSpec(text: string, target: string)
    ensures var ms := WordBoundaryMatches(text, target);
      && (forall i :: i in ms ==> BoundaryOccurrence(text, target, i))
      && Spaced(ms, Advance(target))
      && (forall i :: BoundaryOccurrence(text, target, i) ==> (i in ms <==> !Overlapped(ms, i, |target|)))
  {
    MatchesFromSound(text, target, 0);
    MatchesFromComplete(text, target, 0);
  }

  /** Some returned index other than `i` starts an occurrence that covers `i`. */
  predicate Overlapped(ms: seq<nat>, i: int, len: nat) {
    exists j :: j in ms && j < i < j + len
  }

  /** Strictly increasing, each index at least one target length (or one position) after the previous. */
  predicate Spaced(ms: seq<nat>, step: nat) {
    forall k :: 0 <= k < |ms| - 1 ==> ms[k] + step <= ms[k + 1]
  }

  /** Soundness: every index is a boundary occurrence at or after the start, and they are spaced. */
  lemma {:induction false} MatchesFromSound(text: string, target: string, lastIndex: nat)
    decreases |text| + 1 - lastIndex
    ensures forall i :: i in MatchesFrom(text, target, lastIndex) ==>
              lastIndex <= i && BoundaryOccurrence(text, target, i)
    ensures Spaced(MatchesFrom(text, target, lastIndex), Advance(target))
  {
    ExecSpec(text, target, lastIndex);
    match Exec(text, target, lastIndex)
    case None =>
    case Some(p) =>
      var next := p + Advance(target);
      var rest := MatchesFrom(text, target, next);
      var all := MatchesFrom(text, target, lastIndex);
      MatchesFromSound(text, target, next);
      MatchesFromUnfold(text, target, lastIndex, p);
      forall i | i in all
        ensures lastIndex <= i && BoundaryOccurrence(text, target, i)
      {
        if i != p {
          assert i in rest;
        }
      }
      SpacedCons(p, rest, Advance(target));
  }

  lemma SpacedCons(p: nat, rest: seq<nat>, step: nat)
    requires Spaced(rest, step) && forall i :: i in rest ==> p + step <= i
    ensures Spaced([p] + rest, step)
  {
    if rest != [] {
      assert rest[0] in rest;
    }
    forall k | 0 <= k < |rest|
      ensures ([p] + rest)[k] + step <= ([p] + rest)[k + 1]
    {
      if k > 0 {
        assert ([p] + rest)[k] == rest[k - 1];
      }
    }
  }

  /**
   * Completeness: a boundary occurrence at or after the start is returned
   * exactly when it does not overlap an earlier returned occurrence — the
   * leftmost, greedy, non-overlapping choice.
   */
  lemma {:induction false} MatchesFromComplete(text: string, target: string, lastIndex: nat)
    decreases |text| + 1 - lastIndex
    ensures forall i :: lastIndex <= i && BoundaryOccurrence(text, target, i) ==>
              (i in MatchesFrom(text, target, lastIndex) <==>
               !Overlapped(MatchesFrom(text, target, lastIndex), i, |target|))
  {
    ExecSpec(text, target, lastIndex);
    match Exec(text, target, lastIndex)
    case None =>
    case Some(p) =>
      var next := p + Advance(target);
      var rest := MatchesFrom(text, target, next);
      var all := MatchesFrom(text, target, lastIndex);
      assert all == [p] + rest;
      MatchesFromSound(text, target, next);
      MatchesFromComplete(text, target, next);
      forall i | lastIndex <= i && BoundaryOccurrence(text, target, i)
        ensures i in all <==> !Overlapped(all, i, |target|)
      {
        assert p <= i;
        if i == p {
          assert i in all;
          assert forall j :: j in all ==> p <= j;
        } else if i < next {
          assert p in all && p < i < p + |target|;
          assert i !in rest;
        } else {
          assert i in all <==> i in rest;
          assert Overlapped(all, i, |target|) <==> Overlapped(rest, i, |target|) by {
            if Overlapped(all, i, |target|) {
              var j :| j in all && j < i < j + |target|;
              assert j != p;
              assert j in rest;
            }
            if Overlapped(rest, i, |target|) {
              var j :| j in rest && j < i < j + |target|;
              assert j in all;
            }
          }
        }
      }
  }

  lemma MatchesFromUnfold(text: string, target: string, lastIndex: nat, p: nat)
    requires Exec(text, target, lastIndex) == Some(p)
    ensures MatchesFrom(text, target, lastIndex) == [p] + MatchesFrom(text, target, p + Advance(target))
  {
  }

  lemma AppendShift(all: seq<nat>, done: seq<nat>, p: nat, rest: seq<nat>)
    requires all == done + ([p] + rest)
    ensures all == (done + [p]) + rest
  {
  }

  /** `findWordBoundaryMatches`: the `exec` loop. */
  method FindWordBoundaryMatches(text: string, target: string) returns (matches: seq<nat>)
    ensures matches == WordBoundaryMatches(text, target)
  {
    ghost var all := MatchesFrom(text, target, 0);
    matches := [];
    var lastIndex: nat := 0;
    while true
      invariant lastIndex <= |text| + 1
      invariant matches + MatchesFrom(text, target, lastIndex) == all
      decreases |text| + 1 - lastIndex
    {
      var m := Exec(text, target, lastIndex);
      if m.None? {
        assert MatchesFrom(text, target, lastIndex) == [];
        assert matches + [] == matches;
        break;
      }
      ghost var next := m.value + Advance(target);
      ghost var rest := MatchesFrom(text, target, next);
      MatchesFromUnfold(text, target, lastIndex, m.value);
      AppendShift(all, matches, m.value, rest);
      matches := matches + [m.value];
      lastIndex := m.value + |target|;
      if m.value == lastIndex {
        lastIndex := lastIndex + 1;
      }
      assert lastIndex == next;
    }
  }
}
