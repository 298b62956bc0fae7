/**
 * `findMatch`, `replaceAtPosition` and `replaceTextSegments`: choose one
 * occurrence per translation by its surrounding context, sort the chosen
 * occurrences from the end of the page to its start, and turn each into a
 * mount, or into one of the two skips.
 *
 * The document is the sequence of its text nodes (see `TextMapping`). Its
 * current state is the text each node holds, by document index. Mounting a
 * component over `[start, end)` of a node replaces that range by an element,
 * which leaves the node itself holding only `text[..start]`; the model emits
 * the mount as an `Action` and applies that truncation to the state.
 */
module ReplaceSegments {
  import opened Wrappers
  import opened JsText
  import opened Normalize
  import opened WordBoundary
  import opened TextMapping
  import opened Spanning
  import opened PositionMapping

  /** One record of the translation list: the page text, its translation and the sentence around it. */
  datatype Translation = Translation(original: string, translation: string, context: string)

  datatype Match = Match(globalOffset: nat, length: nat, translation: Translation, spanningNodes: seq<Span>)

  /** Characters of `fullText` checked before and after a candidate for the context. */
  const ContextRadius: int := 100

  // ---------------------------------------------------------------------------
  // findMatch

  /** The stretch of the search buffer around a candidate at `index` of length `len`. */
  function Window(fullText: string, index: int, len: int): string {
    Substring(fullText, Max(0, index - ContextRadius), Min(|fullText|, index + len + ContextRadius))
  }

  /** The candidate at `index` is accepted: its window contains the context and it lies over some node. */
  predicate Fits(m: TextMap, index: int, normalizedOriginal: string, normalizedContext: string) {
    Includes(Window(m.fullText, index, |normalizedOriginal|), normalizedContext)
    && SpansOf(m.nodes, index, index + |normalizedOriginal|) != []
  }

  /** The position of the first `true` at or after `k`, or `|flags|` when there is none. */
  function FirstTrue(flags: seq<bool>, k: nat): (j: nat)
    requires k <= |flags|
    decreases |flags| - k
    ensures k <= j <= |flags|
    ensures j < |flags| ==> flags[j]
    ensures forall i :: k <= i < j ==> !flags[i]
  {
    if k == |flags| || flags[k] then k else FirstTrue(flags, k + 1)
  }

  /** Which candidates are accepted. */
  function FitFlags(m: TextMap, candidates: seq<nat>, normalizedOriginal: string, normalizedContext: string): (flags: seq<bool>)
    ensures |flags| == |candidates|
    ensures forall j :: 0 <= j < |candidates| ==> flags[j] == Fits(m, candidates[j], normalizedOriginal, normalizedContext)
  {
    seq(|candidates|, j requires 0 <= j < |candidates| => Fits(m, candidates[j], normalizedOriginal, normalizedContext))
  }

  /** The match `findMatch` builds for the candidate at `index`. */
  function MatchFor(m: TextMap, index: nat, normalizedOriginal: string, t: Translation): Match {
    Match(index, |normalizedOriginal|, t, SpansOf(m.nodes, index, index + |normalizedOriginal|))
  }

  /** The match for the first accepted candidate, if there is one. */
  function FirstFit(m: TextMap, candidates: seq<nat>, normalizedOriginal: string, normalizedContext: string,
                    t: Translation): Option<Match> {
    var j := FirstTrue(FitFlags(m, candidates, normalizedOriginal, normalizedContext), 0);
    if j == |candidates| then None else Some(MatchFor(m, candidates[j], normalizedOriginal, t))
  }

  /** The result of `findMatch(textMap, t)`, with `None` for `null`. */
  function FindMatchSpec(m: TextMap, t: Translation): Option<Match> {
    var normalizedOriginal := NormalizeText(t.original);
    FirstFit(m, WordBoundaryMatches(m.fullText, normalizedOriginal), normalizedOriginal, NormalizeText(t.context), t)
  }

  /** `findMatch`: the normalised target and context, their word-boundary candidates, then the check of each. */
  method FindMatch(m: TextMap, t: Translation) returns (r: Option<Match>)
    ensures r == FindMatchSpec(m, t)
  {
    var normalizedOriginal := NormalizeText(t.original);
    var normalizedContext := NormalizeText(t.context);
    var matches := FindWordBoundaryMatches(m.fullText, normalizedOriginal);
    FindMatchSearched(m, t, matches, normalizedOriginal, normalizedContext);
    if |matches| == 0 {
      return None;
    }
    r := FirstAccepted(m, matches, normalizedOriginal, normalizedContext, t);
  }

  /** The loop of `findMatch`: the first candidate whose window holds the context and that spans some node. */
  method FirstAccepted(m: TextMap, matches: seq<nat>, normalizedOriginal: string, normalizedContext: string, t: Translation)
    returns (r: Option<Match>)
    ensures r == FirstFit(m, matches, normalizedOriginal, normalizedContext, t)
  {
    ghost var flags := FitFlags(m, matches, normalizedOriginal, normalizedContext);
    for k := 0 to |matches|
      invariant FirstTrue(flags, k) == FirstTrue(flags, 0)
    {
      var index := matches[k];
      var contextStart := Max(0, index - ContextRadius);
      var contextEnd := Min(|m.fullText|, index + |normalizedOriginal| + ContextRadius);
      var localContext := Substring(m.fullText, contextStart, contextEnd);
      if Includes(localContext, normalizedContext) {
        var spanningNodes := GetSpanningNodes(m, index, |normalizedOriginal|);
        if |spanningNodes| > 0 {
          assert flags[k];
          return Some(Match(index, |normalizedOriginal|, t, spanningNodes));
        }
      }
      assert !flags[k];
    }
    return None;
  }

  /** The searches the method performs are the ones `FindMatchSpec` names. */
  lemma FindMatchSearched(m: TextMap, t: Translation, candidates: seq<nat>, normalizedOriginal: string, normalizedContext: string)
    requires normalizedOriginal == NormalizeText(t.original) && normalizedContext == NormalizeText(t.context)
    requires candidates == WordBoundaryMatches(m.fullText, normalizedOriginal)
    ensures FindMatchSpec(m, t) == FirstFit(m, candidates, normalizedOriginal, normalizedContext, t)
  {
  }

  /**
   * In a well-formed map every candidate of a non-empty target lies over
   * some node, so a candidate is accepted exactly when its window contains
   * the context.
   */
  lemma FitsByContext(m: TextMap, candidates: seq<nat>, normalizedOriginal: string, normalizedContext: string)
    requires WellFormed(m) && normalizedOriginal != []
    requires forall i :: i in candidates ==> i + |normalizedOriginal| <= |m.fullText|
    ensures forall j :: 0 <= j < |candidates| ==>
      (Fits(m, candidates[j], normalizedOriginal, normalizedContext) <==>
       Includes(Window(m.fullText, candidates[j], |normalizedOriginal|), normalizedContext))
  {
    forall j | 0 <= j < |candidates|
      ensures SpansOf(m.nodes, candidates[j], candidates[j] + |normalizedOriginal|) != []
    {
      assert candidates[j] in candidates;
      SpansNonEmpty(m, candidates[j], |normalizedOriginal|);
    }
  }

  /**
   * For a well-formed map and a target that is not blank, `findMatch` is
   * `null` exactly when no word-boundary occurrence has the context within
   * its window; otherwise it is one of the word-boundary matches, the first
   * one with the context in its window, with the normalised target's length
   * and the nodes it spans.
   */
  lemma FindMatchByContext(m: TextMap, t: Translation)
    requires WellFormed(m) && NormalizeText(t.original) != []
    ensures var normalizedOriginal := NormalizeText(t.original);
      var candidates := WordBoundaryMatches(m.fullText, normalizedOriginal);
      var r := FindMatchSpec(m, t);
      && (r.None? <==> forall j :: 0 <= j < |candidates| ==>
            !Includes(Window(m.fullText, candidates[j], |normalizedOriginal|), NormalizeText(t.context)))
      && (r.Some? ==>
            && r.value.globalOffset in candidates
            && BoundaryOccurrence(m.fullText, normalizedOriginal, r.value.globalOffset)
            && Includes(Window(m.fullText, r.value.globalOffset, |normalizedOriginal|), NormalizeText(t.context))
            && r.value == MatchFor(m, r.value.globalOffset, normalizedOriginal, t)
            && forall j :: 0 <= j < |candidates| && candidates[j] < r.value.globalOffset ==>
                 !Includes(Window(m.fullText, candidates[j], |normalizedOriginal|), NormalizeText(t.context)))
  {
    var normalizedOriginal := NormalizeText(t.original);
    var candidates := WordBoundaryMatches(m.fullText, normalizedOriginal);
    WordBoundaryMatchesSpec(m.fullText, normalizedOriginal);
    CandidatesByContext(m, candidates, normalizedOriginal, NormalizeText(t.context), t);
  }

  /** `FindMatchByContext` for any spaced list of word-boundary occurrences. */
  lemma CandidatesByContext(m: TextMap, candidates: seq<nat>, normalizedOriginal: string, normalizedContext: string, t: Translation)
    requires WellFormed(m) && normalizedOriginal != []
    requires forall i :: i in candidates ==> BoundaryOccurrence(m.fullText, normalizedOriginal, i)
    requires Spaced(candidates, Advance(normalizedOriginal))
    ensures var r := FirstFit(m, candidates, normalizedOriginal, normalizedContext, t);
      && (r.None? <==> forall j :: 0 <= j < |candidates| ==>
            !Includes(Window(m.fullText, candidates[j], |normalizedOriginal|), normalizedContext))
      && (r.Some? ==>
            && r.value.globalOffset in candidates
            && BoundaryOccurrence(m.fullText, normalizedOriginal, r.value.globalOffset)
            && Includes(Window(m.fullText, r.value.globalOffset, |normalizedOriginal|), normalizedContext)
            && r.value == MatchFor(m, r.value.globalOffset, normalizedOriginal, t)
            && forall j :: 0 <= j < |candidates| && candidates[j] < r.value.globalOffset ==>
                 !Includes(Window(m.fullText, candidates[j], |normalizedOriginal|), normalizedContext))
  {
    FitsByContext(m, candidates, normalizedOriginal, normalizedContext);
    CandidatesNone(m, candidates, normalizedOriginal, normalizedContext, t);
    CandidatesFirst(m, candidates, normalizedOriginal, normalizedContext, t);
  }

  /** No match exactly when no candidate is accepted. */
  lemma CandidatesNone(m: TextMap, candidates: seq<nat>, normalizedOriginal: string, normalizedContext: string, t: Translation)
    ensures FirstFit(m, candidates, normalizedOriginal, normalizedContext, t).None? <==>
      forall j :: 0 <= j < |candidates| ==> !Fits(m, candidates[j], normalizedOriginal, normalizedContext)
  {
    var flags := FitFlags(m, candidates, normalizedOriginal, normalizedContext);
    var j := FirstTrue(flags, 0);
    if j < |candidates| {
      assert flags[j];
    }
  }

  /** A match is the first accepted candidate of a spaced candidate list, with its length, translation and spans. */
  lemma CandidatesFirst(m: TextMap, candidates: seq<nat>, normalizedOriginal: string, normalizedContext: string, t: Translation)
    requires Spaced(candidates, Advance(normalizedOriginal))
    ensures var r := FirstFit(m, candidates, normalizedOriginal, normalizedContext, t);
      r.Some? ==>
        && r.value.globalOffset in candidates
        && r.value == MatchFor(m, r.value.globalOffset, normalizedOriginal, t)
        && Fits(m, r.value.globalOffset, normalizedOriginal, normalizedContext)
        && forall j :: 0 <= j < |candidates| && candidates[j] < r.value.globalOffset ==>
             !Fits(m, candidates[j], normalizedOriginal, normalizedContext)
  {
    var flags := FitFlags(m, candidates, normalizedOriginal, normalizedContext);
    var j := FirstTrue(flags, 0);
    if j < |candidates| {
      assert flags[j];
      forall i | 0 <= i < |candidates| && candidates[i] < candidates[j]
        ensures !flags[i]
      {
        if i >= j {
          SpacedIncreasing(candidates, Advance(normalizedOriginal), j, i);
        }
      }
    }
  }

  /** Indices of a spaced list grow with their positions. */
  lemma {:induction false} SpacedIncreasing(ms: seq<nat>, step: nat, a: nat, b: nat)
    requires Spaced(ms, step) && step >= 1 && a <= b < |ms|
    decreases b - a
    ensures ms[a] <= ms[b]
  {
    if a < b {
      SpacedIncreasing(ms, step, a + 1, b);
    }
  }

  // ---------------------------------------------------------------------------
  // The list of matches

  /** `findMatch` of every translation, in order. */
  function Found(m: TextMap, ts: seq<Translation>): (found: seq<Option<Match>>)
    ensures |found| == |ts|
    ensures forall i :: 0 <= i < |ts| ==> found[i] == FindMatchSpec(m, ts[i])
  {
    seq(|ts|, i requires 0 <= i < |ts| => FindMatchSpec(m, ts[i]))
  }

  /** `.filter(match => match !== null)`: the present values, in order. */
  function Present(os: seq<Option<Match>>): seq<Match> {
    if os == [] then []
    else Present(os[..|os| - 1]) + (if os[|os| - 1].Some? then [os[|os| - 1].value] else [])
  }

  /** Filtering one more entry appends its value, if it has one. */
  lemma PresentStep(os: seq<Option<Match>>, k: nat)
    requires k < |os|
    ensures Present(os[..k + 1]) == Present(os[..k]) + (if os[k].Some? then [os[k].value] else [])
  {
    assert os[..k + 1][..k] == os[..k];
  }

  /** The matches `replaceTextSegments` collects before sorting. */
  function MatchesOf(m: TextMap, ts: seq<Translation>): seq<Match> {
    Present(Found(m, ts))
  }

  /** Filtering keeps at most one value per entry, each one of the entries' values, in order. */
  lemma {:induction false} PresentSpec(os: seq<Option<Match>>)
    ensures |Present(os)| <= |os|
    ensures forall x :: x in Present(os) <==> Some(x) in os
  {
    if os != [] {
      var init := os[..|os| - 1];
      PresentSpec(init);
      assert os == init + [os[|os| - 1]];
      forall x
        ensures x in Present(os) <==> Some(x) in os
      {
        if Some(x) in os {
          var j :| 0 <= j < |os| && os[j] == Some(x);
          if j < |os| - 1 {
            assert init[j] == Some(x);
          }
        }
      }
    }
  }

  /**
   * Each translation contributes at most one match, and every match is the
   * `findMatch` result of one of the translations.
   */
  lemma MatchesOfTranslations(m: TextMap, ts: seq<Translation>)
    ensures |MatchesOf(m, ts)| <= |ts|
    ensures forall x :: x in MatchesOf(m, ts) ==> exists i :: 0 <= i < |ts| && FindMatchSpec(m, ts[i]) == Some(x)
  {
    var found := Found(m, ts);
    PresentSpec(found);
    forall x | x in MatchesOf(m, ts)
      ensures exists i :: 0 <= i < |ts| && FindMatchSpec(m, ts[i]) == Some(x)
    {
      var i :| 0 <= i < |found| && found[i] == Some(x);
    }
  }

  // ---------------------------------------------------------------------------
  // matches.sort((a, b) => b.globalOffset - a.globalOffset)

  /** Non-increasing global offsets. */
  predicate Descending(ms: seq<Match>) {
    forall i, j :: 0 <= i < j < |ms| ==> ms[i].globalOffset >= ms[j].globalOffset
  }

  /** Puts `x` in front of the first element whose offset is not larger than its own. */
  function Insert(x: Match, ms: seq<Match>): seq<Match> {
    if ms == [] then [x]
    else if ms[0].globalOffset > x.globalOffset then [ms[0]] + Insert(x, ms[1..])
    else [x] + ms
  }

  /** The sorted order of the matches (a stable sort by descending offset): descending, and a permutation of the matches. */
  function SortDescending(ms: seq<Match>): (r: seq<Match>)
    ensures Descending(r)
    ensures multiset(r) == multiset(ms)
  {
    if ms == [] then []
    else
      var rest := SortDescending(ms[1..]);
      InsertSorted(ms, rest);
      Insert(ms[0], rest)
  }

  /** Inserting the head into the sorted tail sorts the whole list. */
  lemma InsertSorted(ms: seq<Match>, rest: seq<Match>)
    requires ms != [] && Descending(rest) && multiset(rest) == multiset(ms[1..])
    ensures Descending(Insert(ms[0], rest))
    ensures multiset(Insert(ms[0], rest)) == multiset(ms)
  {
    InsertDescending(ms[0], rest);
    InsertMultiset(ms[0], rest);
    assert ms == [ms[0]] + ms[1..];
  }

  /** Inserting adds `x` and keeps every other element. */
  lemma {:induction false} InsertMultiset(x: Match, ms: seq<Match>)
    ensures multiset(Insert(x, ms)) == multiset(ms) + multiset{x}
  {
    if ms != [] && ms[0].globalOffset > x.globalOffset {
      InsertMultiset(x, ms[1..]);
      assert ms == [ms[0]] + ms[1..];
    }
  }

  /** Inserting into a descending sequence keeps it descending. */
  lemma {:induction false} InsertDescending(x: Match, ms: seq<Match>)
    requires Descending(ms)
    ensures Descending(Insert(x, ms))
  {
    if ms != [] && ms[0].globalOffset > x.globalOffset {
      var tail := ms[1..];
      InsertDescending(x, tail);
      InsertMultiset(x, tail);
      var rest := Insert(x, tail);
      forall j | 0 <= j < |rest|
        ensures ms[0].globalOffset >= rest[j].globalOffset
      {
        assert rest[j] in multiset(rest);
        if rest[j] != x {
          assert rest[j] in multiset(tail);
          var i :| 0 <= i < |tail| && tail[i] == rest[j];
          assert ms[i + 1] == rest[j];
        }
      }
    }
  }

  /** The sort orders the matches from the end of the page and neither loses nor invents one. */
  // ---------------------------------------------------------------------------
  // replaceAtPosition

  /** What `replaceAtPosition` does with one matched. */
  datatype Action =
    | Mount(node: nat, start: nat, end: nat, translation: Translation, globalOffset: nat)
    | SkipMultiNode(globalOffset: nat, nodeCount: nat)
    | SkipUnmapped(globalOffset: nat)

  /** An action and the node texts after it. */
  datatype Step = Step(action: Action, texts: map<nat, string>)

  /** `textNode.textContent || ''`. */
  function TextOf(texts: map<nat, string>, node: nat): string {
    if node in texts then texts[node] else ""
  }

  /** The texts of the document's nodes before any replacement. */
  function InitialTexts(doc: seq<DomText>): (texts: map<nat, string>)
    ensures forall k :: 0 <= k < |doc| ==> TextOf(texts, k) == doc[k].text
  {
    map k | 0 <= k < |doc| :: doc[k].text
  }

  /** The outcome of `replaceAtPosition(match)` on the current node texts. */
  function ReplaceSpec(matched: Match, texts: map<nat, string>): Step {
    if |matched.spanningNodes| != 1 then
      Step(SkipMultiNode(matched.globalOffset, |matched.spanningNodes|), texts)
    else
      var span := matched.spanningNodes[0];
      var text := TextOf(texts, span.node);
      match Remap(text, matched.translation.original, span.startOffset)
      case None => Step(SkipUnmapped(matched.globalOffset), texts)
      case Some(p) =>
        Step(Mount(span.node, p.start, p.end, matched.translation, matched.globalOffset),
             texts[span.node := text[..p.start]])
  }

  /** `replaceAtPosition`: the single-node check, the remap and the mount. */
  method ReplaceAtPosition(matched: Match, texts: map<nat, string>) returns (action: Action, texts': map<nat, string>)
    ensures Step(action, texts') == ReplaceSpec(matched, texts)
  {
    if |matched.spanningNodes| != 1 {
      return SkipMultiNode(matched.globalOffset, |matched.spanningNodes|), texts;
    }
    var spanningNode := matched.spanningNodes[0];
    var text := TextOf(texts, spanningNode.node);
    var originalPosition := MapNormalizedToOriginalPosition(text, matched.translation.original, spanningNode.startOffset);
    if originalPosition.None? {
      return SkipUnmapped(matched.globalOffset), texts;
    }
    RemapResult(text, matched.translation.original, spanningNode.startOffset);
    action := Mount(spanningNode.node, originalPosition.value.start, originalPosition.value.end,
                    matched.translation, matched.globalOffset);
    texts' := texts[spanningNode.node := text[..originalPosition.value.start]];
  }

  /**
   * A match is mounted only when it spans a single node and its range maps
   * back into that node's current text; the mounted range lies inside that
   * text, the node keeps the text before it and no other node changes.
   * A match over any other number of nodes is skipped and changes nothing.
   */
  lemma ReplaceOutcome(matched: Match, texts: map<nat, string>)
    ensures var s := ReplaceSpec(matched, texts);
      && s.action.globalOffset == matched.globalOffset
      && (s.action.SkipMultiNode? <==> |matched.spanningNodes| != 1)
      && (s.action.Mount? <==>
            |matched.spanningNodes| == 1
            && Remap(TextOf(texts, matched.spanningNodes[0].node), matched.translation.original,
                     matched.spanningNodes[0].startOffset).Some?)
      && (s.action.Mount? ==>
            var text := TextOf(texts, s.action.node);
            && s.action.node == matched.spanningNodes[0].node
            && 0 <= s.action.start <= s.action.end <= |text|
            && s.texts == texts[s.action.node := text[..s.action.start]])
      && (!s.action.Mount? ==> s.texts == texts)
  {
    if |matched.spanningNodes| == 1 {
      var span := matched.spanningNodes[0];
      RemapResult(TextOf(texts, span.node), matched.translation.original, span.startOffset);
    }
  }

  // ---------------------------------------------------------------------------
  // replaceTextSegments

  /** The actions of the replacement loop over `ms` from position `k`, and the final texts. */
  function ApplyFrom(ms: seq<Match>, k: nat, texts: map<nat, string>): (r: (seq<Action>, map<nat, string>))
    decreases |ms| - k
  {
    if k >= |ms| then ([], texts)
    else
      var s := ReplaceSpec(ms[k], texts);
      var rest := ApplyFrom(ms, k + 1, s.texts);
      ([s.action] + rest.0, rest.1)
  }

  /** The actions `replaceTextSegments(document, ts)` emits and the node texts it leaves. */
  function ReplaceTextSegmentsSpec(doc: seq<DomText>, ts: seq<Translation>): (seq<Action>, map<nat, string>) {
    var m := TextMapOf(doc);
    if m.nodes == [] then ([], InitialTexts(doc))
    else ApplyFrom(SortDescending(MatchesOf(m, ts)), 0, InitialTexts(doc))
  }

  /** `replaceTextSegments`: build the map, collect the matches, sort them, replace from the end. */
  method ReplaceTextSegments(doc: seq<DomText>, ts: seq<Translation>) returns (actions: seq<Action>, texts: map<nat, string>)
    ensures (actions, texts) == ReplaceTextSegmentsSpec(doc, ts)
  {
    texts := InitialTexts(doc);
    var textMap := BuildTextMap(doc);
    if |textMap.nodes| == 0 {
      return [], texts;
    }
    var matches := CollectMatches(textMap, ts);
    matches := SortDescending(matches);
    actions, texts := ReplaceAll(matches, texts);
  }

  /** `translations.map(t => findMatch(textMap, t)).filter(match => match !== null)`. */
  method CollectMatches(m: TextMap, ts: seq<Translation>) returns (matches: seq<Match>)
    ensures matches == MatchesOf(m, ts)
  {
    ghost var found := Found(m, ts);
    matches := [];
    for k := 0 to |ts|
      invariant matches == Present(found[..k])
    {
      var matched := FindMatch(m, ts[k]);
      assert found[k] == matched;
      PresentStep(found, k);
      if matched.Some? {
        matches := matches + [matched.value];
      }
    }
    assert found[..|ts|] == found;
  }

  /** `for (const match of matches) replaceAtPosition(match)`, threading the node texts. */
  method ReplaceAll(matches: seq<Match>, texts0: map<nat, string>) returns (actions: seq<Action>, texts: map<nat, string>)
    ensures (actions, texts) == ApplyFrom(matches, 0, texts0)
  {
    texts := texts0;
    actions := [];
    ghost var all := ApplyFrom(matches, 0, texts0);
    for k := 0 to |matches|
      invariant all.0 == actions + ApplyFrom(matches, k, texts).0
      invariant all.1 == ApplyFrom(matches, k, texts).1
    {
      var action, texts' := ReplaceAtPosition(matches[k], texts);
      ghost var rest := ApplyFrom(matches, k + 1, texts');
      assert ApplyFrom(matches, k, texts) == ([action] + rest.0, rest.1);
      assert actions + ([action] + rest.0) == (actions + [action]) + rest.0;
      actions := actions + [action];
      texts := texts';
    }
    assert ApplyFrom(matches, |matches|, texts) == ([], texts);
    assert actions + [] == actions;
  }

  /** An action answers to a match: same offset, a multi-node skip exactly for a match over other than one node, a mount only on the match's node. */
  predicate Corresponds(a: Action, matched: Match) {
    && a.globalOffset == matched.globalOffset
    && (a.SkipMultiNode? <==> |matched.spanningNodes| != 1)
    && (a.Mount? ==> |matched.spanningNodes| == 1 && a.node == matched.spanningNodes[0].node)
  }

  /** The actions answer one to one, in order, to the matches of `ms` from position `k`. */
  predicate CorrespondFrom(actions: seq<Action>, ms: seq<Match>, k: nat)
    requires k <= |ms|
  {
    |actions| == |ms| - k && forall j :: 0 <= j < |actions| ==> Corresponds(actions[j], ms[k + j])
  }

  lemma CorrespondCons(a: Action, rest: seq<Action>, ms: seq<Match>, k: nat)
    requires k < |ms| && Corresponds(a, ms[k]) && CorrespondFrom(rest, ms, k + 1)
    ensures CorrespondFrom([a] + rest, ms, k)
  {
    forall j | 0 <= j < |rest| + 1
      ensures Corresponds(([a] + rest)[j], ms[k + j])
    {
      if j > 0 {
        assert ([a] + rest)[j] == rest[j - 1];
      }
    }
  }

  /** The actions of the loop from `k` correspond one to one with the matches from `k`. */
  lemma {:induction false} ApplyFromSpec(ms: seq<Match>, k: nat, texts: map<nat, string>)
    requires k <= |ms|
    decreases |ms| - k
    ensures CorrespondFrom(ApplyFrom(ms, k, texts).0, ms, k)
  {
    if k < |ms| {
      var s := ReplaceSpec(ms[k], texts);
      ReplaceKind(ms[k], texts);
      ApplyFromSpec(ms, k + 1, s.texts);
      var rest := ApplyFrom(ms, k + 1, s.texts);
      assert ApplyFrom(ms, k, texts).0 == [s.action] + rest.0;
      CorrespondCons(s.action, rest.0, ms, k);
    }
  }

  /** The kind of action for one match, without regard to the text it maps into. */
  lemma ReplaceKind(matched: Match, texts: map<nat, string>)
    ensures Corresponds(ReplaceSpec(matched, texts).action, matched)
  {
    ReplaceOutcome(matched, texts);
  }

  /** With no acceptable text node the page is left alone. */
  lemma ReplaceEmptyMap(doc: seq<DomText>, ts: seq<Translation>)
    requires TextMapOf(doc).nodes == []
    ensures ReplaceTextSegmentsSpec(doc, ts) == ([], InitialTexts(doc))
  {
  }

  /**
   * One action per match, at most one match per translation; actions come in
   * non-increasing global offset, and the j-th action answers to the j-th
   * match of the sorted list (see `Corresponds`).
   */
  lemma ReplaceTextSegmentsOrder(doc: seq<DomText>, ts: seq<Translation>)
    requires TextMapOf(doc).nodes != []
    ensures var actions := ReplaceTextSegmentsSpec(doc, ts).0;
      var sorted := SortDescending(MatchesOf(TextMapOf(doc), ts));
      && |actions| == |sorted| <= |ts|
      && multiset(sorted) == multiset(MatchesOf(TextMapOf(doc), ts))
      && (forall i, j :: 0 <= i < j < |actions| ==> actions[i].globalOffset >= actions[j].globalOffset)
      && (forall j :: 0 <= j < |actions| ==> Corresponds(actions[j], sorted[j]))
  {
    var m := TextMapOf(doc);
    PresentSpec(Found(m, ts));
    ReplaceAllOrder(MatchesOf(m, ts), InitialTexts(doc));
  }

  /** The same for any list of matches and any node texts. */
  lemma ReplaceAllOrder(matches: seq<Match>, texts: map<nat, string>)
    ensures var sorted := SortDescending(matches);
      var actions := ApplyFrom(sorted, 0, texts).0;
      && |actions| == |sorted| == |matches|
      && multiset(sorted) == multiset(matches)
      && (forall i, j :: 0 <= i < j < |actions| ==> actions[i].globalOffset >= actions[j].globalOffset)
      && (forall j :: 0 <= j < |actions| ==> Corresponds(actions[j], sorted[j]))
  {
    var sorted := SortDescending(matches);
    assert |sorted| == |matches| by {
      assert |multiset(sorted)| == |multiset(matches)|;
    }
    ApplyFromSpec(sorted, 0, texts);
  }
}
