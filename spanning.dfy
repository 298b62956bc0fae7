/**
 * `getSpanningNodes`: the text-map entries a global range `[globalStart,
 * globalStart + length)` of the full text overlaps, each with the range
 * clipped to node-local offsets of its normalised text.
 */
module Spanning {
  import opened TextMapping

  /** One entry of the result: a text node and a range of its normalised text. */
  datatype Span = Span(node: nat, startOffset: int, endOffset: int)

  function Max(a: int, b: int): int {
    if a >= b then a else b
  }

  function Min(a: int, b: int): int {
    if a <= b then a else b
  }

  /** The entry's global range meets `[gs, ge)` (the complement of the loop's `continue` test). */
  predicate Overlaps(info: TextNodeInfo, gs: int, ge: int) {
    !(info.endOffset <= gs || info.startOffset >= ge)
  }

  /** The entry spans exactly its normalised text. */
  predicate Sized(info: TextNodeInfo) {
    info.endOffset - info.startOffset == |info.normalizedText|
  }

  /**
   * `[gs, ge)` clipped to an entry and made local to it. For an overlapping
   * entry the local range lies inside the normalised text and, shifted back by
   * the entry's start, is exactly the intersection of the two global ranges.
   */
  function Clip(info: TextNodeInfo, gs: int, ge: int): (r: Span)
    ensures r.node == info.node
    ensures Overlaps(info, gs, ge) && Sized(info) && gs <= ge ==>
              && 0 <= r.startOffset <= r.endOffset <= |info.normalizedText|
              && info.startOffset + r.startOffset == Max(gs, info.startOffset)
              && info.startOffset + r.endOffset == Min(ge, info.endOffset)
  {
    Span(info.node, Max(0, gs - info.startOffset), Min(|info.normalizedText|, ge - info.startOffset))
  }

  /** The clipped ranges of the overlapping entries, in entry order. */
  function SpansOf(nodes: seq<TextNodeInfo>, gs: int, ge: int): seq<Span> {
    if nodes == [] then []
    else (if Overlaps(nodes[0], gs, ge) then [Clip(nodes[0], gs, ge)] else []) + SpansOf(nodes[1..], gs, ge)
  }

  lemma {:induction false} SpansOfConcat(a: seq<TextNodeInfo>, b: seq<TextNodeInfo>, gs: int, ge: int)
    decreases |a|
    ensures SpansOf(a + b, gs, ge) == SpansOf(a, gs, ge) + SpansOf(b, gs, ge)
  {
    if a == [] {
      assert a + b == b;
    } else {
      var head := if Overlaps(a[0], gs, ge) then [Clip(a[0], gs, ge)] else [];
      assert (a + b)[0] == a[0];
      assert (a + b)[1..] == a[1..] + b;
      assert SpansOf(a + b, gs, ge) == head + SpansOf(a[1..] + b, gs, ge);
      assert SpansOf(a, gs, ge) == head + SpansOf(a[1..], gs, ge);
      SpansOfConcat(a[1..], b, gs, ge);
    }
  }

  /** `getSpanningNodes`: one pass over the entries, pushing the clipped range of each overlapping one. */
  method GetSpanningNodes(m: TextMap, globalStart: nat, length: nat) returns (spans: seq<Span>)
    ensures spans == SpansOf(m.nodes, globalStart, globalStart + length)
  {
    var globalEnd := globalStart + length;
    spans := [];
    for i := 0 to |m.nodes|
      invariant spans == SpansOf(m.nodes[..i], globalStart, globalEnd)
    {
      var nodeInfo := m.nodes[i];
      assert m.nodes[..i + 1] == m.nodes[..i] + [nodeInfo];
      SpansOfConcat(m.nodes[..i], [nodeInfo], globalStart, globalEnd);
      if !(nodeInfo.endOffset <= globalStart || nodeInfo.startOffset >= globalEnd) {
        var localStart := Max(0, globalStart - nodeInfo.startOffset);
        var localEnd := Min(|nodeInfo.normalizedText|, globalEnd - nodeInfo.startOffset);
        spans := spans + [Span(nodeInfo.node, localStart, localEnd)];
      }
    }
    assert m.nodes[..|m.nodes|] == m.nodes;
  }

  // ---------------------------------------------------------------------------
  // What the result is made of

  /** The indices of the overlapping entries: increasing, and exactly the overlapping ones. */
  function OverlappingEntries(nodes: seq<TextNodeInfo>, gs: int, ge: int): (ix: seq<nat>)
    decreases |nodes|
    ensures forall k :: 0 <= k < |ix| ==> ix[k] < |nodes| && Overlaps(nodes[ix[k]], gs, ge)
    ensures forall a, b :: 0 <= a < b < |ix| ==> ix[a] < ix[b]
    ensures forall j :: 0 <= j < |nodes| && Overlaps(nodes[j], gs, ge) ==> j in ix
  {
    if nodes == [] then []
    else
      var tail := OverlappingEntries(nodes[1..], gs, ge);
      ShiftedEntries(nodes, tail, gs, ge);
      (if Overlaps(nodes[0], gs, ge) then [0] else []) + Shift(tail)
  }

  function Shift(ix: seq<nat>): (r: seq<nat>)
    ensures |r| == |ix| && forall k :: 0 <= k < |ix| ==> r[k] == ix[k] + 1
  {
    seq(|ix|, k requires 0 <= k < |ix| => ix[k] + 1)
  }

  /** The overlapping entries after the first are those of the rest, shifted by one. */
  lemma ShiftedEntries(nodes: seq<TextNodeInfo>, tail: seq<nat>, gs: int, ge: int)
    requires nodes != []
    requires forall k :: 0 <= k < |tail| ==> tail[k] < |nodes| - 1 && Overlaps(nodes[1..][tail[k]], gs, ge)
    requires forall a, b :: 0 <= a < b < |tail| ==> tail[a] < tail[b]
    requires forall j :: 0 <= j < |nodes| - 1 && Overlaps(nodes[1..][j], gs, ge) ==> j in tail
    ensures var ix := (if Overlaps(nodes[0], gs, ge) then [0] else []) + Shift(tail);
      && (forall k :: 0 <= k < |ix| ==> ix[k] < |nodes| && Overlaps(nodes[ix[k]], gs, ge))
      && (forall a, b :: 0 <= a < b < |ix| ==> ix[a] < ix[b])
      && (forall j :: 0 <= j < |nodes| && Overlaps(nodes[j], gs, ge) ==> j in ix)
  {
    var head: seq<nat> := if Overlaps(nodes[0], gs, ge) then [0] else [];
    ShiftedSound(nodes, head, tail, gs, ge);
    ShiftedIncreasing(head, tail);
    ShiftedComplete(nodes, head, tail, gs, ge);
  }

  lemma ShiftedSound(nodes: seq<TextNodeInfo>, head: seq<nat>, tail: seq<nat>, gs: int, ge: int)
    requires nodes != [] && head == (if Overlaps(nodes[0], gs, ge) then [0] else [])
    requires forall k :: 0 <= k < |tail| ==> tail[k] < |nodes| - 1 && Overlaps(nodes[1..][tail[k]], gs, ge)
    ensures var ix := head + Shift(tail);
      forall k :: 0 <= k < |ix| ==> ix[k] < |nodes| && Overlaps(nodes[ix[k]], gs, ge)
  {
    var shifted := Shift(tail);
    var ix := head + shifted;
    forall k | 0 <= k < |ix|
      ensures ix[k] < |nodes| && Overlaps(nodes[ix[k]], gs, ge)
    {
      if k >= |head| {
        var t := k - |head|;
        assert ix[k] == shifted[t] == tail[t] + 1;
        assert nodes[ix[k]] == nodes[1..][tail[t]];
      }
    }
  }

  lemma ShiftedIncreasing(head: seq<nat>, tail: seq<nat>)
    requires head == [] || head == [0]
    requires forall a, b :: 0 <= a < b < |tail| ==> tail[a] < tail[b]
    ensures var ix := head + Shift(tail);
      forall a, b :: 0 <= a < b < |ix| ==> ix[a] < ix[b]
  {
    var shifted := Shift(tail);
    var ix := head + shifted;
    forall a, b | 0 <= a < b < |ix|
      ensures ix[a] < ix[b]
    {
      assert ix[b] == shifted[b - |head|];
      if a >= |head| {
        assert ix[a] == shifted[a - |head|];
      }
    }
  }

  lemma ShiftedComplete(nodes: seq<TextNodeInfo>, head: seq<nat>, tail: seq<nat>, gs: int, ge: int)
    requires nodes != [] && head == (if Overlaps(nodes[0], gs, ge) then [0] else [])
    requires forall j :: 0 <= j < |nodes| - 1 && Overlaps(nodes[1..][j], gs, ge) ==> j in tail
    ensures var ix := head + Shift(tail);
      forall j :: 0 <= j < |nodes| && Overlaps(nodes[j], gs, ge) ==> j in ix
  {
    var shifted := Shift(tail);
    var ix := head + shifted;
    forall j | 0 <= j < |nodes| && Overlaps(nodes[j], gs, ge)
      ensures j in ix
    {
      if j == 0 {
        assert ix[0] == 0;
      } else {
        assert nodes[j] == nodes[1..][j - 1];
        var t :| 0 <= t < |tail| && tail[t] == j - 1;
        assert ix[|head| + t] == j;
      }
    }
  }

  /** Span `k` is the clip of the `k`-th overlapping entry. */
  lemma {:induction false} SpansAreClips(nodes: seq<TextNodeInfo>, gs: int, ge: int)
    decreases |nodes|
    ensures var spans, ix := SpansOf(nodes, gs, ge), OverlappingEntries(nodes, gs, ge);
      && |spans| == |ix|
      && (forall k :: 0 <= k < |ix| ==> ix[k] < |nodes| && spans[k] == Clip(nodes[ix[k]], gs, ge))
  {
    if nodes != [] {
      var rest := nodes[1..];
      SpansAreClips(rest, gs, ge);
      var tailIx := OverlappingEntries(rest, gs, ge);
      var tail := SpansOf(rest, gs, ge);
      var headIx: seq<nat> := if Overlaps(nodes[0], gs, ge) then [0] else [];
      var head := if Overlaps(nodes[0], gs, ge) then [Clip(nodes[0], gs, ge)] else [];
      assert OverlappingEntries(nodes, gs, ge) == headIx + Shift(tailIx);
      assert SpansOf(nodes, gs, ge) == head + tail;
      ClipsCons(nodes, gs, ge, headIx, head, tailIx, tail);
    }
  }

  /** The step of `SpansAreClips`: putting the first entry in front of the clips of the rest. */
  lemma ClipsCons(nodes: seq<TextNodeInfo>, gs: int, ge: int, headIx: seq<nat>, head: seq<Span>, tailIx: seq<nat>, tail: seq<Span>)
    requires nodes != []
    requires headIx == (if Overlaps(nodes[0], gs, ge) then [0] else [])
    requires head == (if Overlaps(nodes[0], gs, ge) then [Clip(nodes[0], gs, ge)] else [])
    requires |tail| == |tailIx|
    requires forall k :: 0 <= k < |tailIx| ==> tailIx[k] < |nodes| - 1 && tail[k] == Clip(nodes[1..][tailIx[k]], gs, ge)
    ensures var ix, spans := headIx + Shift(tailIx), head + tail;
      && |spans| == |ix|
      && (forall k :: 0 <= k < |ix| ==> ix[k] < |nodes| && spans[k] == Clip(nodes[ix[k]], gs, ge))
  {
    var shifted := Shift(tailIx);
    var ix, spans := headIx + shifted, head + tail;
    forall k | 0 <= k < |ix|
      ensures ix[k] < |nodes| && spans[k] == Clip(nodes[ix[k]], gs, ge)
    {
      if k >= |head| {
        var t := k - |head|;
        assert ix[k] == shifted[t] == tailIx[t] + 1;
        assert spans[k] == tail[t];
        assert nodes[ix[k]] == nodes[1..][tailIx[t]];
      }
    }
  }

  /** In a well-formed map every span is a non-inverted range inside its node's normalised text. */
  lemma SpansWithinNodes(m: TextMap, gs: int, ge: int)
    requires WellFormed(m) && gs <= ge
    ensures var spans, ix := SpansOf(m.nodes, gs, ge), OverlappingEntries(m.nodes, gs, ge);
      && |spans| == |ix|
      && forall k :: 0 <= k < |spans| ==>
        && ix[k] < |m.nodes|
        && spans[k].node == m.nodes[ix[k]].node
        && 0 <= spans[k].startOffset <= spans[k].endOffset <= |m.nodes[ix[k]].normalizedText|
  {
    SpansAreClips(m.nodes, gs, ge);
    var ix := OverlappingEntries(m.nodes, gs, ge);
    assert forall k :: 0 <= k < |ix| ==> Sized(m.nodes[ix[k]]);
  }

  /** A built map's spans follow document order. */
  lemma SpansInDocumentOrder(doc: seq<DomText>, gs: int, ge: int)
    ensures var spans := SpansOf(TextMapOf(doc).nodes, gs, ge);
      forall a, b :: 0 <= a < b < |spans| ==> spans[a].node < spans[b].node
  {
    var m := TextMapOf(doc);
    MapHoldsAcceptedNodes(m, doc);
    SpansAreClips(m.nodes, gs, ge);
  }

  /** With no empty entry, a non-empty range gives spans that are non-empty ranges inside their nodes' normalised texts. */
  lemma SpansStrict(m: TextMap, gs: int, ge: int)
    requires WellFormed(m) && gs < ge
    requires forall i :: 0 <= i < |m.nodes| ==> m.nodes[i].normalizedText != []
    ensures var spans, ix := SpansOf(m.nodes, gs, ge), OverlappingEntries(m.nodes, gs, ge);
      && |spans| == |ix|
      && forall k :: 0 <= k < |spans| ==>
        && ix[k] < |m.nodes|
        && spans[k].node == m.nodes[ix[k]].node
        && 0 <= spans[k].startOffset < spans[k].endOffset <= |m.nodes[ix[k]].normalizedText|
  {
    var spans, ix := SpansOf(m.nodes, gs, ge), OverlappingEntries(m.nodes, gs, ge);
    SpansAreClips(m.nodes, gs, ge);
    forall k | 0 <= k < |spans|
      ensures 0 <= spans[k].startOffset < spans[k].endOffset <= |m.nodes[ix[k]].normalizedText|
    {
      var info := m.nodes[ix[k]];
      assert Sized(info) && Overlaps(info, gs, ge);
      assert info.startOffset < info.endOffset;
    }
  }

  /**
   * Over a built map and a non-empty range, every span is a non-empty range
   * inside its node's normalised text, and the spans follow document order.
   */
  lemma BuiltMapSpans(doc: seq<DomText>, gs: int, ge: int)
    requires gs < ge
    ensures var m := TextMapOf(doc);
      var spans, ix := SpansOf(m.nodes, gs, ge), OverlappingEntries(m.nodes, gs, ge);
      && |spans| == |ix|
      && (forall k :: 0 <= k < |spans| ==>
            && ix[k] < |m.nodes|
            && spans[k].node == m.nodes[ix[k]].node
            && 0 <= spans[k].startOffset < spans[k].endOffset <= |m.nodes[ix[k]].normalizedText|)
      && (forall a, b :: 0 <= a < b < |spans| ==> spans[a].node < spans[b].node)
  {
    var m := TextMapOf(doc);
    AcceptedNodesNonEmpty(m, doc);
    SpansStrict(m, gs, ge);
    SpansInDocumentOrder(doc, gs, ge);
  }

  // ---------------------------------------------------------------------------
  // The local lengths add up to the length of the range

  function SumLengths(spans: seq<Span>): int {
    if spans == [] then 0 else (spans[0].endOffset - spans[0].startOffset) + SumLengths(spans[1..])
  }

  /**
   * Over entries laid out contiguously from `base`, the local lengths add up
   * to the length of the part of `[gs, ge)` the entries cover.
   */
  lemma {:induction false} SumOfClips(nodes: seq<TextNodeInfo>, base: nat, gs: int, ge: int)
    requires ContiguousFrom(nodes, base) && gs <= ge
    decreases |nodes|
    ensures SumLengths(SpansOf(nodes, gs, ge)) == Max(0, Min(ge, base + |ConcatNormalizedFront(nodes)|) - Max(gs, base))
  {
    if nodes != [] {
      var n0 := nodes[0];
      var rest := nodes[1..];
      var b1 := n0.endOffset;
      SumOfClips(rest, b1, gs, ge);
      var tail := SpansOf(rest, gs, ge);
      assert |ConcatNormalizedFront(nodes)| == |n0.normalizedText| + |ConcatNormalizedFront(rest)|;
      if Overlaps(n0, gs, ge) {
        var c := Clip(n0, gs, ge);
        assert Sized(n0);
        assert SpansOf(nodes, gs, ge) == [c] + tail;
        assert ([c] + tail)[1..] == tail;
        assert c.endOffset - c.startOffset == Min(ge, b1) - Max(gs, base);
      } else {
        assert SpansOf(nodes, gs, ge) == tail;
      }
    }
  }

  /** For a range inside the full text of a well-formed map, the local lengths add up to its length. */
  lemma SpanLengthsSum(m: TextMap, globalStart: nat, length: nat)
    requires WellFormed(m) && globalStart + length <= |m.fullText|
    ensures SumLengths(SpansOf(m.nodes, globalStart, globalStart + length)) == length
  {
    WellFormedContiguous(m);
    ConcatFrontBack(m.nodes);
    SumOfClips(m.nodes, 0, globalStart, globalStart + length);
  }

  /** A non-empty range inside the full text always meets some node. */
  lemma SpansNonEmpty(m: TextMap, globalStart: nat, length: nat)
    requires WellFormed(m) && 0 < length && globalStart + length <= |m.fullText|
    ensures SpansOf(m.nodes, globalStart, globalStart + length) != []
  {
    SpanLengthsSum(m, globalStart, length);
  }

  // ---------------------------------------------------------------------------
  // A range inside one node

  lemma {:induction false} OffsetsOrderedFrom(nodes: seq<TextNodeInfo>, a: nat, b: nat)
    requires OffsetsConsistent(nodes) && a < b < |nodes|
    decreases b - a
    ensures nodes[a].endOffset <= nodes[b].startOffset
  {
    if a + 1 < b {
      OffsetsOrderedFrom(nodes, a + 1, b);
    }
  }

  /** Entries of a consistent layout come one after another. */
  lemma OffsetsOrdered(nodes: seq<TextNodeInfo>)
    requires OffsetsConsistent(nodes)
    ensures forall a, b :: 0 <= a < b < |nodes| ==> nodes[a].endOffset <= nodes[b].startOffset
  {
    forall a, b | 0 <= a < b < |nodes|
      ensures nodes[a].endOffset <= nodes[b].startOffset
    {
      OffsetsOrderedFrom(nodes, a, b);
    }
  }

  lemma {:induction false} SpansOfNone(nodes: seq<TextNodeInfo>, gs: int, ge: int)
    requires forall i :: 0 <= i < |nodes| ==> !Overlaps(nodes[i], gs, ge)
    decreases |nodes|
    ensures SpansOf(nodes, gs, ge) == []
  {
    if nodes != [] {
      assert !Overlaps(nodes[0], gs, ge);
      SpansOfNone(nodes[1..], gs, ge);
    }
  }

  /** A non-empty range inside one entry gives exactly one span: that entry, with the range made local. */
  lemma SingleNodeRange(m: TextMap, j: nat, globalStart: nat, length: nat)
    requires WellFormed(m) && j < |m.nodes| && 0 < length
    requires m.nodes[j].startOffset <= globalStart && globalStart + length <= m.nodes[j].endOffset
    ensures SpansOf(m.nodes, globalStart, globalStart + length) ==
              [Span(m.nodes[j].node, globalStart - m.nodes[j].startOffset, globalStart + length - m.nodes[j].startOffset)]
  {
    OffsetsOrdered(m.nodes);
    assert Sized(m.nodes[j]);
    SingleEntry(m.nodes, j, globalStart, globalStart + length);
  }

  /** Over entries that come one after another, a range inside entry `j` meets that entry alone. */
  lemma SingleEntry(nodes: seq<TextNodeInfo>, j: nat, gs: int, ge: int)
    requires j < |nodes| && gs < ge && nodes[j].startOffset <= gs && ge <= nodes[j].endOffset
    requires forall a, b :: 0 <= a < b < |nodes| ==> nodes[a].endOffset <= nodes[b].startOffset
    ensures SpansOf(nodes, gs, ge) == [Clip(nodes[j], gs, ge)]
  {
    var before, at, after := nodes[..j], [nodes[j]], nodes[j + 1..];
    assert nodes == before + at + after;
    SpansOfConcat(before + at, after, gs, ge);
    SpansOfConcat(before, at, gs, ge);
    forall i | 0 <= i < |before|
      ensures !Overlaps(before[i], gs, ge)
    {
      assert before[i] == nodes[i];
    }
    forall i | 0 <= i < |after|
      ensures !Overlaps(after[i], gs, ge)
    {
      assert after[i] == nodes[j + 1 + i];
    }
    SpansOfNone(before, gs, ge);
    SpansOfNone(after, gs, ge);
    assert SpansOf(at, gs, ge) == [Clip(nodes[j], gs, ge)] + SpansOf([], gs, ge);
  }
}
