/**
 * `buildTextMap` and `getSpanningNodes`: the flat, globally addressed search
 * buffer built from the page's accepted text nodes, and the clipping of a
 * global range back onto node-local ranges.
 *
 * A DOM text node is modelled by its text and its chain of ancestor elements
 * (nearest first); its identity is its position in document order.
 */
module TextMapping {
  import opened Wrappers
  import opened JsText
  import opened Normalize

  /** An element: its tag name as the DOM reports it, and its class list. */
  datatype Element = Element(tagName: string, classList: set<string>)

  /** A text node in document order: its text and its ancestors, `ancestors[0]` being `parentElement`. */
  datatype DomText = DomText(text: string, ancestors: seq<Element>)

  /** The marker class that `mountLexaRoot` puts on every replacement element. */
  const LexaRootClass: string := "lexa-root-node"

  /** Parent tags whose text is never matched. */
  const SkippedTags: set<string> := {"script", "style", "textarea", "noscript"}

  /** Some ancestor, or the parent itself, carries the marker class (`classList.contains` or `closest`). */
  predicate InsideLexaRoot(n: DomText) {
    exists k :: 0 <= k < |n.ancestors| && LexaRootClass in n.ancestors[k].classList
  }

  /** The tree walker's `acceptNode` filter; a node it accepts adds non-empty text to the search buffer. */
  predicate Accepts(n: DomText): (b: bool)
    ensures b ==> NormalizeText(n.text) != []
  {
    var b := && |n.ancestors| > 0
             && Lower(n.ancestors[0].tagName) !in SkippedTags
             && !InsideLexaRoot(n)
             && Trim(n.text) != [];
    if b then NonBlankNormalizesNonEmpty(n.text); b else b
  }

  /** One entry of `textMap.nodes`; `node` is the text node's document position. */
  datatype TextNodeInfo = TextNodeInfo(
    node: nat,
    originalText: string,
    normalizedText: string,
    startOffset: nat,
    endOffset: nat)

  datatype TextMap = TextMap(fullText: string, originalFullText: string, nodes: seq<TextNodeInfo>)

  /** Positions below `k` whose flag is set, in increasing order. */
  function Selected(flags: seq<bool>, k: nat): seq<nat>
    requires k <= |flags|
  {
    if k == 0 then []
    else if flags[k - 1] then Selected(flags, k - 1) + [k - 1]
    else Selected(flags, k - 1)
  }

  /** The selected positions below `k` are exactly the flagged ones there, increasing. */
  lemma {:induction false} SelectedSpec(flags: seq<bool>, k: nat)
    requires k <= |flags|
    decreases k
    ensures forall i :: i in Selected(flags, k) ==> i < k
    ensures forall i :: 0 <= i < k ==> (i in Selected(flags, k) <==> flags[i])
    ensures forall a, b :: 0 <= a < b < |Selected(flags, k)| ==> Selected(flags, k)[a] < Selected(flags, k)[b]
  {
    if k > 0 {
      SelectedSpec(flags, k - 1);
      var below := Selected(flags, k - 1);
      if flags[k - 1] {
        var r := below + [k - 1];
        assert Selected(flags, k) == r;
        forall a, b | 0 <= a < b < |r| ensures r[a] < r[b] {
          if b == |r| - 1 {
            assert r[a] == below[a] && below[a] in below;
          }
        }
      }
    }
  }

  lemma SelectedStep(flags: seq<bool>, k: nat)
    requires k < |flags|
    ensures Selected(flags, k + 1) == if flags[k] then Selected(flags, k) + [k] else Selected(flags, k)
  {
  }

  /** Which text nodes of the document the walker accepts. */
  function AcceptFlags(doc: seq<DomText>): (flags: seq<bool>)
    ensures |flags| == |doc|
  {
    if doc == [] then [] else AcceptFlags(doc[..|doc| - 1]) + [Accepts(doc[|doc| - 1])]
  }

  /** Flag `k` is the walker's verdict on node `k`. */
  lemma {:induction false} AcceptFlagAt(doc: seq<DomText>, k: nat)
    requires k < |doc|
    decreases |doc|
    ensures AcceptFlags(doc)[k] == Accepts(doc[k])
  {
    var init := doc[..|doc| - 1];
    assert AcceptFlags(doc) == AcceptFlags(init) + [Accepts(doc[|doc| - 1])];
    if k < |doc| - 1 {
      AcceptFlagAt(init, k);
      assert init[k] == doc[k];
    }
  }

  /** Every flag is the walker's verdict on its node. */
  lemma AcceptFlagsSpec(doc: seq<DomText>)
    ensures forall i :: 0 <= i < |doc| ==> AcceptFlags(doc)[i] == Accepts(doc[i])
  {
    forall i | 0 <= i < |doc|
      ensures AcceptFlags(doc)[i] == Accepts(doc[i])
    {
      AcceptFlagAt(doc, i);
    }
  }

  /** Document positions below `k` that the walker accepts, in document order. */
  function AcceptedBelow(doc: seq<DomText>, k: nat): seq<nat>
    requires k <= |doc|
  {
    Selected(AcceptFlags(doc), k)
  }

  function ConcatNormalized(nodes: seq<TextNodeInfo>): string {
    if nodes == [] then [] else ConcatNormalized(nodes[..|nodes| - 1]) + nodes[|nodes| - 1].normalizedText
  }

  function ConcatOriginal(nodes: seq<TextNodeInfo>): string {
    if nodes == [] then [] else ConcatOriginal(nodes[..|nodes| - 1]) + nodes[|nodes| - 1].originalText
  }

  /** Offsets start at 0, each node spans exactly its normalised text, and consecutive nodes are contiguous. */
  predicate OffsetsConsistent(nodes: seq<TextNodeInfo>) {
    && (|nodes| > 0 ==> nodes[0].startOffset == 0)
    && (forall i :: 0 <= i < |nodes| ==> nodes[i].endOffset - nodes[i].startOffset == |nodes[i].normalizedText|)
    && (forall i :: 0 <= i < |nodes| - 1 ==> nodes[i + 1].startOffset == nodes[i].endOffset)
  }

  /** The global offset after the last node. */
  function EndOf(nodes: seq<TextNodeInfo>): nat {
    if nodes == [] then 0 else nodes[|nodes| - 1].endOffset
  }

  /** The invariants of a built text map. */
  predicate WellFormed(m: TextMap) {
    Layout(m.nodes, m.fullText, m.originalFullText)
  }

  /** The entry describes the text node at document position `k`, whose normalised text is `norms[k]`. */
  predicate NodeDescribes(info: TextNodeInfo, k: nat, doc: seq<DomText>, norms: seq<string>) {
    && info.node == k
    && k < |doc|
    && k < |norms|
    && info.originalText == doc[k].text
    && info.normalizedText == norms[k]
  }

  /** The normalised text of every text node of `doc`. */
  function NormalizedTexts(doc: seq<DomText>): (norms: seq<string>)
    ensures |norms| == |doc|
  {
    if doc == [] then [] else NormalizedTexts(doc[..|doc| - 1]) + [NormalizeText(doc[|doc| - 1].text)]
  }

  /** Entry `k` of `NormalizedTexts(doc)` is the normalised text of node `k`. */
  lemma {:induction false} NormalizedTextAt(doc: seq<DomText>, k: nat)
    requires k < |doc|
    decreases |doc|
    ensures NormalizedTexts(doc)[k] == NormalizeText(doc[k].text)
  {
    var init := doc[..|doc| - 1];
    assert NormalizedTexts(doc) == NormalizedTexts(init) + [NormalizeText(doc[|doc| - 1].text)];
    if k < |doc| - 1 {
      NormalizedTextAt(init, k);
      assert init[k] == doc[k];
    }
  }

  /** The map holds exactly the accepted nodes of `doc`, in document order, each with its own text. */
  predicate DescribesDocument(m: TextMap, doc: seq<DomText>) {
    DescribesPrefix(m.nodes, AcceptedBelow(doc, |doc|), doc, NormalizedTexts(doc))
  }

  /** The buffers hold the concatenation of the entries' texts, laid out end to end from offset 0. */
  predicate Layout(nodes: seq<TextNodeInfo>, fullText: string, originalFullText: string) {
    && OffsetsConsistent(nodes)
    && fullText == ConcatNormalized(nodes)
    && originalFullText == ConcatOriginal(nodes)
    && |fullText| == EndOf(nodes)
  }

  /** Appending an entry that starts where the buffer ends keeps the layout. */
  lemma LayoutAppend(nodes: seq<TextNodeInfo>, fullText: string, originalFullText: string, info: TextNodeInfo)
    requires Layout(nodes, fullText, originalFullText)
    requires info.startOffset == |fullText| && info.endOffset == info.startOffset + |info.normalizedText|
    ensures Layout(nodes + [info], fullText + info.normalizedText, originalFullText + info.originalText)
  {
    var ns := nodes + [info];
    assert ns[..|nodes|] == nodes;
    assert ConcatNormalized(ns) == ConcatNormalized(nodes) + info.normalizedText;
    assert ConcatOriginal(ns) == ConcatOriginal(nodes) + info.originalText;
    assert forall i :: 0 <= i < |nodes| ==> ns[i] == nodes[i];
    assert OffsetsConsistent(ns);
  }

  /** The entries describe, in order, the document positions `sel`. */
  predicate DescribesPrefix(nodes: seq<TextNodeInfo>, sel: seq<nat>, doc: seq<DomText>, norms: seq<string>) {
    && |nodes| == |sel|
    && (forall i :: 0 <= i < |nodes| ==> NodeDescribes(nodes[i], sel[i], doc, norms))
  }

  lemma DescribesAppend(nodes: seq<TextNodeInfo>, sel: seq<nat>, doc: seq<DomText>, norms: seq<string>, info: TextNodeInfo, k: nat)
    requires DescribesPrefix(nodes, sel, doc, norms) && NodeDescribes(info, k, doc, norms)
    ensures DescribesPrefix(nodes + [info], sel + [k], doc, norms)
  {
    assert forall i :: 0 <= i < |nodes| ==> (nodes + [info])[i] == nodes[i] && (sel + [k])[i] == sel[i];
  }

  /**
   * The map `buildTextMap` has built after visiting the first `k` text nodes
   * of `doc`, of which those flagged in `flags` are accepted and whose
   * normalised texts are `norms`.
   */
  function TextMapPrefix(doc: seq<DomText>, flags: seq<bool>, norms: seq<string>, k: nat): TextMap
    requires k <= |doc| == |flags| == |norms|
  {
    if k == 0 then TextMap("", "", [])
    else
      var p := TextMapPrefix(doc, flags, norms, k - 1);
      if flags[k - 1] then
        var info := TextNodeInfo(k - 1, doc[k - 1].text, norms[k - 1], |p.fullText|, |p.fullText| + |norms[k - 1]|);
        TextMap(p.fullText + norms[k - 1], p.originalFullText + doc[k - 1].text, p.nodes + [info])
      else p
  }

  /** Every prefix map is laid out end to end and describes the flagged nodes seen so far. */
  lemma TextMapPrefixShape(doc: seq<DomText>, flags: seq<bool>, norms: seq<string>, k: nat)
    requires k <= |doc| == |flags| == |norms|
    ensures var m := TextMapPrefix(doc, flags, norms, k);
      Layout(m.nodes, m.fullText, m.originalFullText) && DescribesPrefix(m.nodes, Selected(flags, k), doc, norms)
  {
    TextMapPrefixLayout(doc, flags, norms, k);
    TextMapPrefixDescribes(doc, flags, norms, k);
  }

  lemma {:induction false} TextMapPrefixLayout(doc: seq<DomText>, flags: seq<bool>, norms: seq<string>, k: nat)
    requires k <= |doc| == |flags| == |norms|
    decreases k
    ensures var m := TextMapPrefix(doc, flags, norms, k);
      Layout(m.nodes, m.fullText, m.originalFullText)
  {
    if k > 0 {
      var p := TextMapPrefix(doc, flags, norms, k - 1);
      TextMapPrefixLayout(doc, flags, norms, k - 1);
      var m := TextMapPrefix(doc, flags, norms, k);
      if flags[k - 1] {
        var info := TextNodeInfo(k - 1, doc[k - 1].text, norms[k - 1], |p.fullText|, |p.fullText| + |norms[k - 1]|);
        LayoutAppend(p.nodes, p.fullText, p.originalFullText, info);
        assert m.nodes == p.nodes + [info];
        assert m.fullText == p.fullText + info.normalizedText;
        assert m.originalFullText == p.originalFullText + info.originalText;
      } else {
        assert m == p;
      }
    }
  }

  lemma {:induction false} TextMapPrefixDescribes(doc: seq<DomText>, flags: seq<bool>, norms: seq<string>, k: nat)
    requires k <= |doc| == |flags| == |norms|
    decreases k
    ensures DescribesPrefix(TextMapPrefix(doc, flags, norms, k).nodes, Selected(flags, k), doc, norms)
  {
    if k > 0 {
      var p := TextMapPrefix(doc, flags, norms, k - 1);
      TextMapPrefixDescribes(doc, flags, norms, k - 1);
      SelectedStep(flags, k - 1);
      if flags[k - 1] {
        var info := TextNodeInfo(k - 1, doc[k - 1].text, norms[k - 1], |p.fullText|, |p.fullText| + |norms[k - 1]|);
        DescribesAppend(p.nodes, Selected(flags, k - 1), doc, norms, info, k - 1);
      }
    }
  }

  /** The layout and the described positions determine the map completely. */
  lemma LayoutUnique(m1: TextMap, m2: TextMap, sel: seq<nat>, doc: seq<DomText>, norms: seq<string>)
    requires WellFormed(m1) && DescribesPrefix(m1.nodes, sel, doc, norms)
    requires WellFormed(m2) && DescribesPrefix(m2.nodes, sel, doc, norms)
    ensures m1 == m2
  {
    var n1, n2 := m1.nodes, m2.nodes;
    var i := 0;
    while i < |n1|
      invariant i <= |n1|
      invariant forall j :: 0 <= j < i ==> n1[j] == n2[j]
    {
      assert n1[i].startOffset == n2[i].startOffset by {
        if i > 0 {
          assert n1[i - 1] == n2[i - 1];
        }
      }
      i := i + 1;
    }
    assert n1 == n2;
  }

  /** The text map of the whole document: well formed, and holding exactly its accepted nodes. */
  function TextMapOf(doc: seq<DomText>): (m: TextMap)
    ensures WellFormed(m)
    ensures DescribesDocument(m, doc)
  {
    TextMapPrefixShape(doc, AcceptFlags(doc), NormalizedTexts(doc), |doc|);
    TextMapPrefix(doc, AcceptFlags(doc), NormalizedTexts(doc), |doc|)
  }

  /** The text map of `doc` is the only well-formed map that holds exactly its accepted nodes. */
  lemma TextMapUnique(m: TextMap, doc: seq<DomText>)
    requires WellFormed(m) && DescribesDocument(m, doc)
    ensures m == TextMapOf(doc)
  {
    LayoutUnique(m, TextMapOf(doc), AcceptedBelow(doc, |doc|), doc, NormalizedTexts(doc));
  }

  /**
   * The tree walker's filter applied to node `k`, tied to the precomputed
   * flag sequence. It is a method of its own only so that the walker loop of
   * `BuildTextMap` reasons about one flag per step and stays cheap to verify.
   */
  method AcceptNode(doc: seq<DomText>, k: nat) returns (accepted: bool)
    requires k < |doc|
    ensures accepted == AcceptFlags(doc)[k]
  {
    accepted := Accepts(doc[k]);
    AcceptFlagAt(doc, k);
  }

  /**
   * `normalizeText` applied to the text of node `k`, tied to the precomputed
   * sequence of normalised texts; a separate method for the same reason as
   * `AcceptNode`.
   */
  method NormalizeNode(doc: seq<DomText>, k: nat) returns (normalizedText: string)
    requires k < |doc|
    ensures normalizedText == NormalizedTexts(doc)[k]
  {
    normalizedText := NormalizeText(doc[k].text);
    NormalizedTextAt(doc, k);
  }

  /** `buildTextMap`: walk the document, keep the accepted nodes, and lay out their normalised texts end to end. */
  method BuildTextMap(doc: seq<DomText>) returns (m: TextMap)
    ensures m == TextMapOf(doc)
  {
    ghost var flags := AcceptFlags(doc);
    ghost var norms := NormalizedTexts(doc);
    var nodes: seq<TextNodeInfo> := [];
    var fullText := "";
    var originalFullText := "";
    for k := 0 to |doc|
      invariant TextMap(fullText, originalFullText, nodes) == TextMapPrefix(doc, flags, norms, k)
    {
      var accepted := AcceptNode(doc, k);
      if accepted {
        var originalText := doc[k].text;
        var normalizedText := NormalizeNode(doc, k);
        var info := TextNodeInfo(k, originalText, normalizedText, |fullText|, |fullText| + |normalizedText|);
        nodes := nodes + [info];
        fullText := fullText + normalizedText;
        originalFullText := originalFullText + originalText;
      }
    }
    m := TextMap(fullText, originalFullText, nodes);
  }

  /** Every entry is an accepted node, and its normalised text is non-empty. */
  lemma AcceptedNodesNonEmpty(m: TextMap, doc: seq<DomText>)
    requires DescribesDocument(m, doc)
    ensures forall i :: 0 <= i < |m.nodes| ==> m.nodes[i].normalizedText != []
    ensures forall i :: 0 <= i < |m.nodes| ==> Accepts(doc[m.nodes[i].node])
  {
    var flags := AcceptFlags(doc);
    var accepted := Selected(flags, |doc|);
    SelectedSpec(flags, |doc|);
    AcceptFlagsSpec(doc);
    forall i | 0 <= i < |m.nodes|
      ensures m.nodes[i].normalizedText != [] && Accepts(doc[m.nodes[i].node])
    {
      assert accepted[i] in accepted;
      assert flags[accepted[i]];
      NormalizedTextAt(doc, accepted[i]);
      NonBlankNormalizesNonEmpty(m.nodes[i].originalText);
    }
  }

  /** A text node is in the map exactly when the walker accepts it, and the map keeps document order. */
  lemma MapHoldsAcceptedNodes(m: TextMap, doc: seq<DomText>)
    requires DescribesDocument(m, doc)
    ensures forall k :: 0 <= k < |doc| ==> (Accepts(doc[k]) <==> exists i :: 0 <= i < |m.nodes| && m.nodes[i].node == k)
    ensures forall a, b :: 0 <= a < b < |m.nodes| ==> m.nodes[a].node < m.nodes[b].node
  {
    var flags := AcceptFlags(doc);
    var accepted := Selected(flags, |doc|);
    SelectedSpec(flags, |doc|);
    AcceptFlagsSpec(doc);
    forall k | 0 <= k < |doc|
      ensures Accepts(doc[k]) <==> exists i :: 0 <= i < |m.nodes| && m.nodes[i].node == k
    {
      if Accepts(doc[k]) {
        assert flags[k];
        assert k in accepted;
        var i :| 0 <= i < |accepted| && accepted[i] == k;
        assert m.nodes[i].node == k;
      }
      if exists i :: 0 <= i < |m.nodes| && m.nodes[i].node == k {
        var i :| 0 <= i < |m.nodes| && m.nodes[i].node == k;
        assert accepted[i] in accepted;
        assert flags[k];
      }
    }
  }

  // ---------------------------------------------------------------------------
  // Suffix view of the offsets, for arguments by induction over the nodes

  /** The nodes are laid out contiguously from global offset `base`. */
  predicate ContiguousFrom(nodes: seq<TextNodeInfo>, base: nat)
    decreases |nodes|
  {
    nodes == [] ||
    (nodes[0].startOffset == base
     && nodes[0].endOffset == base + |nodes[0].normalizedText|
     && ContiguousFrom(nodes[1..], nodes[0].endOffset))
  }

  lemma {:induction false} ConsistentIsContiguous(nodes: seq<TextNodeInfo>, base: nat)
    requires (|nodes| > 0 ==> nodes[0].startOffset == base)
    requires forall i :: 0 <= i < |nodes| ==> nodes[i].endOffset - nodes[i].startOffset == |nodes[i].normalizedText|
    requires forall i :: 0 <= i < |nodes| - 1 ==> nodes[i + 1].startOffset == nodes[i].endOffset
    decreases |nodes|
    ensures ContiguousFrom(nodes, base)
    ensures |ConcatNormalizedFront(nodes)| == if nodes == [] then 0 else EndOf(nodes) - base
  {
    if nodes != [] {
      var tail := nodes[1..];
      assert forall i :: 0 <= i < |tail| ==> tail[i] == nodes[i + 1];
      ConsistentIsContiguous(tail, nodes[0].endOffset);
      if tail != [] {
        assert EndOf(tail) == EndOf(nodes);
      }
    }
  }

  /** The concatenation built from the front; equal to `ConcatNormalized`. */
  function ConcatNormalizedFront(nodes: seq<TextNodeInfo>): string
    decreases |nodes|
  {
    if nodes == [] then [] else nodes[0].normalizedText + ConcatNormalizedFront(nodes[1..])
  }

  lemma {:induction false} ConcatFrontBack(nodes: seq<TextNodeInfo>)
    decreases |nodes|
    ensures ConcatNormalizedFront(nodes) == ConcatNormalized(nodes)
  {
    if nodes != [] {
      var init := nodes[..|nodes| - 1];
      if init == [] {
        assert nodes[1..] == [];
        assert nodes == [nodes[0]];
      } else {
        ConcatFrontBack(init);
        ConcatFrontBack(nodes[1..]);
        ConcatFrontBack(init[1..]);
        assert init[1..] == nodes[1..][..|nodes[1..]| - 1];
        assert init[0] == nodes[0];
        assert nodes[1..][|nodes[1..]| - 1] == nodes[|nodes| - 1];
      }
    }
  }

  /** A well-formed map seen from the front: contiguous from 0, ending at `|fullText|`. */
  lemma WellFormedContiguous(m: TextMap)
    requires WellFormed(m)
    ensures ContiguousFrom(m.nodes, 0)
  {
    ConsistentIsContiguous(m.nodes, 0);
  }

  /** Each node's normalised text is the slice of the full text between its offsets. */
  lemma NodeTextsInFullText(nodes: seq<TextNodeInfo>, base: nat, full: string)
    requires ContiguousFrom(nodes, base)
    requires full == ConcatNormalizedFront(nodes)
    ensures forall i :: 0 <= i < |nodes| ==>
              base <= nodes[i].startOffset <= nodes[i].endOffset && nodes[i].endOffset - base <= |full| &&
              full[nodes[i].startOffset - base..nodes[i].endOffset - base] == nodes[i].normalizedText
  {
    forall i | 0 <= i < |nodes|
      ensures base <= nodes[i].startOffset <= nodes[i].endOffset && nodes[i].endOffset - base <= |full| &&
              full[nodes[i].startOffset - base..nodes[i].endOffset - base] == nodes[i].normalizedText
    {
      NodeTextInFullText(nodes, base, full, i);
    }
  }

  lemma {:induction false} NodeTextInFullText(nodes: seq<TextNodeInfo>, base: nat, full: string, i: nat)
    requires ContiguousFrom(nodes, base)
    requires full == ConcatNormalizedFront(nodes)
    requires i < |nodes|
    decreases i
    ensures base <= nodes[i].startOffset <= nodes[i].endOffset && nodes[i].endOffset - base <= |full|
    ensures full[nodes[i].startOffset - base..nodes[i].endOffset - base] == nodes[i].normalizedText
  {
    var n0 := nodes[0];
    var rest := nodes[1..];
    var restFull := ConcatNormalizedFront(rest);
    assert full == n0.normalizedText + restFull;
    assert n0.startOffset == base && n0.endOffset == base + |n0.normalizedText|;
    if i == 0 {
      assert full[0..|n0.normalizedText|] == n0.normalizedText;
      assert full[n0.startOffset - base..n0.endOffset - base] == n0.normalizedText;
    } else {
      assert ContiguousFrom(rest, n0.endOffset);
      NodeTextInFullText(rest, n0.endOffset, restFull, i - 1);
      var info := nodes[i];
      assert info == rest[i - 1];
      var s, e := info.startOffset - n0.endOffset, info.endOffset - n0.endOffset;
      assert 0 <= s <= e <= |restFull| && restFull[s..e] == info.normalizedText;
      SliceOfConcat(n0.normalizedText, restFull, |n0.normalizedText| + s, |n0.normalizedText| + e);
      assert info.startOffset - base == |n0.normalizedText| + s;
      assert info.endOffset - base == |n0.normalizedText| + e;
      assert full[info.startOffset - base..info.endOffset - base] == info.normalizedText;
    }
  }

  lemma SliceOfConcat(x: string, y: string, a: nat, b: nat)
    requires |x| <= a <= b <= |x| + |y|
    ensures (x + y)[a..b] == y[a - |x|..b - |x|]
  {
    assert forall k :: 0 <= k < b - a ==> (x + y)[a..b][k] == y[a - |x| + k];
  }

  /** In a well-formed map, `fullText[startOffset..endOffset]` is the node's normalised text. */
  lemma NodeTextAtOffsets(m: TextMap)
    requires WellFormed(m)
    ensures forall i :: 0 <= i < |m.nodes| ==>
              m.nodes[i].endOffset <= |m.fullText| &&
              m.fullText[m.nodes[i].startOffset..m.nodes[i].endOffset] == m.nodes[i].normalizedText
  {
    WellFormedContiguous(m);
    ConcatFrontBack(m.nodes);
    NodeTextsInFullText(m.nodes, 0, m.fullText);
  }
}
