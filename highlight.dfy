/**
 * The highlight mapper: an offset table over the text fragments of one page's
 * text layer, and marking the fragments that overlap an exact occurrence of a
 * target string.
 *
 * A fragment is a DOM element of the text layer. The model keeps, per
 * fragment, its text, whether it carries the `highlight` class, its inline
 * background and colour (the empty string standing for "not set"), and the two
 * `dataset` slots in which the original style is saved (`None` standing for a
 * slot that does not exist).
 */
module Highlight {
  import opened Options
  import opened JsString

  /** The inline background and text colour of a highlighted fragment. */
  const MarkBackground := "#fde68a"
  const MarkColor := "#111827"

  /** A fragment's inline style and its saved-style slots. */
  datatype InlineStyle = InlineStyle(
    background: string,
    color: string,
    prevBackground: Option<string>,
    prevColor: Option<string>)

  /** Everything about a fragment that highlighting reads or writes. */
  datatype FragmentState = FragmentState(marked: bool, style: InlineStyle)

  /** A JavaScript truthiness test on a `dataset` slot: absent and `''` are falsy. */
  predicate SlotIsSet(slot: Option<string>) {
    slot.Some? && slot.value != ""
  }

  /** The style `applyInlineHighlight` leaves: each slot that is not set saves the
      current value, then the highlight colours are written. */
  function Applied(s: InlineStyle): (r: InlineStyle)
    ensures r.background == MarkBackground && r.color == MarkColor
    ensures r.prevBackground == (if SlotIsSet(s.prevBackground) then s.prevBackground else Some(s.background))
    ensures r.prevColor == (if SlotIsSet(s.prevColor) then s.prevColor else Some(s.color))
  {
    InlineStyle(
      MarkBackground,
      MarkColor,
      if SlotIsSet(s.prevBackground) then s.prevBackground else Some(s.background),
      if SlotIsSet(s.prevColor) then s.prevColor else Some(s.color))
  }

  /** The style `resetInlineHighlight` leaves: each slot that exists is written
      back and deleted. */
  function Reset(s: InlineStyle): (r: InlineStyle)
    ensures r.prevBackground == None && r.prevColor == None
    ensures r.background == s.prevBackground.GetOr(s.background)
    ensures r.color == s.prevColor.GetOr(s.color)
  {
    InlineStyle(
      if s.prevBackground.Some? then s.prevBackground.value else s.background,
      if s.prevColor.Some? then s.prevColor.value else s.color,
      None,
      None)
  }

  /** No saved style. */
  predicate Clean(s: InlineStyle) {
    s.prevBackground == None && s.prevColor == None
  }

  /** Applying and then resetting gives back the original background and colour
      and removes the slots, whenever no slot was set before. */
  lemma ApplyThenReset(s: InlineStyle)
    requires !SlotIsSet(s.prevBackground) && !SlotIsSet(s.prevColor)
    ensures Reset(Applied(s)) == s.(prevBackground := None, prevColor := None)
    ensures Clean(s) ==> Reset(Applied(s)) == s
  {
  }

  /** Resetting twice is resetting once. */
  lemma ResetIdempotent(s: InlineStyle)
    ensures Reset(Reset(s)) == Reset(s)
  {
  }

  /** Because the saving test is truthiness and not existence, a second apply on a
      fragment whose original background was unset overwrites the saved `''` with
      the highlight colour, and a reset then leaves the highlight colour behind.
      Highlighting never applies twice between resets (see `MarkThenClear`), so
      this is not reachable through `HighlightExactText` on a coherent layer. */
  lemma ApplyTwiceForgetsUnsetBackground(s: InlineStyle)
    requires Clean(s) && s.background == ""
    ensures Reset(Applied(Applied(s))).background == MarkBackground
    ensures Reset(Applied(s)).background == ""
  {
  }

  /** What marking a fragment does: add the class, then apply the inline style. */
  function Mark(st: FragmentState): (r: FragmentState)
    ensures r.marked && r.style == Applied(st.style)
  {
    FragmentState(true, Applied(st.style))
  }

  /** What `clearHighlights` does to one fragment: a marked fragment loses the class
      and has its style reset; any other fragment is left alone. */
  function Cleared(st: FragmentState): (r: FragmentState)
    ensures !r.marked
    ensures st.marked ==> r.style == Reset(st.style)
    ensures !st.marked ==> r == st
  {
    if st.marked then FragmentState(false, Reset(st.style)) else st
  }

  /** A fragment holds saved style only while it is marked. */
  predicate Consistent(st: FragmentState) {
    !st.marked ==> Clean(st.style)
  }

  /** Clearing and marking keep `Consistent`; a cleared fragment that was marked
      or consistent is clean, and clearing is idempotent. */
  lemma ClearedAndMarkKeepConsistent(st: FragmentState)
    ensures Consistent(st) ==> Consistent(Cleared(st)) && Clean(Cleared(st).style)
    ensures st.marked ==> Clean(Cleared(st).style)
    ensures Consistent(st) ==> Consistent(Mark(st))
    ensures Cleared(Cleared(st)) == Cleared(st)
  {
  }

  /** Marking a consistent, unmarked fragment and then clearing it restores it
      exactly. */
  lemma MarkThenClear(st: FragmentState)
    requires Consistent(st) && !st.marked
    ensures Cleared(Mark(st)) == st
  {
    ApplyThenReset(st.style);
  }

  /** A text fragment of a text layer. */
  class Fragment {
    /** `textContent`, which may be null. */
    const content: Option<string>
    var marked: bool
    var background: string
    var color: string
    var prevBackground: Option<string>
    var prevColor: Option<string>

    constructor (content: Option<string>)
      ensures this.content == content
      ensures State() == FragmentState(false, InlineStyle("", "", None, None))
    {
      this.content := content;
      marked := false;
      background := "";
      color := "";
      prevBackground := None;
      prevColor := None;
    }

    /** The text the fragment contributes to the offset table. */
    function Text(): string {
      content.GetOr("")
    }

    function Style(): InlineStyle
      reads this
    {
      InlineStyle(background, color, prevBackground, prevColor)
    }

    function State(): FragmentState
      reads this
    {
      FragmentState(marked, Style())
    }
  }

  /** `applyInlineHighlight`: saves the style into the slots that are not set and
      writes the highlight colours; a null fragment is ignored. */
  method ApplyInlineHighlight(div: Fragment?)
    modifies div
    ensures div != null ==> div.State() == FragmentState(old(div.marked), Applied(old(div.Style())))
  {
    if div == null {
      return;
    }
    if !SlotIsSet(div.prevBackground) {
      div.prevBackground := Some(div.background);
    }
    if !SlotIsSet(div.prevColor) {
      div.prevColor := Some(div.color);
    }
    div.background := MarkBackground;
    div.color := MarkColor;
  }

  /** `resetInlineHighlight`: writes back and deletes each slot that exists; a null
      fragment is ignored. */
  method ResetInlineHighlight(div: Fragment?)
    modifies div
    ensures div != null ==> div.State() == FragmentState(old(div.marked), Reset(old(div.Style())))
  {
    if div == null {
      return;
    }
    if div.prevBackground.Some? {
      div.background := div.prevBackground.value;
      div.prevBackground := None;
    }
    if div.prevColor.Some? {
      div.color := div.prevColor.value;
      div.prevColor := None;
    }
  }

  /** One row of the offset table: the fragment's text occupies
      `[start, end)` of the concatenated fragment texts. */
  datatype Range = Range(div: Fragment, start: nat, end: nat)

  /** The offset table attached to a text layer, with the page text it is matched
      against. */
  datatype Meta = Meta(fullText: string, ranges: seq<Range>)

  /** The total length of the texts of the first `k` fragments of `divs`. */
  function Offset(divs: seq<Fragment>, k: nat): nat
    requires k <= |divs|
  {
    if k == 0 then 0 else Offset(divs, k - 1) + |divs[k - 1].Text()|
  }

  /** Consecutive ranges that tile `[0, total)` in order, each as long as its
      fragment's text. */
  predicate Contiguous(ranges: seq<Range>, total: nat) {
    && (ranges == [] ==> total == 0)
    && (ranges != [] ==> ranges[0].start == 0 && ranges[|ranges| - 1].end == total)
    && (forall k :: 0 <= k < |ranges| ==> ranges[k].start + |ranges[k].div.Text()| == ranges[k].end)
    && (forall k :: 0 <= k < |ranges| - 1 ==> ranges[k].end == ranges[k + 1].start)
  }

  /** Row `k` of the table over `divs`: `divs[k]` at the offset of the fragments
      before it. */
  predicate RowOf(ranges: seq<Range>, divs: seq<Fragment>, k: nat)
    requires k < |ranges| && k < |divs|
  {
    ranges[k] == Range(divs[k], Offset(divs, k), Offset(divs, k + 1))
  }

  /** `ranges` holds the first `|ranges|` rows of the table over `divs`. */
  predicate TablePrefix(ranges: seq<Range>, divs: seq<Fragment>) {
    && |ranges| <= |divs|
    && forall k :: 0 <= k < |ranges| ==> RowOf(ranges, divs, k)
  }

  /** The table over `divs`. */
  predicate TableOf(ranges: seq<Range>, divs: seq<Fragment>) {
    |ranges| == |divs| && TablePrefix(ranges, divs)
  }

  /** The table over `divs` is contiguous and ends at the sum of the text
      lengths. */
  lemma TableIsContiguous(ranges: seq<Range>, divs: seq<Fragment>)
    requires TableOf(ranges, divs)
    ensures Contiguous(ranges, Offset(divs, |divs|))
  {
    forall k | 0 <= k < |ranges|
      ensures ranges[k].start + |ranges[k].div.Text()| == ranges[k].end
    {
      assert RowOf(ranges, divs, k);
    }
    forall k | 0 <= k < |ranges| - 1
      ensures ranges[k].end == ranges[k + 1].start
    {
      assert RowOf(ranges, divs, k) && RowOf(ranges, divs, k + 1);
    }
    if ranges != [] {
      assert RowOf(ranges, divs, 0) && RowOf(ranges, divs, |ranges| - 1);
    }
  }

  /** One page's text layer: its fragments in document order, and the offset
      table once one is attached. */
  class TextLayer {
    var nodes: seq<Fragment>
    var meta: Option<Meta>

    constructor (nodes: seq<Fragment>)
      requires forall i, j :: 0 <= i < j < |nodes| ==> nodes[i] != nodes[j]
      ensures this.nodes == nodes && meta == None
      ensures Valid()
    {
      this.nodes := nodes;
      meta := None;
    }

    /** The DOM gives each element once. */
    predicate Valid()
      reads this
    {
      forall i, j :: 0 <= i < j < |nodes| ==> nodes[i] != nodes[j]
    }

    /** The table's fragments are distinct fragments of this layer, as they are
        when the table is built over the layer's own spans. */
    predicate Coherent()
      reads this
    {
      meta.Some? ==>
        && (forall k :: 0 <= k < |meta.value.ranges| ==> meta.value.ranges[k].div in nodes)
        && (forall i, j :: 0 <= i < j < |meta.value.ranges| ==>
              meta.value.ranges[i].div != meta.value.ranges[j].div)
    }

    /** Every fragment highlighting can touch. */
    function Footprint(): set<Fragment>
      reads this
    {
      (set n | n in nodes) + (if meta.Some? then set r | r in meta.value.ranges :: r.div else {})
    }
  }

  /** `attachTextLayerMeta`: builds the offset table over `divs` with a running
      cursor and attaches it, with `fullText` (null read as `''`), to the layer;
      a null layer is ignored. */
  method AttachTextLayerMeta(layer: TextLayer?, divs: seq<Fragment>, fullText: Option<string>)
    modifies layer
    ensures layer != null ==> layer.nodes == old(layer.nodes)
    ensures layer != null ==> layer.meta.Some? && layer.meta.value.fullText == fullText.GetOr("")
    ensures layer != null ==> TableOf(layer.meta.value.ranges, divs)
    ensures layer != null ==> Contiguous(layer.meta.value.ranges, Offset(divs, |divs|))
  {
    if layer == null {
      return;
    }
    var ranges: seq<Range> := [];
    var cursor: nat := 0;
    var i := 0;
    while i < |divs|
      invariant 0 <= i <= |divs| && |ranges| == i
      invariant cursor == Offset(divs, i)
      invariant TablePrefix(ranges, divs)
    {
      var div := divs[i];
      var content := div.Text();
      var start := cursor;
      var end := start + |content|;
      ghost var prev := ranges;
      ranges := ranges + [Range(div, start, end)];
      assert forall k :: 0 <= k < i ==> ranges[k] == prev[k] && RowOf(prev, divs, k);
      cursor := end;
      i := i + 1;
    }
    layer.meta := Some(Meta(fullText.GetOr(""), ranges));
    TableIsContiguous(ranges, divs);
  }

  /** `clearHighlights`: every marked fragment of the layer loses the class and has
      its style reset. The source selects the marked fragments first and then
      visits them; since the fragments are distinct, visiting every fragment and
      testing its mark does the same. A null layer is ignored. */
  method ClearHighlights(layer: TextLayer?)
    requires layer != null ==> layer.Valid()
    modifies if layer == null then {} else set n | n in layer.nodes
    ensures layer != null ==>
      forall n :: n in layer.nodes ==> n.State() == Cleared(old(n.State()))
  {
    if layer == null {
      return;
    }
    var nodes := layer.nodes;
    var i := 0;
    while i < |nodes|
      invariant 0 <= i <= |nodes|
      invariant forall k :: 0 <= k < i ==> nodes[k].State() == Cleared(old(nodes[k].State()))
      invariant forall k :: i <= k < |nodes| ==> nodes[k].State() == old(nodes[k].State())
    {
      var node := nodes[i];
      if node.marked {
        node.marked := false;
        ResetInlineHighlight(node);
      }
      i := i + 1;
    }
    forall n | n in nodes
      ensures n.State() == Cleared(old(n.State()))
    {
      var k :| 0 <= k < |nodes| && nodes[k] == n;
    }
  }

  /** The test by which a range is marked: it is not entirely before or after
      `[s, e)`. */
  predicate Touches(r: Range, s: int, e: int) {
    !(r.end <= s || r.start >= e)
  }

  /** The test by which the scroll anchor is chosen. */
  predicate Overlaps(r: Range, s: int, e: int) {
    r.start < e && r.end > s
  }

  /** Marking and anchoring use the same overlap test. */
  lemma TouchesIffOverlaps(r: Range, s: int, e: int)
    ensures Touches(r, s, e) <==> Overlaps(r, s, e)
  {
  }

  /** The state of `f` after the marking pass over the first `n` ranges, starting
      from `st`: each range over `f` that touches `[s, e)` marks it once more. */
  function MarkedBy(ranges: seq<Range>, n: nat, s: int, e: int, f: Fragment, st: FragmentState): FragmentState
    requires n <= |ranges|
  {
    if n == 0 then st
    else
      var before := MarkedBy(ranges, n - 1, s, e, f, st);
      if ranges[n - 1].div == f && Touches(ranges[n - 1], s, e) then Mark(before) else before
  }

  /** When `f` is the fragment of at most one range, the marking pass marks it once
      exactly when that range touches `[s, e)`, and leaves it alone otherwise. */
  lemma {:induction false} MarkedByDistinct(ranges: seq<Range>, n: nat, s: int, e: int, f: Fragment, st: FragmentState)
    requires n <= |ranges|
    requires forall i, j :: 0 <= i < j < n ==> ranges[i].div != ranges[j].div
    ensures (exists k :: 0 <= k < n && ranges[k].div == f && Touches(ranges[k], s, e))
            ==> MarkedBy(ranges, n, s, e, f, st) == Mark(st)
    ensures (forall k :: 0 <= k < n && ranges[k].div == f ==> !Touches(ranges[k], s, e))
            ==> MarkedBy(ranges, n, s, e, f, st) == st
  {
    if n > 0 {
      MarkedByDistinct(ranges, n - 1, s, e, f, st);
    }
  }

  /** The marking pass of `highlightExactText`: each range that touches `[s, e)`
      has its fragment given the class and the inline highlight. `fs` names the
      fragments whose outcome is stated; it must hold every range's fragment. */
  method MarkTouching(ranges: seq<Range>, s: int, e: int, ghost fs: set<Fragment>)
    requires forall k :: 0 <= k < |ranges| ==> ranges[k].div in fs
    modifies fs
    ensures forall f :: f in fs ==> f.State() == MarkedBy(ranges, |ranges|, s, e, f, old(f.State()))
  {
    var i := 0;
    while i < |ranges|
      invariant 0 <= i <= |ranges|
      invariant forall f :: f in fs ==> f.State() == MarkedBy(ranges, i, s, e, f, old(f.State()))
    {
      var r := ranges[i];
      if !(r.end <= s || r.start >= e) {
        r.div.marked := true;
        ApplyInlineHighlight(r.div);
      }
      i := i + 1;
    }
  }

  /** On a coherent layer whose fragments each went through the marking pass from
      an unmarked state, exactly the fragments whose ranges overlap `[s, e)` are
      marked, the layer's other fragments are not, and the first overlapping
      range's fragment is marked. */
  lemma CoherentMarking(layer: TextLayer, s: int, e: int, base: map<Fragment, FragmentState>)
    requires layer.Coherent() && layer.meta.Some?
    requires forall f :: f in layer.nodes ==> f in base && !base[f].marked
    requires forall f :: f in layer.nodes ==>
      f.State() == MarkedBy(layer.meta.value.ranges, |layer.meta.value.ranges|, s, e, f, base[f])
    ensures forall k :: 0 <= k < |layer.meta.value.ranges| ==>
      (layer.meta.value.ranges[k].div.marked <==> Overlaps(layer.meta.value.ranges[k], s, e))
    ensures forall n :: n in layer.nodes && (forall k :: 0 <= k < |layer.meta.value.ranges| ==> layer.meta.value.ranges[k].div != n) ==>
      !n.marked
    ensures FirstOverlap(layer.meta.value.ranges, s, e).Some? ==>
      FirstOverlap(layer.meta.value.ranges, s, e).value.div.marked
  {
    var ranges := layer.meta.value.ranges;
    forall k | 0 <= k < |ranges|
      ensures ranges[k].div.marked <==> Overlaps(ranges[k], s, e)
    {
      var f := ranges[k].div;
      MarkedByDistinct(ranges, |ranges|, s, e, f, base[f]);
      forall j | 0 <= j < |ranges| && ranges[j].div == f
        ensures j == k
      {
      }
    }
    forall n | n in layer.nodes && (forall k :: 0 <= k < |ranges| ==> ranges[k].div != n)
      ensures !n.marked
    {
      MarkedByDistinct(ranges, |ranges|, s, e, n, base[n]);
    }
    var k := FirstOverlapIndex(ranges, s, e);
    if k < |ranges| {
      assert FirstOverlap(ranges, s, e).value == ranges[k];
    }
  }

  /** A found occurrence of the target: `[start, end)` of the page text. */
  datatype Found = Found(start: nat, end: nat)

  /** The lookup `highlightExactText` performs before touching the layer: no table,
      an empty target or a whitespace-only target finds nothing; otherwise the
      trimmed target is searched for verbatim. */
  function Locate(meta: Option<Meta>, exactText: string): (r: Option<Found>)
    ensures r.None? <==>
      || meta.None? || Trim(exactText) == []
      || forall j :: !OccursAt(meta.value.fullText, Trim(exactText), j)
    ensures r.Some? ==>
      && r.value.end == r.value.start + |Trim(exactText)|
      && OccursAt(meta.value.fullText, Trim(exactText), r.value.start)
      && meta.value.fullText[r.value.start..r.value.end] == Trim(exactText)
      && forall j :: 0 <= j < r.value.start ==> !OccursAt(meta.value.fullText, Trim(exactText), j)
  {
    if meta.None? || exactText == [] then None
    else
      var target := Trim(exactText);
      if target == [] then None
      else
        var startIndex := IndexOf(meta.value.fullText, target);
        if startIndex == -1 then None
        else Some(Found(startIndex, startIndex + |target|))
  }

  /** The lookup ignores surrounding whitespace of the target and nothing else. */
  lemma LocateIgnoresSurroundingSpace(meta: Option<Meta>, exactText: string)
    ensures Locate(meta, Trim(exactText)) == Locate(meta, exactText)
  {
    TrimIdempotent(exactText);
  }

  /** The position of the first range that overlaps `[s, e)`, or `|ranges|`. */
  function FirstOverlapIndex(ranges: seq<Range>, s: int, e: int): (k: nat)
    ensures k <= |ranges|
    ensures forall j :: 0 <= j < k ==> !Overlaps(ranges[j], s, e)
    ensures k < |ranges| ==> Overlaps(ranges[k], s, e)
  {
    if ranges == [] then 0
    else if Overlaps(ranges[0], s, e) then 0
    else 1 + FirstOverlapIndex(ranges[1..], s, e)
  }

  /** `ranges.find` with the anchor test: the first overlapping range, if any. */
  function FirstOverlap(ranges: seq<Range>, s: int, e: int): (r: Option<Range>)
    ensures r.None? <==> forall j :: 0 <= j < |ranges| ==> !Overlaps(ranges[j], s, e)
    ensures r.Some? ==> exists k :: 0 <= k < |ranges| && r.value == ranges[k] && Overlaps(ranges[k], s, e)
  {
    var k := FirstOverlapIndex(ranges, s, e);
    if k < |ranges| then Some(ranges[k]) else None
  }

  /** `highlightExactText`: returns whether the trimmed target occurs in the page
      text. On success it clears the layer's old marks, marks every fragment whose
      range overlaps the occurrence, and reports the first such range as the
      scroll anchor; on failure nothing changes. */
  method HighlightExactText(layer: TextLayer?, exactText: string) returns (ok: bool, anchor: Option<Range>)
    requires layer != null ==> layer.Valid()
    modifies if layer == null then {} else layer.Footprint()
    ensures ok <==> layer != null && Locate(layer.meta, exactText).Some?
    ensures !ok ==> anchor.None?
    ensures !ok && layer != null ==> forall f :: f in layer.Footprint() ==> f.State() == old(f.State())
    ensures ok ==>
      var m, found := layer.meta.value, Locate(layer.meta, exactText).value;
      && anchor == FirstOverlap(m.ranges, found.start, found.end)
      && forall f :: f in layer.Footprint() ==>
           f.State() == MarkedBy(m.ranges, |m.ranges|, found.start, found.end, f,
                                 if f in layer.nodes then Cleared(old(f.State())) else old(f.State()))
    ensures ok && layer.Coherent() ==>
      var m, found := layer.meta.value, Locate(layer.meta, exactText).value;
      && (forall k :: 0 <= k < |m.ranges| ==>
            (m.ranges[k].div.marked <==> Overlaps(m.ranges[k], found.start, found.end)))
      && (forall n :: n in layer.nodes && (forall k :: 0 <= k < |m.ranges| ==> m.ranges[k].div != n) ==>
            !n.marked)
      && (anchor.Some? ==> anchor.value.div.marked)
  {
    if layer == null {
      return false, None;
    }
    var found := Locate(layer.meta, exactText);
    if found.None? {
      return false, None;
    }
    anchor := MarkOccurrence(layer, found.value.start, found.value.end);
    ok := true;
  }

  /** The success path of `highlightExactText` once the occurrence `[s, e)` is
      known: clear the layer, mark the touching ranges, pick the anchor. */
  method MarkOccurrence(layer: TextLayer, s: int, e: int) returns (anchor: Option<Range>)
    requires layer.Valid() && layer.meta.Some?
    modifies layer.Footprint()
    ensures anchor == FirstOverlap(layer.meta.value.ranges, s, e)
    ensures forall f :: f in layer.Footprint() ==>
      f.State() == MarkedBy(layer.meta.value.ranges, |layer.meta.value.ranges|, s, e, f,
                            if f in layer.nodes then Cleared(old(f.State())) else old(f.State()))
    ensures layer.Coherent() ==>
      var ranges := layer.meta.value.ranges;
      && (forall k :: 0 <= k < |ranges| ==> (ranges[k].div.marked <==> Overlaps(ranges[k], s, e)))
      && (forall n :: n in layer.nodes && (forall k :: 0 <= k < |ranges| ==> ranges[k].div != n) ==>
            !n.marked)
      && (anchor.Some? ==> anchor.value.div.marked)
  {
    var ranges := layer.meta.value.ranges;
    ghost var footprint := layer.Footprint();
    ClearHighlights(layer);
    ghost var base := map f | f in footprint :: f.State();
    assert forall f :: f in footprint ==>
      base[f] == if f in layer.nodes then Cleared(old(f.State())) else old(f.State());
    MarkTouching(ranges, s, e, footprint);
    anchor := FirstOverlap(ranges, s, e);
    if layer.Coherent() {
      CoherentMarking(layer, s, e, base);
    }
  }
}
