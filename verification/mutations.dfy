/**
 * How the observer callback reads a batch of DOM mutation records:
 * isExtensionNode, isRelevantMutation, markDirtyMessageIdFromNode and the
 * per-record loop that accumulates "relevant", "text changed" and the dirty
 * message ids.
 */
module Mutations {
  import opened Optional

  const PanelId: string := "ctn-panel"
  const LauncherId: string := "ctn-launcher"
  const ListId: string := "ctn-list"
  const PreviewClass: string := "ctn-preview"
  const CollapsedListClass: string := "ctn-collapsed-list"

  /** What the callback can learn about one element. `inPanel`, `inPreview`,
      `inMessageArea` and `messageId` are the answers of `closest` (which also
      looks at the element itself) for `#ctn-panel`, `.ctn-preview`,
      `article,[data-message-author-role],main` and `[data-ctn-message-id]`; the
      last one carries the attribute value of the element found. */
  datatype ElementInfo = ElementInfo(
    domId: string,
    classes: set<string>,
    inPanel: bool,
    inPreview: bool,
    inMessageArea: bool,
    messageId: Option<string>)

  /** A node a record mentions: `element` is present exactly when the node is an
      Element; `parent` is its parentElement. */
  datatype DomNode = DomNode(element: Option<ElementInfo>, parent: Option<ElementInfo>)

  /** The three kinds of record the observer is asked for. */
  datatype RecordKind = CharacterData | Attributes | ChildList

  datatype MutationRecord = MutationRecord(
    kind: RecordKind,
    target: DomNode,
    added: seq<DomNode>,
    removed: seq<DomNode>)

  /** isExtensionNode for an element: the overlay's own roots, or anything inside
      the panel or the hover preview. */
  predicate IsExtensionElement(e: ElementInfo)
    ensures e.inPanel || e.inPreview ==> IsExtensionElement(e)
  {
    || e.domId == PanelId
    || e.domId == LauncherId
    || e.domId == ListId
    || PreviewClass in e.classes
    || CollapsedListClass in e.classes
    || e.inPanel
    || e.inPreview
  }

  /** isExtensionNode: non-elements never count as overlay nodes. */
  predicate IsExtensionNode(n: DomNode)
    ensures n.element.None? ==> !IsExtensionNode(n)
  {
    n.element.Some? && IsExtensionElement(n.element.value)
  }

  /** An element the page (not the overlay) owns. */
  predicate IsPageElement(n: DomNode) {
    n.element.Some? && !IsExtensionElement(n.element.value)
  }

  /** The two loops over addedNodes / removedNodes: whether some node is a page
      element. */
  function AnyPageElement(ns: seq<DomNode>): (b: bool)
    ensures b <==> exists i :: 0 <= i < |ns| && IsPageElement(ns[i])
  {
    if ns == [] then false
    else if IsPageElement(ns[0]) then true
    else
      assert forall i :: 0 < i < |ns| ==> ns[1..][i - 1] == ns[i];
      AnyPageElement(ns[1..])
  }

  /** isRelevantMutation. */
  function IsRelevant(m: MutationRecord): (b: bool)
    // Nothing that happens to the overlay itself is relevant.
    ensures IsExtensionNode(m.target) ==> !b
    // A text change counts only under a page element inside the message area.
    ensures m.kind == CharacterData ==>
      (b <==> !IsExtensionNode(m.target) && m.target.parent.Some?
              && !IsExtensionElement(m.target.parent.value) && m.target.parent.value.inMessageArea)
    // An attribute change counts only on a page element inside the message area.
    ensures m.kind == Attributes ==>
      (b <==> IsPageElement(m.target) && m.target.element.value.inMessageArea)
    // A child-list change counts exactly when some added or removed node is a
    // page element.
    ensures m.kind == ChildList ==>
      (b <==> !IsExtensionNode(m.target) &&
              ((exists i :: 0 <= i < |m.added| && IsPageElement(m.added[i]))
               || (exists i :: 0 <= i < |m.removed| && IsPageElement(m.removed[i]))))
  {
    if IsExtensionNode(m.target) then false
    else
      match m.kind
      case CharacterData =>
        var parent := m.target.parent;
        if parent.None? || IsExtensionElement(parent.value) then false
        else parent.value.inMessageArea
      case Attributes =>
        var target := m.target;
        if target.element.None? || IsExtensionElement(target.element.value) then false
        else target.element.value.inMessageArea
      case ChildList =>
        AnyPageElement(m.added) || AnyPageElement(m.removed)
  }

  /** markDirtyMessageIdFromNode: the id of the message enclosing the node (the
      node itself if it is an element, otherwise its parent element), if there
      is one and it is non-empty. */
  function DirtyIdOf(n: DomNode): (id: Option<string>)
    ensures id.Some? ==> id.value != ""
    ensures id.Some? ==> (n.element.Some? && n.element.value.messageId == id)
                         || (n.element.None? && n.parent.Some? && n.parent.value.messageId == id)
    ensures (n.element.Some? && n.element.value.messageId.Some? && n.element.value.messageId.value != "")
            ==> id == n.element.value.messageId
    ensures (n.element.None? && n.parent.Some? && n.parent.value.messageId.Some? && n.parent.value.messageId.value != "")
            ==> id == n.parent.value.messageId
  {
    var element := if n.element.Some? then n.element else n.parent;
    if element.None? then None
    else
      match element.value.messageId
      case None => None
      case Some(id) => if id != "" then Some(id) else None
  }

  /** Records whose target marks a message dirty: text and child-list changes. */
  predicate MarksDirty(m: MutationRecord) {
    m.kind == CharacterData || m.kind == ChildList
  }

  /** The dirty id a record contributes, if any. */
  function DirtyIdOfRecord(m: MutationRecord): Option<string> {
    if MarksDirty(m) then DirtyIdOf(m.target) else None
  }

  /** What the callback has gathered from a batch. */
  datatype BatchOutcome = BatchOutcome(relevant: bool, textChanged: bool, dirty: set<string>)

  /** One record of the forEach in the observer callback. */
  function Absorb(o: BatchOutcome, m: MutationRecord): (r: BatchOutcome)
    ensures r.relevant <==> o.relevant || IsRelevant(m)
    ensures r.textChanged <==> o.textChanged || m.kind == CharacterData
    ensures o.dirty <= r.dirty && forall id :: id in r.dirty - o.dirty ==> DirtyIdOfRecord(m) == Some(id)
  {
    var d := DirtyIdOfRecord(m);
    BatchOutcome(
      o.relevant || IsRelevant(m),
      o.textChanged || m.kind == CharacterData,
      if d.Some? then o.dirty + {d.value} else o.dirty)
  }

  const NothingYet: BatchOutcome := BatchOutcome(false, false, {})

  /** The whole forEach, a fold on the last record. */
  function Classify(rs: seq<MutationRecord>): (r: BatchOutcome)
    ensures forall id :: id in r.dirty ==> id != ""
    ensures r.textChanged ==> exists i :: 0 <= i < |rs| && rs[i].kind == CharacterData
  {
    if rs == [] then NothingYet
    else Absorb(Classify(rs[..|rs| - 1]), rs[|rs| - 1])
  }

  lemma ClassifyStep(rs: seq<MutationRecord>, i: nat)
    requires i < |rs|
    ensures Classify(rs[..i + 1]) == Absorb(Classify(rs[..i]), rs[i])
  {
    assert rs[..i + 1][..i] == rs[..i];
  }

  /** The outcome of a batch in terms of its records: relevant iff some record is,
      text changed iff some record is a text change, and the dirty ids are those
      of the text and child-list records, relevant or not. */
  lemma {:induction false} ClassifyMeaning(rs: seq<MutationRecord>)
    ensures Classify(rs).relevant <==> exists m :: m in rs && IsRelevant(m)
    ensures Classify(rs).textChanged <==> exists m :: m in rs && m.kind == CharacterData
    ensures forall id :: id in Classify(rs).dirty <==>
      exists m :: m in rs && DirtyIdOfRecord(m) == Some(id)
  {
    if rs != [] {
      var init, last := rs[..|rs| - 1], rs[|rs| - 1];
      ClassifyMeaning(init);
      assert rs == init + [last];
      assert forall m :: m in rs <==> m in init || m == last;
    }
  }

  /** The outcome does not depend on the order of the records, nor on repeats. */
  lemma OrderIndependent(rs: seq<MutationRecord>, qs: seq<MutationRecord>)
    requires forall m :: m in rs <==> m in qs
    ensures Classify(rs) == Classify(qs)
  {
    ClassifyMeaning(rs);
    ClassifyMeaning(qs);
    assert Classify(rs).dirty == Classify(qs).dirty;
  }

  /** Splitting a batch: absorbing two parts one after the other gives the same
      as the whole. */
  lemma {:induction false} ClassifyConcat(rs: seq<MutationRecord>, qs: seq<MutationRecord>)
    ensures var a, b, c := Classify(rs), Classify(qs), Classify(rs + qs);
      c == BatchOutcome(a.relevant || b.relevant, a.textChanged || b.textChanged, a.dirty + b.dirty)
  {
    ClassifyMeaning(rs);
    ClassifyMeaning(qs);
    ClassifyMeaning(rs + qs);
    assert forall m :: m in rs + qs <==> m in rs || m in qs;
    var a, b, c := Classify(rs), Classify(qs), Classify(rs + qs);
    assert c.dirty == a.dirty + b.dirty;
  }

  /** A batch that only reports child-list changes never counts as a text
      change, however much text the added nodes carry. */
  lemma ChildListOnlyNeverTextChanged(rs: seq<MutationRecord>)
    requires forall i :: 0 <= i < |rs| ==> rs[i].kind == ChildList
    ensures !Classify(rs).textChanged
  {
    ClassifyMeaning(rs);
  }

  /** A batch made only of changes inside the overlay is never relevant, though
      it may still mark messages dirty. */
  lemma OverlayOnlyNeverRelevant(rs: seq<MutationRecord>)
    requires forall i :: 0 <= i < |rs| ==> IsExtensionNode(rs[i].target)
    ensures !Classify(rs).relevant
  {
    ClassifyMeaning(rs);
  }
}
