/**
 * renderList as a transition on the rendered state: the decision between
 * doing nothing, patching titles in place and rebuilding the list and the
 * collapsed dots. Also what the reconciler reads from a message node.
 */
module Reconcile {
  import opened Optional
  import opened Identity
  import opened Dom
  import opened MessageText
  import opened Render

  /** What renderList reads from node `h`: its id attribute, getRole and the
      title derived from its text content. */
  function ViewOf(page: Page, attrs: Attributes, h: Handle): NodeView {
    NodeView(if h in attrs then Some(attrs[h]) else None, GetRole(page.roles(h)), TitleOf(page.texts(h)))
  }

  function Views(page: Page, attrs: Attributes, nodes: seq<Handle>): (vs: seq<NodeView>)
    ensures |vs| == |nodes| && forall i :: 0 <= i < |nodes| ==> vs[i] == ViewOf(page, attrs, nodes[i])
  {
    seq(|nodes|, i requires 0 <= i < |nodes| => ViewOf(page, attrs, nodes[i]))
  }

  /** Whether the panel's list (`refs.list`) and the collapsed list and preview
      (`refs.collapsedList`, `refs.preview`) exist. */
  datatype Targets = Targets(hasList: bool, hasCollapsed: bool)

  /** The state renderList reads and writes. */
  datatype RenderState = RenderState(
    lastRenderKey: string,
    force: bool,
    dirty: set<string>,
    items: seq<ListItem>,
    itemById: map<string, nat>,
    dots: seq<Dot>,
    dotById: map<string, nat>)

  /** Every map entry points at a rendered entry for that id. */
  predicate EntriesConsistent(items: seq<ListItem>, itemById: map<string, nat>, dots: seq<Dot>, dotById: map<string, nat>) {
    && (forall id :: id in itemById ==> itemById[id] < |items| && items[itemById[id]].target == Some(id))
    && (forall id :: id in dotById ==> dotById[id] < |dots| && dots[dotById[id]].target == Some(id))
  }

  predicate SlotsConsistent(s: RenderState) {
    EntriesConsistent(s.items, s.itemById, s.dots, s.dotById)
  }

  /** The full-rebuild branch of renderList, followed by renderCollapsed (which
      does nothing when its targets are missing). */
  function Rebuild(t: Targets, key: string, visible: seq<NodeView>, s: RenderState): (r: RenderState)
    ensures r.lastRenderKey == key && !r.force && r.dirty == {}
    ensures |r.items| == |visible|
    ensures t.hasCollapsed ==> |r.dots| == |visible|
    ensures !t.hasCollapsed ==> r.dots == s.dots && r.dotById == s.dotById
  {
    RenderState(key, false, {}, BuildItems(visible), IndexById(visible),
      if t.hasCollapsed then BuildDots(visible) else s.dots,
      if t.hasCollapsed then IndexById(visible) else s.dotById)
  }

  /** The patch branch of renderList. */
  function Patch(visible: seq<NodeView>, s: RenderState): (r: RenderState)
    ensures r.lastRenderKey == s.lastRenderKey && r.itemById == s.itemById && r.dotById == s.dotById
    ensures !r.force && r.dirty == {}
    ensures |r.items| == |s.items| && |r.dots| == |s.dots|
  {
    s.(force := false, dirty := {},
       items := PatchItems(s.items, s.itemById, visible, s.dirty),
       dots := PatchDots(s.dots, s.dotById, visible, s.dirty))
  }

  /** renderList(nodes) where `views` are what it reads from `nodes`. */
  function NextRender(t: Targets, mode: Mode, views: seq<NodeView>, s: RenderState): (r: RenderState)
    ensures !t.hasList ==> r == s
    ensures r.force ==> s.force && r.dirty == s.dirty
  {
    if !t.hasList then s
    else
      var visible := FilterVisible(mode, views);
      var key := RenderKey(mode, visible);
      if !s.force && key == s.lastRenderKey then s
      else if s.force && key == s.lastRenderKey then Patch(visible, s)
      else Rebuild(t, key, visible, s)
  }

  /** After a render with a list present, the remembered key is the key of
      what is now visible, whichever path was taken. */
  lemma NextRenderKey(t: Targets, mode: Mode, views: seq<NodeView>, s: RenderState)
    requires t.hasList
    ensures NextRender(t, mode, views, s).lastRenderKey == RenderKey(mode, FilterVisible(mode, views))
  {
  }

  /** The state a full rebuild for `visible` leaves behind. */
  predicate RebuiltFor(t: Targets, mode: Mode, visible: seq<NodeView>, s: RenderState) {
    && s.lastRenderKey == RenderKey(mode, visible)
    && s.items == BuildItems(visible)
    && s.itemById == IndexById(visible)
    && (t.hasCollapsed ==> s.dots == BuildDots(visible) && s.dotById == IndexById(visible))
  }

  /** The decision table of renderList. */
  lemma DecisionTable(t: Targets, mode: Mode, views: seq<NodeView>, s: RenderState)
    ensures var r, visible := NextRender(t, mode, views, s), FilterVisible(mode, views);
      var key := RenderKey(mode, visible);
      // Without a list nothing happens.
      && (!t.hasList ==> r == s)
      // Same key, not forced: nothing happens; in particular the dirty set and
      // both maps survive.
      && (t.hasList && !s.force && key == s.lastRenderKey ==> r == s)
      // Same key, forced: only titles and previews change; the key and both maps
      // are kept, force is cleared and the dirty set emptied.
      && (t.hasList && s.force && key == s.lastRenderKey ==>
            && r.lastRenderKey == s.lastRenderKey && !r.force && r.dirty == {}
            && r.itemById == s.itemById && r.dotById == s.dotById
            && |r.items| == |s.items| && |r.dots| == |s.dots|
            && (forall k :: 0 <= k < |r.items| ==> r.items[k] == s.items[k].(title := r.items[k].title))
            && (forall k :: 0 <= k < |r.dots| ==> r.dots[k] == s.dots[k].(preview := r.dots[k].preview)))
      // Otherwise: a full rebuild for the visible nodes, remembering the new key.
      && (t.hasList && key != s.lastRenderKey ==>
            RebuiltFor(t, mode, visible, r) && !r.force && r.dirty == {})
  {
  }

  /** The reset key "" differs from every computed key, so after setMode or a
      refresh with the panel hidden the next renderList with a list rebuilds. */
  lemma ResetKeyRebuilds(t: Targets, mode: Mode, views: seq<NodeView>, s: RenderState)
    requires t.hasList && s.lastRenderKey == ""
    ensures var r := NextRender(t, mode, views, s);
      RebuiltFor(t, mode, FilterVisible(mode, views), r) && !r.force && r.dirty == {}
  {
  }

  /** renderList twice on the same nodes: the second call does nothing. */
  lemma NextRenderIdempotent(t: Targets, mode: Mode, views: seq<NodeView>, s: RenderState)
    ensures NextRender(t, mode, views, NextRender(t, mode, views, s)) == NextRender(t, mode, views, s)
  {
  }

  lemma PatchKeepsSlots(visible: seq<NodeView>, s: RenderState)
    requires SlotsConsistent(s)
    ensures SlotsConsistent(Patch(visible, s))
  {
  }

  lemma RebuildKeepsSlots(t: Targets, key: string, visible: seq<NodeView>, s: RenderState)
    requires SlotsConsistent(s)
    ensures SlotsConsistent(Rebuild(t, key, visible, s))
  {
    var r := Rebuild(t, key, visible, s);
    var m := IndexById(visible);
    forall id | id in m
      ensures m[id] < |r.items| && r.items[m[id]].target == Some(id)
    {
      assert visible[m[id]].id == Some(id);
    }
  }

  /** renderList keeps every map entry pointing at an entry for its id. */
  lemma NextRenderKeepsSlots(t: Targets, mode: Mode, views: seq<NodeView>, s: RenderState)
    requires SlotsConsistent(s)
    ensures SlotsConsistent(NextRender(t, mode, views, s))
  {
    var visible := FilterVisible(mode, views);
    PatchKeepsSlots(visible, s);
    RebuildKeepsSlots(t, RenderKey(mode, visible), visible, s);
  }

  /** After a full rebuild the keys of both maps are exactly the ids of the
      visible nodes, and the entries are numbered 1..n in order. */
  lemma RebuildContents(t: Targets, mode: Mode, visible: seq<NodeView>, s: RenderState)
    requires RebuiltFor(t, mode, visible, s)
    ensures forall id :: id in s.itemById <==> exists i :: 0 <= i < |visible| && HasId(visible[i]) && visible[i].id.value == id
    ensures t.hasCollapsed ==> s.dotById.Keys == s.itemById.Keys
    ensures |s.items| == |visible| && forall i :: 0 <= i < |s.items| ==> s.items[i].index == i + 1
  {
    forall id ensures id in s.itemById <==> exists i :: 0 <= i < |visible| && HasId(visible[i]) && visible[i].id.value == id {
      IndexByIdKeys(visible, id);
    }
  }

  /** The point of the patch path: when the rendered state came from a full
      rebuild, ids are unique, the key is unchanged and the dirty set accounts
      for every changed title, patching leaves exactly the state a full rebuild
      for the new nodes would have left. */
  lemma PatchAfterRebuildIsRebuild(t: Targets, mode: Mode, before: seq<NodeView>, views: seq<NodeView>, s: RenderState)
    requires t.hasList && s.force && RebuiltFor(t, mode, before, s)
    requires KeySafe(before) && UniqueIds(before)
    requires var visible := FilterVisible(mode, views);
      && KeySafe(visible)
      && RenderKey(mode, visible) == s.lastRenderKey
      && |before| == |visible| && DirtyCovers(before, visible, s.dirty)
    ensures var r := NextRender(t, mode, views, s);
      RebuiltFor(t, mode, FilterVisible(mode, views), r) && !r.force && r.dirty == {}
  {
    var visible := FilterVisible(mode, views);
    PatchEquivalentToRebuild(mode, before, visible, s.dirty);
    var r := NextRender(t, mode, views, s);
    assert r == Patch(visible, s);
  }

  /** Ids the counter issued contain neither ':' nor '|'. */
  lemma IssuedIdSafe(n: nat)
    ensures ':' !in IdFor(n) && '|' !in IdFor(n)
  {
    var id := IdFor(n);
    forall i | 0 <= i < |id| ensures id[i] != ':' && id[i] != '|' {
      if i < |IdPrefix| {
        assert id[i] == IdPrefix[i];
      }
    }
  }

  /** Ids free of the key separators stay so after filtering, and the roles
      that survive the filter ("user", "assistant") are free of them too. */
  lemma FilterKeySafe(mode: Mode, vs: seq<NodeView>)
    requires forall i :: 0 <= i < |vs| ==> vs[i].id.Some? && ':' !in vs[i].id.value && '|' !in vs[i].id.value
    ensures KeySafe(FilterVisible(mode, vs))
  {
    var visible := FilterVisible(mode, vs);
    FilterVisibleMembers(mode, vs);
    forall i | 0 <= i < |visible|
      ensures visible[i].id.Some? && ':' !in visible[i].id.value && '|' !in visible[i].id.value && '|' !in visible[i].role
    {
      var v := visible[i];
      assert v in visible;
      var j :| 0 <= j < |vs| && vs[j] == v;
    }
  }

  /** The views of nodes the engine has labelled carry ids the counter issued. */
  lemma LabelledViewsSafe(page: Page, l: Labels, nodes: seq<Handle>)
    requires IssuedIds(l) && forall h :: h in nodes ==> h in l.attrs
    ensures var vs := Views(page, l.attrs, nodes);
      forall i :: 0 <= i < |vs| ==> vs[i].id.Some? && ':' !in vs[i].id.value && '|' !in vs[i].id.value
  {
    var vs := Views(page, l.attrs, nodes);
    forall i | 0 <= i < |vs| ensures vs[i].id.Some? && ':' !in vs[i].id.value && '|' !in vs[i].id.value {
      assert nodes[i] in nodes;
      var k :| 0 <= k < l.counter && l.attrs[nodes[i]] == IdFor(k);
      IssuedIdSafe(k);
    }
  }

  /** The visible views of nodes the engine has labelled are safe for the render
      key: every id was issued by the counter and every visible role is "user"
      or "assistant". */
  lemma VisibleViewsKeySafe(page: Page, l: Labels, mode: Mode, nodes: seq<Handle>)
    requires IssuedIds(l) && forall h :: h in nodes ==> h in l.attrs
    ensures KeySafe(FilterVisible(mode, Views(page, l.attrs, nodes)))
  {
    LabelledViewsSafe(page, l, nodes);
    FilterKeySafe(mode, Views(page, l.attrs, nodes));
  }

  /** Filtering keeps ids unique. */
  lemma {:induction false} FilterKeepsUnique(mode: Mode, vs: seq<NodeView>)
    requires UniqueIds(vs)
    ensures UniqueIds(FilterVisible(mode, vs))
  {
    if vs != [] {
      var tail := vs[1..];
      assert UniqueIds(tail) by {
        assert forall i :: 0 <= i < |tail| ==> tail[i] == vs[i + 1];
      }
      FilterKeepsUnique(mode, tail);
      FilterVisibleMembers(mode, tail);
      var ft := FilterVisible(mode, tail);
      var r := FilterVisible(mode, vs);
      if Visible(mode, vs[0].role) {
        assert r == [vs[0]] + ft;
        forall j | 0 <= j < |ft| ensures ft[j].id != vs[0].id {
          assert ft[j] in ft;
          var k :| 0 <= k < |tail| && tail[k] == ft[j];
          assert vs[k + 1] == ft[j];
        }
        ConsUnique(vs[0], ft);
      } else {
        assert r == ft;
      }
    }
  }

  lemma ConsUnique(v: NodeView, vs: seq<NodeView>)
    requires HasId(v) && UniqueIds(vs)
    requires forall j :: 0 <= j < |vs| ==> vs[j].id != v.id
    ensures UniqueIds([v] + vs)
  {
    var r := [v] + vs;
    forall i, j | 0 <= i < j < |r| ensures r[i].id != r[j].id {
      assert r[j] == vs[j - 1];
      if i > 0 {
        assert r[i] == vs[i - 1];
      }
    }
  }

  /** Distinct labelled nodes with distinct issued ids give views with unique
      ids, and so do their visible ones. */
  lemma VisibleViewsUnique(page: Page, l: Labels, mode: Mode, nodes: seq<Handle>)
    requires IssuedIds(l) && forall h :: h in nodes ==> Labelled(l.attrs, h)
    requires forall i, j :: 0 <= i < j < |nodes| ==> nodes[i] != nodes[j]
    ensures UniqueIds(FilterVisible(mode, Views(page, l.attrs, nodes)))
  {
    var vs := Views(page, l.attrs, nodes);
    forall i | 0 <= i < |vs| ensures HasId(vs[i]) && vs[i].id == Some(l.attrs[nodes[i]]) {
      assert nodes[i] in nodes;
    }
    forall i, j | 0 <= i < j < |vs| ensures vs[i].id != vs[j].id {
      assert nodes[i] in l.attrs && nodes[j] in l.attrs && nodes[i] != nodes[j];
    }
    assert UniqueIds(vs);
    FilterKeepsUnique(mode, vs);
  }
}
