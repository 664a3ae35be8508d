/**
 * The content script's module-level state and the callbacks that change it:
 * getMessageNodes, ensureMessageIds, renderList with patchRenderedContent and
 * renderCollapsed, refresh, scheduleRefresh and its two callbacks, the
 * mutation observer callback, the state part of setMode, and cleanup. Each
 * callback runs to completion, so each method is one atomic transition.
 */
module Navigator {
  import opened Optional
  import opened Identity
  import opened Dom
  import opened Render
  import opened Reconcile
  import opened Scheduler
  import opened Mutations

  /** The part of the state refresh reads and writes. */
  datatype RefreshState = RefreshState(
    active: Option<Selector>,
    labels: Labels,
    lastNodes: seq<Handle>,
    render: RenderState)

  /** The reset refresh performs while the panel is hidden. */
  function HiddenReset(s: RenderState): (r: RenderState)
    ensures r.lastRenderKey == "" && !r.force && r.dirty == {}
    ensures r.items == s.items && r.itemById == s.itemById && r.dots == s.dots && r.dotById == s.dotById
  {
    s.(lastRenderKey := "", force := false, dirty := {})
  }

  /** refresh: locate the message nodes; if there are none, stop; otherwise
      label them, remember them, and either reset (panel hidden) or render. */
  function Refreshed(t: Targets, mode: Mode, page: Page, s: RefreshState): (r: RefreshState)
    ensures r.active == Locate(s.active, page.query).active
    ensures r.labels.counter >= s.labels.counter
    ensures Locate(s.active, page.query).nodes == [] ==> r.labels == s.labels && r.lastNodes == s.lastNodes && r.render == s.render
    ensures Locate(s.active, page.query).nodes != [] ==> r.lastNodes == Locate(s.active, page.query).nodes
    ensures page.panelHidden ==> r.render.items == s.render.items && r.render.dots == s.render.dots
  {
    var loc := Locate(s.active, page.query);
    if loc.nodes == [] then s.(active := loc.active)
    else
      var labels := AssignIds(s.labels, loc.nodes);
      RefreshState(loc.active, labels, loc.nodes,
        if page.panelHidden then HiddenReset(s.render)
        else NextRender(t, mode, Views(page, labels.attrs, loc.nodes), s.render))
  }

  /** A state that agrees with refresh on every path is the refresh outcome. */
  lemma RefreshedFromCases(t: Targets, mode: Mode, page: Page, s: RefreshState, r: RefreshState)
    requires var loc := Locate(s.active, page.query);
      && r.active == loc.active
      && (loc.nodes == [] ==> r.labels == s.labels && r.lastNodes == s.lastNodes && r.render == s.render)
      && (loc.nodes != [] ==> r.labels == AssignIds(s.labels, loc.nodes) && r.lastNodes == loc.nodes)
      && (loc.nodes != [] && page.panelHidden ==> r.render == HiddenReset(s.render))
      && (loc.nodes != [] && !page.panelHidden ==>
            r.render == NextRender(t, mode, Views(page, r.labels.attrs, loc.nodes), s.render))
    ensures r == Refreshed(t, mode, page, s)
  {
  }

  /** A refresh that finds no message node only clears the selector cache. */
  lemma RefreshWithoutNodes(t: Targets, mode: Mode, page: Page, s: RefreshState)
    requires forall sel :: page.query(sel) == []
    ensures Refreshed(t, mode, page, s) == s.(active := None)
  {
  }

  /** refresh keeps every issued id distinct and every map entry pointing at an
      entry for its id. */
  lemma RefreshKeepsInvariants(t: Targets, mode: Mode, page: Page, s: RefreshState)
    requires IssuedIds(s.labels) && SlotsConsistent(s.render)
    ensures IssuedIds(Refreshed(t, mode, page, s).labels)
    ensures SlotsConsistent(Refreshed(t, mode, page, s).render)
    ensures Refreshed(t, mode, page, s).labels.counter >= s.labels.counter
  {
    var loc := Locate(s.active, page.query);
    if loc.nodes != [] {
      AssignIdsKeepsIssued(s.labels, loc.nodes);
      var labels := AssignIds(s.labels, loc.nodes);
      NextRenderKeepsSlots(t, mode, Views(page, labels.attrs, loc.nodes), s.render);
    }
  }

  /** A second refresh on an unchanged document changes nothing. */
  lemma RefreshIdempotent(t: Targets, mode: Mode, page: Page, s: RefreshState)
    ensures var r := Refreshed(t, mode, page, s); Refreshed(t, mode, page, r) == r
  {
    var loc := Locate(s.active, page.query);
    LocateStable(s.active, page.query);
    if loc.nodes != [] {
      AssignIdsIdempotent(s.labels, loc.nodes);
      var labels := AssignIds(s.labels, loc.nodes);
      NextRenderIdempotent(t, mode, Views(page, labels.attrs, loc.nodes), s.render);
    }
  }

  /** While the panel is hidden nothing is rendered; the first refresh after it
      is shown again (with the list present) is a full rebuild. */
  lemma ShownAfterHiddenRebuilds(t: Targets, mode: Mode, hidden: Page, shown: Page, s: RefreshState)
    requires hidden.panelHidden && Locate(s.active, hidden.query).nodes != []
    requires !shown.panelHidden && t.hasList
    requires var s1 := Refreshed(t, mode, hidden, s); Locate(s1.active, shown.query).nodes != []
    ensures var s1 := Refreshed(t, mode, hidden, s);
      var s2 := Refreshed(t, mode, shown, s1);
      s1.render.items == s.render.items && s1.render.lastRenderKey == ""
      && RebuiltFor(t, mode, FilterVisible(mode, Views(shown, s2.labels.attrs, s2.lastNodes)), s2.render)
  {
    var s1 := Refreshed(t, mode, hidden, s);
    var s2 := Refreshed(t, mode, shown, s1);
    ResetKeyRebuilds(t, mode, Views(shown, s2.labels.attrs, s2.lastNodes), s1.render);
  }

  /** The patch path after a refresh: when the previous render was a full
      rebuild for nodes of the same shape, the labels are issued ids of distinct
      nodes and the dirty set covers every changed title, the forced render
      leaves what a full rebuild would have left. */
  lemma ForcedRefreshMatchesRebuild(t: Targets, mode: Mode, page: Page, s: RefreshState, before: seq<NodeView>)
    requires IssuedIds(s.labels) && !page.panelHidden && t.hasList
    requires var loc := Locate(s.active, page.query);
      && loc.nodes != []
      && forall i, j :: 0 <= i < j < |loc.nodes| ==> loc.nodes[i] != loc.nodes[j]
    requires s.render.force && RebuiltFor(t, mode, before, s.render)
    requires KeySafe(before) && UniqueIds(before)
    requires var r := Refreshed(t, mode, page, s);
      var visible := FilterVisible(mode, Views(page, r.labels.attrs, r.lastNodes));
      && RenderKey(mode, visible) == s.render.lastRenderKey
      && |before| == |visible| && DirtyCovers(before, visible, s.render.dirty)
    ensures var r := Refreshed(t, mode, page, s);
      RebuiltFor(t, mode, FilterVisible(mode, Views(page, r.labels.attrs, r.lastNodes)), r.render)
      && !r.render.force && r.render.dirty == {}
  {
    var loc := Locate(s.active, page.query);
    var r := Refreshed(t, mode, page, s);
    AssignIdsLabels(s.labels, loc.nodes);
    AssignIdsKeepsIssued(s.labels, loc.nodes);
    VisibleViewsKeySafe(page, r.labels, mode, loc.nodes);
    PatchAfterRebuildIsRebuild(t, mode, before, Views(page, r.labels.attrs, loc.nodes), s.render);
  }

  /** The content script instance. */
  class Navigator {
    /** The `data-ctn-message-id` attributes the engine wrote on host nodes. */
    var idAttr: Attributes
    var messageCounter: nat
    var timerArmed: bool
    var frameArmed: bool
    var observing: bool
    var currentMode: Mode
    var lastNodes: seq<Handle>
    var lastRenderKey: string
    var forceNextRender: bool
    var activeSelector: Option<Selector>
    var dirty: set<string>
    /** The children of the list, and listItemById as entry positions. */
    var items: seq<ListItem>
    var listItemById: map<string, nat>
    /** The children of the collapsed list, and dotById as dot positions. */
    var dots: seq<Dot>
    var dotById: map<string, nat>
    /** Which render targets the panel provides. */
    const targets: Targets

    function Timers(): Handles
      reads this`timerArmed, this`frameArmed
    {
      Handles(timerArmed, frameArmed)
    }

    function IdState(): Labels
      reads this`idAttr, this`messageCounter
    {
      Labels(idAttr, messageCounter)
    }

    function Rendered(): RenderState
      reads this`lastRenderKey, this`forceNextRender, this`dirty, this`items, this`listItemById, this`dots, this`dotById
    {
      RenderState(lastRenderKey, forceNextRender, dirty, items, listItemById, dots, dotById)
    }

    function RefreshView(): RefreshState
      reads this
    {
      RefreshState(activeSelector, IdState(), lastNodes, Rendered())
    }

    /** The class invariant is Valid() && IdsValid(): the scheduler never has
        both callbacks pending, every map entry points at a rendered entry for
        its id, and every id on a host node was issued by the counter and is
        unique. The id part is stated apart: only the methods whose modifies
        clauses name idAttr mention it, and every other method leaves it
        unchanged by its frame. */
    ghost predicate Valid()
      reads this`timerArmed, this`frameArmed, this`items, this`listItemById, this`dots, this`dotById
    {
      TimersValid() && SlotsValid()
    }

    ghost predicate TimersValid()
      reads this`timerArmed, this`frameArmed
    {
      NeverBoth(Timers())
    }

    ghost predicate IdsValid()
      reads this`idAttr, this`messageCounter
    {
      IssuedIds(IdState())
    }

    ghost predicate SlotsValid()
      reads this`items, this`listItemById, this`dots, this`dotById
    {
      EntriesConsistent(items, listItemById, dots, dotById)
    }

    /** The initial values of the module-level variables. */
    constructor(targets: Targets)
      ensures this.targets == targets && Valid() && IdsValid()
      ensures idAttr == map[] && messageCounter == 0
      ensures Timers() == Idle && !observing
      ensures currentMode == Both && lastNodes == [] && activeSelector == None
      ensures Rendered() == RenderState("", false, {}, [], map[], [], map[])
    {
      this.targets := targets;
      idAttr := map[];
      messageCounter := 0;
      timerArmed := false;
      frameArmed := false;
      observing := false;
      currentMode := Both;
      lastNodes := [];
      lastRenderKey := "";
      forceNextRender := false;
      activeSelector := None;
      dirty := {};
      items := [];
      listItemById := map[];
      dots := [];
      dotById := map[];
    }

    /** getMessageNodes. */
    method GetMessageNodes(page: Page) returns (nodes: seq<Handle>)
      modifies this`activeSelector
      ensures Located(nodes, activeSelector) == Locate(old(activeSelector), page.query)
    {
      if activeSelector.Some? {
        var activeNodes := page.query(activeSelector.value);
        if |activeNodes| > 0 {
          return activeNodes;
        }
        activeSelector := None;
      }
      var i := 0;
      while i < |Priority|
        invariant 0 <= i <= |Priority|
        invariant activeSelector == None
        invariant forall j :: 0 <= j < i ==> page.query(Priority[j]) == []
      {
        var found := page.query(Priority[i]);
        if |found| > 0 {
          FirstMatchAt(page.query, Priority, i);
          activeSelector := Some(Priority[i]);
          return found;
        }
        i := i + 1;
      }
      return [];
    }

    /** ensureMessageIds. */
    method EnsureMessageIds(nodes: seq<Handle>)
      requires IdsValid()
      modifies this`idAttr, this`messageCounter
      ensures IdState() == AssignIds(old(IdState()), nodes)
      ensures IdsValid()
    {
      var i := 0;
      while i < |nodes|
        invariant 0 <= i <= |nodes|
        invariant IdState() == AssignIds(old(IdState()), nodes[..i])
      {
        var node := nodes[i];
        if !(node in idAttr && idAttr[node] != "") {
          idAttr := idAttr[node := IdFor(messageCounter)];
          messageCounter := messageCounter + 1;
        }
        assert nodes[..i + 1][..i] == nodes[..i];
        i := i + 1;
      }
      assert nodes[..|nodes|] == nodes;
      AssignIdsKeepsIssued(old(IdState()), nodes);
    }

    /** patchRenderedContent: for each visible node with an id that is dirty (or
        with every id when nothing is dirty), write its title into the list
        entry and the dot the maps give for that id, where there is one. */
    method PatchRenderedContent(visible: seq<NodeView>)
      requires SlotsConsistent(Rendered())
      modifies this`items, this`dots
      ensures items == PatchItems(old(items), listItemById, visible, dirty)
      ensures dots == PatchDots(old(dots), dotById, visible, dirty)
    {
      var i := 0;
      while i < |visible|
        invariant 0 <= i <= |visible|
        invariant items == PatchItems(old(items), listItemById, visible[..i], dirty)
        invariant dots == PatchDots(old(dots), dotById, visible[..i], dirty)
      {
        var node := visible[i];
        PatchItemsUnfold(old(items), listItemById, visible, dirty, i + 1);
        PatchDotsUnfold(old(dots), dotById, visible, dirty, i + 1);
        if node.id.Some? && node.id.value != "" && (dirty == {} || node.id.value in dirty) {
          var id := node.id.value;
          if id in listItemById {
            items := items[listItemById[id] := items[listItemById[id]].(title := node.title)];
          }
          if id in dotById {
            dots := dots[dotById[id] := dots[dotById[id]].(preview := node.title)];
          }
        }
        i := i + 1;
      }
      assert visible[..|visible|] == visible;
    }

    /** renderCollapsed: without its targets it does nothing; otherwise it
        rebuilds the dots and dotById. */
    method RenderCollapsed(visible: seq<NodeView>)
      modifies this`dots, this`dotById
      ensures targets.hasCollapsed ==> dots == BuildDots(visible) && dotById == IndexById(visible)
      ensures !targets.hasCollapsed ==> dots == old(dots) && dotById == old(dotById)
    {
      if !targets.hasCollapsed {
        return;
      }
      dotById := map[];
      var fragment: seq<Dot> := [];
      var i := 0;
      while i < |visible|
        invariant 0 <= i <= |visible|
        invariant fragment == BuildDots(visible[..i]) && dotById == IndexById(visible[..i])
        modifies this`dotById
      {
        var node := visible[i];
        BuildStep(visible, i);
        if node.id.Some? && node.id.value != "" {
          dotById := dotById[node.id.value := i];
        }
        fragment := fragment + [DotFor(node)];
        i := i + 1;
      }
      assert visible[..|visible|] == visible;
      dots := fragment;
    }

    /** The full-rebuild branch of renderList. */
    method RebuildList(key: string, visible: seq<NodeView>)
      modifies this`lastRenderKey, this`forceNextRender, this`dirty, this`items, this`listItemById,
               this`dots, this`dotById
      ensures Rendered() == Rebuild(targets, key, visible, old(Rendered()))
    {
      lastRenderKey := key;
      forceNextRender := false;
      dirty := {};
      BuildList(visible);
      RenderCollapsed(visible);
    }

    /** The list part of a rebuild: one entry per visible node, numbered from
        one, and listItemById filled from the nodes with an id. */
    method BuildList(visible: seq<NodeView>)
      modifies this`items, this`listItemById
      ensures items == BuildItems(visible) && listItemById == IndexById(visible)
    {
      listItemById := map[];
      var fragment: seq<ListItem> := [];
      var i := 0;
      while i < |visible|
        invariant 0 <= i <= |visible|
        invariant fragment == BuildItems(visible[..i]) && listItemById == IndexById(visible[..i])
        modifies this`listItemById
      {
        var node := visible[i];
        BuildStep(visible, i);
        if node.id.Some? && node.id.value != "" {
          listItemById := listItemById[node.id.value := i];
        }
        fragment := fragment + [ItemFor(node, i + 1)];
        i := i + 1;
      }
      assert visible[..|visible|] == visible;
      items := fragment;
    }

    /** renderList. */
    method RenderList(page: Page, nodes: seq<Handle>)
      requires Valid()
      modifies this`lastRenderKey, this`forceNextRender, this`dirty, this`items, this`listItemById,
               this`dots, this`dotById
      ensures Rendered() == NextRender(targets, currentMode, Views(page, idAttr, nodes), old(Rendered()))
      ensures Valid()
    {
      var views := Views(page, idAttr, nodes);
      NextRenderKeepsSlots(targets, currentMode, views, Rendered());
      RenderViews(views);
    }

    /** renderList once it has read the nodes. */
    method RenderViews(views: seq<NodeView>)
      requires SlotsConsistent(Rendered())
      modifies this`lastRenderKey, this`forceNextRender, this`dirty, this`items, this`listItemById,
               this`dots, this`dotById
      ensures Rendered() == NextRender(targets, currentMode, views, old(Rendered()))
    {
      if !targets.hasList {
        return;
      }
      var filtered := FilterVisible(currentMode, views);
      var renderKey := RenderKey(currentMode, filtered);
      if !forceNextRender && renderKey == lastRenderKey {
        return;
      }
      if forceNextRender && renderKey == lastRenderKey {
        PatchList(filtered);
        return;
      }
      RebuildList(renderKey, filtered);
    }

    /** The patch branch of renderList: patch, then clear the flag and the
        dirty set. */
    method PatchList(visible: seq<NodeView>)
      requires SlotsConsistent(Rendered())
      modifies this`forceNextRender, this`dirty, this`items, this`dots
      ensures Rendered() == Patch(visible, old(Rendered()))
    {
      PatchRenderedContent(visible);
      forceNextRender := false;
      dirty := {};
    }

    /** refresh. */
    method Refresh(page: Page)
      requires Valid() && IdsValid()
      modifies this`activeSelector, this`idAttr, this`messageCounter, this`lastNodes,
               this`lastRenderKey, this`forceNextRender, this`dirty, this`items, this`listItemById,
               this`dots, this`dotById
      ensures RefreshView() == Refreshed(targets, currentMode, page, old(RefreshView()))
      ensures Valid() && IdsValid()
    {
      ghost var s := RefreshView();
      var nodes := GetMessageNodes(page);
      if |nodes| > 0 {
        RefreshNodes(page, nodes);
      }
      ghost var r := RefreshView();
      assert r.labels == IdState() && r.render == Rendered() && r.active == activeSelector;
      RefreshedFromCases(targets, currentMode, page, s, r);
    }

    /** The part of refresh after message nodes were found. */
    method RefreshNodes(page: Page, nodes: seq<Handle>)
      requires Valid() && IdsValid()
      modifies this`idAttr, this`messageCounter, this`lastNodes,
               this`lastRenderKey, this`forceNextRender, this`dirty, this`items, this`listItemById,
               this`dots, this`dotById
      ensures IdState() == AssignIds(old(IdState()), nodes) && lastNodes == nodes
      ensures page.panelHidden ==> Rendered() == HiddenReset(old(Rendered()))
      ensures !page.panelHidden ==> Rendered() == NextRender(targets, currentMode, Views(page, idAttr, nodes), old(Rendered()))
      ensures Valid() && IdsValid()
    {
      ghost var ids := AssignIds(IdState(), nodes);
      EnsureMessageIds(nodes);
      lastNodes := nodes;
      ShowOrReset(page, nodes);
      assert IdState() == ids;
    }

    /** The end of refresh: reset while the panel is hidden, render otherwise. */
    method ShowOrReset(page: Page, nodes: seq<Handle>)
      requires Valid()
      modifies this`lastRenderKey, this`forceNextRender, this`dirty, this`items, this`listItemById,
               this`dots, this`dotById
      ensures page.panelHidden ==> Rendered() == HiddenReset(old(Rendered()))
      ensures !page.panelHidden ==> Rendered() == NextRender(targets, currentMode, Views(page, idAttr, nodes), old(Rendered()))
      ensures Valid()
    {
      if page.panelHidden {
        ResetHidden();
      } else {
        RenderList(page, nodes);
      }
    }

    /** What refresh does instead of rendering while the panel is hidden. */
    method ResetHidden()
      requires Valid()
      modifies this`lastRenderKey, this`forceNextRender, this`dirty
      ensures Rendered() == HiddenReset(old(Rendered()))
      ensures Valid()
    {
      lastRenderKey := "";
      forceNextRender := false;
      dirty := {};
    }

    /** scheduleRefresh(immediate). */
    method ScheduleRefresh(immediate: bool)
      requires Valid()
      modifies this`timerArmed, this`frameArmed
      ensures Timers() == Schedule(old(Timers()), immediate)
      ensures Valid()
    {
      if immediate {
        if timerArmed {
          timerArmed := false;
        }
        if frameArmed {
          frameArmed := false;
        }
        frameArmed := true;
        return;
      }
      if timerArmed || frameArmed {
        return;
      }
      timerArmed := true;
    }

    /** The throttle timer's callback. */
    method TimerFires()
      requires Valid()
      modifies this`timerArmed, this`frameArmed
      ensures Timers() == TimerFired(old(Timers()))
      ensures Valid()
    {
      if timerArmed {
        timerArmed := false;
        frameArmed := true;
      }
    }

    /** The animation frame's callback: clear the handle, then refresh. */
    method FrameFires(page: Page)
      requires Valid() && IdsValid()
      modifies this`frameArmed, this`activeSelector, this`idAttr, this`messageCounter, this`lastNodes,
               this`lastRenderKey, this`forceNextRender, this`dirty, this`items, this`listItemById,
               this`dots, this`dotById
      ensures Timers() == FrameFired(old(Timers()))
      ensures old(frameArmed) ==> RefreshView() == Refreshed(targets, currentMode, page, old(RefreshView()))
      ensures !old(frameArmed) ==> RefreshView() == old(RefreshView())
      ensures Valid() && IdsValid()
    {
      if frameArmed {
        frameArmed := false;
        Refresh(page);
      }
    }

    /** The mutation observer's callback. */
    method OnMutations(records: seq<MutationRecord>)
      requires Valid() && observing
      modifies this`dirty, this`forceNextRender, this`timerArmed, this`frameArmed
      ensures var o := Classify(records);
        && dirty == old(dirty) + o.dirty
        && forceNextRender == (old(forceNextRender) || (o.relevant && o.textChanged))
        && Timers() == (if o.relevant then Schedule(old(Timers()), false) else old(Timers()))
      ensures Valid()
    {
      var hasRelevantMutation := false;
      var hasCharacterDataMutation := false;
      ghost var marked: set<string> := {};
      var i := 0;
      while i < |records|
        invariant 0 <= i <= |records|
        invariant dirty == old(dirty) + marked
        invariant Classify(records[..i]) == BatchOutcome(hasRelevantMutation, hasCharacterDataMutation, marked)
        invariant forceNextRender == old(forceNextRender) && Timers() == old(Timers())
      {
        var mutation := records[i];
        ClassifyStep(records, i);
        if !hasRelevantMutation && IsRelevant(mutation) {
          hasRelevantMutation := true;
        }
        if mutation.kind == CharacterData || mutation.kind == ChildList {
          if mutation.kind == CharacterData {
            hasCharacterDataMutation := true;
          }
          var id := DirtyIdOf(mutation.target);
          if id.Some? {
            dirty := dirty + {id.value};
            marked := marked + {id.value};
          }
        }
        i := i + 1;
      }
      assert records[..|records|] == records;
      if !hasRelevantMutation {
        return;
      }
      if hasCharacterDataMutation {
        forceNextRender := true;
      }
      ScheduleRefresh(false);
    }

    /** installObserver: a second call does nothing. */
    method InstallObserver()
      modifies this`observing
      ensures observing
    {
      if observing {
        return;
      }
      observing := true;
    }

    /** The state part of setMode: switch mode, forget the key, then render the
        last nodes again, or ask for an immediate refresh when there are none. */
    method SetMode(mode: Mode, page: Page)
      requires Valid()
      modifies this`currentMode, this`lastRenderKey, this`forceNextRender, this`dirty, this`items,
               this`listItemById, this`dots, this`dotById, this`timerArmed, this`frameArmed
      ensures currentMode == mode
      ensures old(lastNodes) != [] ==>
        Rendered() == NextRender(targets, mode, Views(page, idAttr, lastNodes), old(Rendered()).(lastRenderKey := ""))
        && unchanged(this`timerArmed, this`frameArmed)
      ensures old(lastNodes) == [] ==>
        Rendered() == old(Rendered()).(lastRenderKey := "") && Timers() == Schedule(old(Timers()), true)
      ensures Valid()
    {
      currentMode := mode;
      if |lastNodes| > 0 {
        RenderAfterReset(page);
      } else {
        lastRenderKey := "";
        ScheduleRefresh(true);
      }
    }

    /** The branch of setMode with last nodes: forget the key, render them again. */
    method RenderAfterReset(page: Page)
      requires Valid()
      modifies this`lastRenderKey, this`forceNextRender, this`dirty, this`items, this`listItemById,
               this`dots, this`dotById
      ensures Rendered() == NextRender(targets, currentMode, Views(page, idAttr, lastNodes), old(Rendered()).(lastRenderKey := ""))
      ensures Valid()
    {
      lastRenderKey := "";
      RenderList(page, lastNodes);
    }

    /** cleanup: stop observing, cancel both callbacks, and clear the dirty set
        and both maps. The rendered entries and the last key stay. */
    method Cleanup()
      requires Valid()
      modifies this`observing, this`timerArmed, this`frameArmed, this`dirty, this`listItemById, this`dotById
      ensures !observing && !timerArmed && !frameArmed
      ensures dirty == {} && listItemById == map[] && dotById == map[]
      ensures Valid()
    {
      if observing {
        observing := false;
      }
      if timerArmed {
        timerArmed := false;
      }
      if frameArmed {
        frameArmed := false;
      }
      dirty := {};
      listItemById := map[];
      dotById := map[];
    }
  }
}
