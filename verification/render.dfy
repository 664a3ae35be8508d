/**
 * The reconciler's pure layer: the visible set for a display mode
 * (filterVisibleNodes), the render key (getRenderKey), the list items and
 * collapsed dots a full rebuild produces (buildListItem, renderCollapsed),
 * the id -> entry index maps, and the text-only patch (patchRenderedContent).
 */
module Render {
  import opened Optional

  /** The display mode: MODE_USER or MODE_BOTH. */
  datatype Mode = User | Both

  function ModeName(m: Mode): (name: string)
    ensures ':' !in name && name != []
  {
    match m
    case User => "user"
    case Both => "both"
  }

  /** What the reconciler reads from one message node at render time: its
      `data-ctn-message-id` attribute, its role (getRole) and the title its
      current text content yields (getTextBundle, `TitleOf`). */
  datatype NodeView = NodeView(id: Option<string>, role: string, title: string)

  /** `if (id)`: the id attribute is present and non-empty. */
  predicate HasId(v: NodeView) {
    v.id.Some? && v.id.value != ""
  }

  /** The filter predicate of filterVisibleNodes. */
  predicate Visible(mode: Mode, role: string) {
    if mode == Both then role == "user" || role == "assistant" else role == "user"
  }

  /** filterVisibleNodes: the nodes whose role the mode shows, in input order. */
  function FilterVisible(mode: Mode, vs: seq<NodeView>): (r: seq<NodeView>)
    ensures |r| <= |vs|
  {
    if vs == [] then []
    else (if Visible(mode, vs[0].role) then [vs[0]] else []) + FilterVisible(mode, vs[1..])
  }

  /** The filter keeps exactly the nodes whose role the mode shows: user turns,
      plus assistant turns in MODE_BOTH. */
  lemma {:induction false} FilterVisibleMembers(mode: Mode, vs: seq<NodeView>)
    ensures forall v :: v in FilterVisible(mode, vs) <==> v in vs && Visible(mode, v.role)
    ensures forall v :: v in FilterVisible(mode, vs) ==> v.role == "user" || (mode == Both && v.role == "assistant")
  {
    if vs != [] {
      FilterVisibleMembers(mode, vs[1..]);
      assert vs == [vs[0]] + vs[1..];
    }
  }

  /** Filtering distributes over concatenation: relative order is preserved and
      each node is kept or dropped on its own role alone. */
  lemma {:induction false} FilterVisibleConcat(mode: Mode, a: seq<NodeView>, b: seq<NodeView>)
    ensures FilterVisible(mode, a + b) == FilterVisible(mode, a) + FilterVisible(mode, b)
  {
    if a == [] {
      assert a + b == b;
    } else {
      var head := if Visible(mode, a[0].role) then [a[0]] else [];
      assert (a + b)[0] == a[0] && (a + b)[1..] == a[1..] + b;
      FilterVisibleConcat(mode, a[1..], b);
      assert FilterVisible(mode, a + b) == head + (FilterVisible(mode, a[1..]) + FilterVisible(mode, b));
      assert FilterVisible(mode, a) == head + FilterVisible(mode, a[1..]);
    }
  }

  /** The user-only list is the user part of the user-and-assistant list. */
  lemma {:induction false} UserFilterRefinesBoth(vs: seq<NodeView>)
    ensures FilterVisible(User, vs) == FilterVisible(User, FilterVisible(Both, vs))
  {
    if vs != [] {
      UserFilterRefinesBoth(vs[1..]);
      var head := if Visible(Both, vs[0].role) then [vs[0]] else [];
      FilterVisibleConcat(User, head, FilterVisible(Both, vs[1..]));
    }
  }

  /** `${id}` in a template literal: a missing attribute prints as "null". */
  function IdText(id: Option<string>): string {
    if id.Some? then id.value else "null"
  }

  /** One `id:role` component of the render key. */
  function Entry(v: NodeView): string {
    IdText(v.id) + ":" + v.role
  }

  function Entries(vs: seq<NodeView>): (es: seq<string>)
    ensures |es| == |vs| && forall i :: 0 <= i < |vs| ==> es[i] == Entry(vs[i])
  {
    seq(|vs|, i requires 0 <= i < |vs| => Entry(vs[i]))
  }

  /** `Array.prototype.join("|")`. */
  function Join(parts: seq<string>): string {
    if |parts| == 0 then ""
    else if |parts| == 1 then parts[0]
    else parts[0] + "|" + Join(parts[1..])
  }

  /** getRenderKey: `mode:` followed by the `id:role` entries joined by "|". */
  function RenderKey(mode: Mode, visible: seq<NodeView>): (key: string)
    ensures key != ""
    ensures |key| > |ModeName(mode)| && key[..|ModeName(mode)| + 1] == ModeName(mode) + ":"
  {
    ModeName(mode) + ":" + Join(Entries(visible))
  }

  /** Same ids and roles in the same order: what a render key records. */
  predicate SameShape(vs: seq<NodeView>, ws: seq<NodeView>) {
    |vs| == |ws| && forall i :: 0 <= i < |vs| ==> vs[i].id == ws[i].id && vs[i].role == ws[i].role
  }

  /** The key ignores text: nodes of the same shape have the same key. */
  lemma RenderKeyIgnoresText(mode: Mode, vs: seq<NodeView>, ws: seq<NodeView>)
    requires SameShape(vs, ws)
    ensures RenderKey(mode, vs) == RenderKey(mode, ws)
  {
    assert Entries(vs) == Entries(ws);
  }

  /** Ids present and free of the separators ':' and '|', roles free of '|'. */
  predicate KeySafe(vs: seq<NodeView>) {
    forall i :: 0 <= i < |vs| ==>
      vs[i].id.Some? && ':' !in vs[i].id.value && '|' !in vs[i].id.value && '|' !in vs[i].role
  }

  /** A string with one `sep` at a position before which `sep` never occurs
      splits there in only one way. */
  lemma SplitUnique(sep: char, a: string, s: string, b: string, t: string)
    requires sep !in a && sep !in b
    requires a + [sep] + s == b + [sep] + t
    ensures a == b && s == t
  {
    var x := a + [sep] + s;
    assert forall i :: 0 <= i < |a| ==> x[i] == a[i];
    assert forall i :: 0 <= i < |b| ==> x[i] == b[i];
    assert x[|a|] == sep && x[|b|] == sep;
    assert |a| == |b|;
    assert a == x[..|a|] == b;
    assert s == x[|a| + 1..] == t;
  }

  lemma {:induction false} JoinNoBar(parts: seq<string>)
    requires |parts| >= 2
    ensures '|' in Join(parts)
  {
    var j := Join(parts);
    assert j[|parts[0]|] == '|';
  }

  /** Joining non-empty, bar-free parts with "|" can be undone. */
  lemma {:induction false} JoinInjective(xs: seq<string>, ys: seq<string>)
    requires forall i :: 0 <= i < |xs| ==> xs[i] != "" && '|' !in xs[i]
    requires forall i :: 0 <= i < |ys| ==> ys[i] != "" && '|' !in ys[i]
    requires Join(xs) == Join(ys)
    ensures xs == ys
  {
    if |xs| >= 2 && |ys| >= 2 {
      SplitUnique('|', xs[0], Join(xs[1..]), ys[0], Join(ys[1..]));
      JoinInjective(xs[1..], ys[1..]);
      assert xs == [xs[0]] + xs[1..] && ys == [ys[0]] + ys[1..];
    } else if |xs| >= 2 {
      JoinNoBar(xs);
      assert false;
    } else if |ys| >= 2 {
      JoinNoBar(ys);
      assert false;
    } else if |xs| == 0 && |ys| == 1 {
      assert false;
    } else if |xs| == 1 && |ys| == 0 {
      assert false;
    }
  }

  /** RenderKey stability: for separator-free ids and roles, two visible sets
      have equal keys exactly when mode, ids, roles and order all agree. */
  lemma RenderKeyInjective(m1: Mode, vs: seq<NodeView>, m2: Mode, ws: seq<NodeView>)
    requires KeySafe(vs) && KeySafe(ws)
    ensures RenderKey(m1, vs) == RenderKey(m2, ws) <==> m1 == m2 && SameShape(vs, ws)
  {
    if RenderKey(m1, vs) == RenderKey(m2, ws) {
      SplitUnique(':', ModeName(m1), Join(Entries(vs)), ModeName(m2), Join(Entries(ws)));
      assert m1 == m2 by {
        if m1 != m2 { assert false; }
      }
      var xs, ys := Entries(vs), Entries(ws);
      forall i | 0 <= i < |xs| ensures xs[i] != "" && '|' !in xs[i] {
        assert xs[i][|IdText(vs[i].id)|] == ':';
      }
      forall i | 0 <= i < |ys| ensures ys[i] != "" && '|' !in ys[i] {
        assert ys[i][|IdText(ws[i].id)|] == ':';
      }
      JoinInjective(xs, ys);
      forall i | 0 <= i < |vs| ensures vs[i].id == ws[i].id && vs[i].role == ws[i].role {
        assert xs[i] == ys[i];
        SplitUnique(':', IdText(vs[i].id), vs[i].role, IdText(ws[i].id), ws[i].role);
      }
    } else if m1 == m2 && SameShape(vs, ws) {
      RenderKeyIgnoresText(m1, vs, ws);
    }
  }

  /** A rendered list entry: target id, role, 1-based display index, title. */
  datatype ListItem = ListItem(target: Option<string>, role: string, index: nat, title: string)

  /** A rendered collapsed-view dot: target id, role, hover preview text. */
  datatype Dot = Dot(target: Option<string>, role: string, preview: string)

  /** buildListItem. */
  function ItemFor(v: NodeView, index: nat): ListItem {
    ListItem(v.id, v.role, index, v.title)
  }

  /** The dot renderCollapsed builds for one node. */
  function DotFor(v: NodeView): Dot {
    Dot(v.id, v.role, v.title)
  }

  /** The list a full rebuild produces: one item per visible node, in order,
      numbered 1..n. */
  function BuildItems(vs: seq<NodeView>): (items: seq<ListItem>)
    ensures |items| == |vs|
    ensures forall i {:trigger items[i]} :: 0 <= i < |vs| ==> items[i] == ItemFor(vs[i], i + 1)
  {
    if vs == [] then []
    else
      var n := |vs| - 1;
      var p := BuildItems(vs[..n]);
      assert forall i :: 0 <= i < n ==> vs[..n][i] == vs[i];
      p + [ItemFor(vs[n], n + 1)]
  }

  /** The dots renderCollapsed produces: one per visible node, in order. */
  function BuildDots(vs: seq<NodeView>): (dots: seq<Dot>)
    ensures |dots| == |vs|
    ensures forall i {:trigger dots[i]} :: 0 <= i < |vs| ==> dots[i] == DotFor(vs[i])
  {
    if vs == [] then []
    else
      var n := |vs| - 1;
      var p := BuildDots(vs[..n]);
      assert forall i :: 0 <= i < n ==> vs[..n][i] == vs[i];
      p + [DotFor(vs[n])]
  }

  /** listItemById / dotById after a full rebuild: each id of a visible node
      maps to the position of the last visible node carrying it. */
  function IndexById(vs: seq<NodeView>): (m: map<string, nat>)
    ensures forall id :: id in m ==> id != "" && m[id] < |vs| && vs[m[id]].id == Some(id)
    ensures forall i :: 0 <= i < |vs| && HasId(vs[i]) ==> vs[i].id.value in m && m[vs[i].id.value] >= i
  {
    if vs == [] then map[]
    else
      var n := |vs| - 1;
      var m := IndexById(vs[..n]);
      assert forall i :: 0 <= i < n ==> vs[..n][i] == vs[i];
      if HasId(vs[n]) then m[vs[n].id.value := n] else m
  }

  /** The keys of the index are exactly the ids of the visible nodes. */
  lemma IndexByIdKeys(vs: seq<NodeView>, id: string)
    ensures id in IndexById(vs) <==> exists i :: 0 <= i < |vs| && HasId(vs[i]) && vs[i].id.value == id
  {
    if id in IndexById(vs) {
      var k := IndexById(vs)[id];
      assert HasId(vs[k]) && vs[k].id.value == id;
    }
  }

  /** Every visible node has an id and no two share one. */
  predicate UniqueIds(vs: seq<NodeView>) {
    && (forall i :: 0 <= i < |vs| ==> HasId(vs[i]))
    && (forall i, j :: 0 <= i < j < |vs| ==> vs[i].id != vs[j].id)
  }

  lemma IndexOfUnique(vs: seq<NodeView>, i: nat)
    requires UniqueIds(vs) && i < |vs|
    ensures vs[i].id.value in IndexById(vs) && IndexById(vs)[vs[i].id.value] == i
  {
    var k := IndexById(vs)[vs[i].id.value];
    assert vs[k].id == vs[i].id;
  }

  /** Whether the patch pass updates node `v`: it has an id, and either no id is
      dirty or its id is. */
  predicate Touched(v: NodeView, dirty: set<string>) {
    HasId(v) && (dirty == {} || v.id.value in dirty)
  }

  /** One iteration of patchRenderedContent on the list. */
  function PatchItem(items: seq<ListItem>, byId: map<string, nat>, v: NodeView, dirty: set<string>): seq<ListItem> {
    if Touched(v, dirty) && v.id.value in byId && byId[v.id.value] < |items|
    then items[byId[v.id.value] := items[byId[v.id.value]].(title := v.title)]
    else items
  }

  /** One iteration of patchRenderedContent on the dots. */
  function PatchDot(dots: seq<Dot>, byId: map<string, nat>, v: NodeView, dirty: set<string>): seq<Dot> {
    if Touched(v, dirty) && v.id.value in byId && byId[v.id.value] < |dots|
    then dots[byId[v.id.value] := dots[byId[v.id.value]].(preview := v.title)]
    else dots
  }

  /** patchRenderedContent on the list: only titles change, and only at entries
      the map gives for touched nodes. */
  function PatchItems(items: seq<ListItem>, byId: map<string, nat>, vs: seq<NodeView>, dirty: set<string>): (r: seq<ListItem>)
    ensures |r| == |items|
    ensures forall k :: 0 <= k < |r| ==> r[k] == items[k].(title := r[k].title)
  {
    if vs == [] then items
    else
      var n := |vs| - 1;
      var p := PatchItems(items, byId, vs[..n], dirty);
      assert forall i :: 0 <= i < n ==> vs[..n][i] == vs[i];
      PatchItem(p, byId, vs[n], dirty)
  }

  /** patchRenderedContent on the dots: only previews change, and only at
      entries the map gives for touched nodes. */
  function PatchDots(dots: seq<Dot>, byId: map<string, nat>, vs: seq<NodeView>, dirty: set<string>): (r: seq<Dot>)
    ensures |r| == |dots|
    ensures forall k :: 0 <= k < |r| ==> r[k] == dots[k].(preview := r[k].preview)
  {
    if vs == [] then dots
    else
      var n := |vs| - 1;
      var p := PatchDots(dots, byId, vs[..n], dirty);
      assert forall i :: 0 <= i < n ==> vs[..n][i] == vs[i];
      PatchDot(p, byId, vs[n], dirty)
  }

  /** The patch changes a list entry only where the id of some touched node maps. */
  lemma {:induction false} PatchItemsOnlyTouched(xs: seq<ListItem>, byId: map<string, nat>, vs: seq<NodeView>, dirty: set<string>, k: nat)
    requires k < |xs| && PatchItems(xs, byId, vs, dirty)[k] != xs[k]
    ensures exists j :: 0 <= j < |vs| && Touched(vs[j], dirty) && vs[j].id.value in byId && byId[vs[j].id.value] == k
  {
    var n := |vs| - 1;
    var p := PatchItems(xs, byId, vs[..n], dirty);
    if p[k] != xs[k] {
      PatchItemsOnlyTouched(xs, byId, vs[..n], dirty, k);
      var j :| 0 <= j < n && Touched(vs[..n][j], dirty) && vs[..n][j].id.value in byId && byId[vs[..n][j].id.value] == k;
      assert vs[..n][j] == vs[j];
    } else {
      assert PatchItem(p, byId, vs[n], dirty)[k] != p[k];
    }
  }

  /** Every touched node whose id is in the map has its title written to the
      list entry the map gives, unless another touched node shares that list entry. */
  lemma {:induction false} PatchItemsSetsTouched(xs: seq<ListItem>, byId: map<string, nat>, vs: seq<NodeView>, dirty: set<string>, j: nat)
    requires j < |vs| && Touched(vs[j], dirty) && vs[j].id.value in byId && byId[vs[j].id.value] < |xs|
    requires forall i :: 0 <= i < |vs| && i != j && Touched(vs[i], dirty) && vs[i].id.value in byId ==>
      byId[vs[i].id.value] != byId[vs[j].id.value]
    ensures PatchItems(xs, byId, vs, dirty)[byId[vs[j].id.value]].title == vs[j].title
  {
    var n := |vs| - 1;
    var k := byId[vs[j].id.value];
    var p := PatchItems(xs, byId, vs[..n], dirty);
    if j < n {
      assert forall i :: 0 <= i < n ==> vs[..n][i] == vs[i];
      PatchItemsSetsTouched(xs, byId, vs[..n], dirty, j);
      assert PatchItem(p, byId, vs[n], dirty)[k] == p[k];
    }
  }

  /** The patch changes a dot only where the id of some touched node maps. */
  lemma {:induction false} PatchDotsOnlyTouched(xs: seq<Dot>, byId: map<string, nat>, vs: seq<NodeView>, dirty: set<string>, k: nat)
    requires k < |xs| && PatchDots(xs, byId, vs, dirty)[k] != xs[k]
    ensures exists j :: 0 <= j < |vs| && Touched(vs[j], dirty) && vs[j].id.value in byId && byId[vs[j].id.value] == k
  {
    var n := |vs| - 1;
    var p := PatchDots(xs, byId, vs[..n], dirty);
    if p[k] != xs[k] {
      PatchDotsOnlyTouched(xs, byId, vs[..n], dirty, k);
      var j :| 0 <= j < n && Touched(vs[..n][j], dirty) && vs[..n][j].id.value in byId && byId[vs[..n][j].id.value] == k;
      assert vs[..n][j] == vs[j];
    } else {
      assert PatchDot(p, byId, vs[n], dirty)[k] != p[k];
    }
  }

  /** Every touched node whose id is in the map has its title written to the
      dot the map gives, unless another touched node shares that dot. */
  lemma {:induction false} PatchDotsSetsTouched(xs: seq<Dot>, byId: map<string, nat>, vs: seq<NodeView>, dirty: set<string>, j: nat)
    requires j < |vs| && Touched(vs[j], dirty) && vs[j].id.value in byId && byId[vs[j].id.value] < |xs|
    requires forall i :: 0 <= i < |vs| && i != j && Touched(vs[i], dirty) && vs[i].id.value in byId ==>
      byId[vs[i].id.value] != byId[vs[j].id.value]
    ensures PatchDots(xs, byId, vs, dirty)[byId[vs[j].id.value]].preview == vs[j].title
  {
    var n := |vs| - 1;
    var k := byId[vs[j].id.value];
    var p := PatchDots(xs, byId, vs[..n], dirty);
    if j < n {
      assert forall i :: 0 <= i < n ==> vs[..n][i] == vs[i];
      PatchDotsSetsTouched(xs, byId, vs[..n], dirty, j);
      assert PatchDot(p, byId, vs[n], dirty)[k] == p[k];
    }
  }

  /** With empty maps (as cleanup leaves them) the patch changes nothing. */
  lemma {:induction false} PatchWithEmptyMapsIsIdentity(items: seq<ListItem>, dots: seq<Dot>, vs: seq<NodeView>, dirty: set<string>)
    ensures PatchItems(items, map[], vs, dirty) == items
    ensures PatchDots(dots, map[], vs, dirty) == dots
  {
    if vs != [] {
      PatchWithEmptyMapsIsIdentity(items, dots, vs[..|vs| - 1], dirty);
    }
  }

  /** The dirty set accounts for every title that changed (or is empty, which
      makes the patch touch every node). */
  predicate DirtyCovers(vs: seq<NodeView>, ws: seq<NodeView>, dirty: set<string>)
    requires |vs| == |ws|
  {
    dirty == {} || forall i :: 0 <= i < |ws| && HasId(ws[i]) && ws[i].id.value !in dirty ==>
      ws[i].title == vs[i].title
  }

  /** The first `i` nodes taken from `ws`, the rest from `vs`. */
  function Mixed(vs: seq<NodeView>, ws: seq<NodeView>, i: nat): (x: seq<NodeView>)
    requires |vs| == |ws| && i <= |vs|
    ensures |x| == |vs| && forall k {:trigger x[k]} :: 0 <= k < |x| ==> x[k] == if k < i then ws[k] else vs[k]
  {
    ws[..i] + vs[i..]
  }

  /** One patch step on entries a rebuild made for `x` equals the rebuild after
      replacing node `j` by `w`, its same-shape successor. */
  lemma PatchItemStep(x: seq<NodeView>, w: NodeView, j: nat, byId: map<string, nat>, dirty: set<string>)
    requires j < |x| && w.id == x[j].id && w.role == x[j].role
    requires HasId(w) && w.id.value in byId && byId[w.id.value] == j
    requires Touched(w, dirty) || w.title == x[j].title
    ensures PatchItem(BuildItems(x), byId, w, dirty) == BuildItems(x[j := w])
  {
    var r, after := PatchItem(BuildItems(x), byId, w, dirty), BuildItems(x[j := w]);
    assert |r| == |after|;
    forall k | 0 <= k < |r| ensures r[k] == after[k] {
    }
  }

  lemma PatchDotStep(x: seq<NodeView>, w: NodeView, j: nat, byId: map<string, nat>, dirty: set<string>)
    requires j < |x| && w.id == x[j].id && w.role == x[j].role
    requires HasId(w) && w.id.value in byId && byId[w.id.value] == j
    requires Touched(w, dirty) || w.title == x[j].title
    ensures PatchDot(BuildDots(x), byId, w, dirty) == BuildDots(x[j := w])
  {
    var r, after := PatchDot(BuildDots(x), byId, w, dirty), BuildDots(x[j := w]);
    assert |r| == |after|;
    forall k | 0 <= k < |r| ensures r[k] == after[k] {
    }
  }

  lemma MixedStep(vs: seq<NodeView>, ws: seq<NodeView>, i: nat)
    requires |vs| == |ws| && 0 < i <= |ws|
    ensures Mixed(vs, ws, i) == Mixed(vs, ws, i - 1)[i - 1 := ws[i - 1]]
    ensures Mixed(vs, ws, i - 1)[i - 1] == vs[i - 1]
  {
  }

  lemma PatchItemsUnfold(xs: seq<ListItem>, byId: map<string, nat>, ws: seq<NodeView>, dirty: set<string>, i: nat)
    requires 0 < i <= |ws|
    ensures PatchItems(xs, byId, ws[..i], dirty) == PatchItem(PatchItems(xs, byId, ws[..i - 1], dirty), byId, ws[i - 1], dirty)
  {
    assert ws[..i][..i - 1] == ws[..i - 1] && ws[..i][i - 1] == ws[i - 1];
  }

  lemma {:induction false} PatchItemsPrefix(vs: seq<NodeView>, ws: seq<NodeView>, byId: map<string, nat>, dirty: set<string>, i: nat)
    requires SameShape(vs, ws) && i <= |ws|
    requires forall k :: 0 <= k < |ws| ==> HasId(ws[k]) && ws[k].id.value in byId && byId[ws[k].id.value] == k
    requires forall k :: 0 <= k < |ws| ==> Touched(ws[k], dirty) || ws[k].title == vs[k].title
    ensures PatchItems(BuildItems(vs), byId, ws[..i], dirty) == BuildItems(Mixed(vs, ws, i))
  {
    if i == 0 {
      assert ws[..0] == [] && Mixed(vs, ws, 0) == vs;
    } else {
      var j := i - 1;
      PatchItemsPrefix(vs, ws, byId, dirty, j);
      PatchItemsUnfold(BuildItems(vs), byId, ws, dirty, i);
      MixedStep(vs, ws, i);
      PatchItemStep(Mixed(vs, ws, j), ws[j], j, byId, dirty);
    }
  }


  lemma PatchDotsUnfold(xs: seq<Dot>, byId: map<string, nat>, ws: seq<NodeView>, dirty: set<string>, i: nat)
    requires 0 < i <= |ws|
    ensures PatchDots(xs, byId, ws[..i], dirty) == PatchDot(PatchDots(xs, byId, ws[..i - 1], dirty), byId, ws[i - 1], dirty)
  {
    assert ws[..i][..i - 1] == ws[..i - 1] && ws[..i][i - 1] == ws[i - 1];
  }

  lemma {:induction false} PatchDotsPrefix(vs: seq<NodeView>, ws: seq<NodeView>, byId: map<string, nat>, dirty: set<string>, i: nat)
    requires SameShape(vs, ws) && i <= |ws|
    requires forall k :: 0 <= k < |ws| ==> HasId(ws[k]) && ws[k].id.value in byId && byId[ws[k].id.value] == k
    requires forall k :: 0 <= k < |ws| ==> Touched(ws[k], dirty) || ws[k].title == vs[k].title
    ensures PatchDots(BuildDots(vs), byId, ws[..i], dirty) == BuildDots(Mixed(vs, ws, i))
  {
    if i == 0 {
      assert ws[..0] == [] && Mixed(vs, ws, 0) == vs;
    } else {
      var j := i - 1;
      PatchDotsPrefix(vs, ws, byId, dirty, j);
      PatchDotsUnfold(BuildDots(vs), byId, ws, dirty, i);
      MixedStep(vs, ws, i);
      PatchDotStep(Mixed(vs, ws, j), ws[j], j, byId, dirty);
    }
  }


  /** One more node: one more entry and one more index update. */
  lemma BuildStep(vs: seq<NodeView>, i: nat)
    requires i < |vs|
    ensures BuildItems(vs[..i + 1]) == BuildItems(vs[..i]) + [ItemFor(vs[i], i + 1)]
    ensures BuildDots(vs[..i + 1]) == BuildDots(vs[..i]) + [DotFor(vs[i])]
    ensures IndexById(vs[..i + 1]) == if HasId(vs[i]) then IndexById(vs[..i])[vs[i].id.value := i] else IndexById(vs[..i])
  {
    assert vs[..i + 1][..i] == vs[..i];
  }

  /** The index depends on the ids alone. */
  lemma {:induction false} IndexByIdSameShape(vs: seq<NodeView>, ws: seq<NodeView>)
    requires SameShape(vs, ws)
    ensures IndexById(vs) == IndexById(ws)
  {
    if vs != [] {
      var n := |vs| - 1;
      assert SameShape(vs[..n], ws[..n]);
      IndexByIdSameShape(vs[..n], ws[..n]);
    }
  }

  /** With unique ids the index sends every node's id to that node's position. */
  lemma IndexPositions(vs: seq<NodeView>, ws: seq<NodeView>)
    requires SameShape(vs, ws) && UniqueIds(vs)
    ensures forall k :: 0 <= k < |ws| ==>
      HasId(ws[k]) && ws[k].id.value in IndexById(vs) && IndexById(vs)[ws[k].id.value] == k
  {
    forall k | 0 <= k < |ws|
      ensures HasId(ws[k]) && ws[k].id.value in IndexById(vs) && IndexById(vs)[ws[k].id.value] == k
    {
      IndexOfUnique(vs, k);
    }
  }

  lemma DirtyCoversTouched(vs: seq<NodeView>, ws: seq<NodeView>, dirty: set<string>)
    requires |vs| == |ws| && DirtyCovers(vs, ws, dirty)
    requires forall k :: 0 <= k < |ws| ==> HasId(ws[k])
    ensures forall k :: 0 <= k < |ws| ==> Touched(ws[k], dirty) || ws[k].title == vs[k].title
  {
  }

  /** Patch/rebuild equivalence: starting from the entries a full rebuild made
      for `vs`, a patch for `ws` with the same render key gives exactly the
      entries a full rebuild for `ws` would give, provided ids are unique and
      the dirty set names every node whose title changed (or is empty). */
  lemma PatchEquivalentToRebuild(mode: Mode, vs: seq<NodeView>, ws: seq<NodeView>, dirty: set<string>)
    requires KeySafe(vs) && KeySafe(ws) && UniqueIds(vs)
    requires RenderKey(mode, vs) == RenderKey(mode, ws)
    requires |vs| == |ws| && DirtyCovers(vs, ws, dirty)
    ensures PatchItems(BuildItems(vs), IndexById(vs), ws, dirty) == BuildItems(ws)
    ensures PatchDots(BuildDots(vs), IndexById(vs), ws, dirty) == BuildDots(ws)
    ensures IndexById(vs) == IndexById(ws)
  {
    RenderKeyInjective(mode, vs, mode, ws);
    IndexPositions(vs, ws);
    DirtyCoversTouched(vs, ws, dirty);
    var byId := IndexById(vs);
    PatchItemsPrefix(vs, ws, byId, dirty, |ws|);
    PatchDotsPrefix(vs, ws, byId, dirty, |ws|);
    assert ws[..|ws|] == ws && Mixed(vs, ws, |ws|) == ws;
    IndexByIdSameShape(vs, ws);
  }
}
