/**
 * What the engine reads from the host document, as oracle inputs: the result
 * of each message selector, the role attribute found on or under a node, and
 * a node's text content. Also the self-healing selector strategy of
 * getMessageNodes, as a specification.
 */
module Dom {
  import opened Optional
  import opened Identity

  /** MESSAGE_NODE_SELECTORS, most specific first: `article[data-testid="conversation-turn"]`,
      `[data-message-author-role]`, `main article`. */
  datatype Selector = ConversationTurn | AuthorRole | MainArticle

  const Priority: seq<Selector> := [ConversationTurn, AuthorRole, MainArticle]

  /** The `data-message-author-role` attribute as getRole can see it: on the node
      itself (when the node matches the attribute selector), else on its first
      descendant carrying it. */
  datatype RoleAttr = RoleAttr(own: Option<string>, descendant: Option<string>)

  /** A snapshot of the host document at one callback: `query` answers
      `querySelectorAll` for each selector (document order, no repeats),
      `roles` and `texts` describe each node, and `panelHidden` tells whether
      the overlay panel carries its hidden class. */
  datatype Page = Page(
    query: Selector -> seq<Handle>,
    roles: Handle -> RoleAttr,
    texts: Handle -> string,
    panelHidden: bool)

  /** getRole: the attribute of the node itself if it has one, otherwise of its
      first descendant that has one; a missing or empty value reads "unknown". */
  function GetRole(a: RoleAttr): (role: string)
    ensures role != ""
    ensures a.own.Some? && a.own.value != "" ==> role == a.own.value
    ensures a.own.None? && a.descendant.Some? && a.descendant.value != "" ==> role == a.descendant.value
    ensures role != "unknown" ==>
              || (a.own.Some? && role == a.own.value)
              || (a.own.None? && a.descendant.Some? && role == a.descendant.value)
  {
    var el := if a.own.Some? then a.own else a.descendant;
    if el.Some? && el.value != "" then el.value else "unknown"
  }

  /** The first selector of `sels` whose query result is non-empty. */
  function FirstMatch(query: Selector -> seq<Handle>, sels: seq<Selector>): (r: Option<Selector>)
    ensures r.None? <==> forall i :: 0 <= i < |sels| ==> query(sels[i]) == []
    ensures r.Some? ==> exists i :: 0 <= i < |sels| && sels[i] == r.value && query(r.value) != []
                          && forall j :: 0 <= j < i ==> query(sels[j]) == []
  {
    if sels == [] then None
    else if query(sels[0]) != [] then Some(sels[0])
    else
      var r := FirstMatch(query, sels[1..]);
      assert r.Some? ==> exists i :: 0 <= i < |sels| && sels[i] == r.value && query(r.value) != []
                          && forall j :: 0 <= j < i ==> query(sels[j]) == [] by {
        if r.Some? {
          var i :| 0 <= i < |sels[1..]| && sels[1..][i] == r.value && query(r.value) != []
                   && forall j :: 0 <= j < i ==> query(sels[1..][j]) == [];
          assert sels[i + 1] == r.value && forall j :: 0 <= j < i + 1 ==> query(sels[j]) == [];
        }
      }
      r
  }

  /** What getMessageNodes returns and the selector it leaves cached. */
  datatype Located = Located(nodes: seq<Handle>, active: Option<Selector>)

  /** getMessageNodes as a function of the cached selector and the document. */
  function Locate(active: Option<Selector>, query: Selector -> seq<Handle>): (r: Located)
    // The cache is set exactly when something was found, and always names the
    // selector whose result was returned.
    ensures r.active.Some? <==> r.nodes != []
    ensures r.active.Some? ==> r.nodes == query(r.active.value)
    // A cached selector that still matches is kept, even when a more specific
    // selector has started matching.
    ensures active.Some? && query(active.value) != [] ==> r.active == active
    // Otherwise the search restarts and takes the first matching selector in
    // priority order.
    ensures (active.None? || query(active.value) == []) && r.active.Some? ==>
      exists i :: 0 <= i < |Priority| && Priority[i] == r.active.value
        && forall j :: 0 <= j < i ==> query(Priority[j]) == []
    ensures r.nodes == [] <==> (forall s :: query(s) == [])
  {
    if active.Some? && query(active.value) != [] then Located(query(active.value), active)
    else
      match FirstMatch(query, Priority)
      case None =>
        assert forall s :: query(s) == [] by {
          forall s ensures query(s) == [] {
            assert s == Priority[0] || s == Priority[1] || s == Priority[2];
          }
        }
        Located([], None)
      case Some(s) => Located(query(s), Some(s))
  }

  /** The first non-empty selector is the one FirstMatch returns. */
  lemma FirstMatchAt(query: Selector -> seq<Handle>, sels: seq<Selector>, i: nat)
    requires i < |sels| && query(sels[i]) != []
    requires forall j :: 0 <= j < i ==> query(sels[j]) == []
    ensures FirstMatch(query, sels) == Some(sels[i])
  {
    var r := FirstMatch(query, sels);
    var k :| 0 <= k < |sels| && sels[k] == r.value && query(r.value) != []
             && forall j :: 0 <= j < k ==> query(sels[j]) == [];
    assert k == i;
  }

  /** Locating twice in an unchanged document finds the same nodes and keeps
      the same cached selector. */
  lemma LocateStable(active: Option<Selector>, query: Selector -> seq<Handle>)
    ensures Locate(Locate(active, query).active, query) == Locate(active, query)
  {
  }
}
