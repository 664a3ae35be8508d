# Conversation navigator: reconciliation engine

A Dafny model of the reconciliation engine of the chat-page navigator content script (`extension/content.js`). The engine:

- finds the message nodes of the host page through a cached priority list of selectors;
- labels each node with a `data-ctn-message-id` attribute drawn from a monotone counter;
- derives a role and a 140-character title for every node;
- keeps a side list (and a collapsed strip of dots) in step with the page. On each render it either does nothing, patches titles in place for "dirty" messages, or rebuilds everything. It decides by comparing a render key built from the visible ids and roles.

Refreshes are debounced through a throttle timer followed by an animation frame. A mutation-observer callback classifies each batch of DOM changes: whether the batch is relevant, whether it carries a text change, and which messages it makes dirty.

## Files

Each module follows one part of the script.

- `optional.dfy` (`Optional`): the `Option` type.
- `text.dfy` (`MessageText`): `getMessageText` (whitespace runs collapsed, then trimmed) and the title rule.
- `identity.dfy` (`Identity`): the `ctn-<n>` ids and `ensureMessageIds` as a fold over the nodes.
- `dom.dfy` (`Dom`): the selectors, the page as an oracle, `getRole`, and `getMessageNodes` as a function.
- `render.dfy` (`Render`): the mode filter, the render key, list entries and dots, and the patch.
- `reconcile.dfy` (`Reconcile`): `renderList` as a transition on the rendered state, and its decision table.
- `scheduler.dfy` (`Scheduler`): the timer and frame handles, and event runs.
- `mutations.dfy` (`Mutations`): `isExtensionNode`, `isRelevantMutation`, `markDirtyMessageIdFromNode` and the batch loop.
- `navigator.dfy` (`Navigator`): the module-level state as `class Navigator`, and its callbacks as methods. Each method is proved against the functions above.

## How the DOM is abstracted

- A message node is a `Handle`. What the engine writes on host nodes, the id attributes, is the map `idAttr`.
- `querySelectorAll` results, role attributes, text content and whether the panel is hidden come from a `Page` snapshot.
- `closest` answers for a mutated node come inside its `ElementInfo`.
- A list entry is a record (target id, role, display index, title); a dot is (target id, role, preview). `listItemById` and `dotById` map an id to the position of its entry, which captures the aliasing between a map value and a child of the list.
- The timer and the frame are booleans, "armed" or not. Their callbacks are the methods `TimerFires` and `FrameFires`.

## Behaviour worth knowing

- **Text records mark a message dirty even when not relevant.** The observer marks a message dirty for every text and child-list record, relevant or not (`extension/content.js:585-592`). Dirtying does not depend on relevance.
- **A normal schedule call never disarms.** A normal `scheduleRefresh` call while a timer or frame is armed does nothing (`:511`). It does not disarm and re-arm. Only the immediate path disarms.
- **`renderCollapsed` clears only `dotById`.** `listItemById` and the dirty set are cleared by `renderList` itself (`:417-418`).
- **The no-op path keeps the dirty set** (`:404`).
- **Child-list-only batches never force a render.** Text that reaches the page only through child-list records sets no force flag, so the next render takes the no-op path when the key is unchanged. `Mutations.ChildListOnlyNeverTextChanged` states this.

## Model

| member | source | states |
|---|---|---|
| MessageText.CollapseRuns | extension/content.js:326 | the result is empty iff the input is; every whitespace character left is a plain space; no two whitespace characters are adjacent; the first character is whitespace iff the input's was (that it keeps the words is `MessageText.WordsCollapse`, that the last run survives as one space is `MessageText.CollapseLast`) |
| MessageText.CollapseLast | extension/content.js:326 | the last whitespace run is collapsed like the others: a non-empty input gives a non-empty result that ends in whitespace exactly when the input does |
| MessageText.WordLen | extension/content.js:326 | the length of the leading run of non-whitespace characters: everything before it is visible, and it ends at whitespace or at the end |
| MessageText.WordsDropSpaces | extension/content.js:326 | dropping leading whitespace keeps the words |
| MessageText.WordsAppendSpaces | extension/content.js:326 | trailing whitespace adds no word |
| MessageText.WordsDropTrailing | extension/content.js:326 | dropping trailing whitespace keeps the words |
| MessageText.WordsCons | extension/content.js:326 | a visible character in front of a text starts a new word, or joins the text's first word when the text starts with one |
| MessageText.WordsCollapse | extension/content.js:326 | collapsing each whitespace run keeps the sequence of words (maximal non-whitespace runs) |
| MessageText.Trim | extension/content.js:326 | the trimmed text neither starts nor ends with whitespace and has the same words as the input |
| MessageText.DropSpaces | extension/content.js:326 | the result is a suffix of the input and everything dropped is whitespace; a leading space is always dropped |
| MessageText.DropTrailingSpaces | extension/content.js:326 | the result is a prefix of the input and everything dropped is whitespace; it does not end in whitespace |
| MessageText.TrimSlice | extension/content.js:326 | the trimmed text is a contiguous slice of the input and neither starts nor ends with whitespace |
| MessageText.GetMessageText | extension/content.js:324-327 | the message text is normalized: no leading or trailing whitespace, only plain spaces, never two in a row (its exact value is `MessageText.MessageTextIsUnwords`) |
| MessageText.MessageTextKeepsWords | extension/content.js:324-327 | the message text has exactly the words of the text content |
| MessageText.NormalizedAfterWord | extension/content.js:326 | in a normalized text, what follows the first word and its single space is normalized too |
| MessageText.UnwordsCons | extension/content.js:326 | joining a word in front of a non-empty list adds exactly one space |
| MessageText.NormalizedIsUnwords | extension/content.js:326 | a normalized text is its own words joined by single spaces |
| MessageText.MessageTextIsUnwords | extension/content.js:324-327 | the message text is exactly the words of the text content joined by single spaces: every whitespace run between two words becomes one space and whitespace at either end disappears |
| MessageText.MessageTextKeepsVisibleText | extension/content.js:324-327 | normalizing keeps every non-whitespace character, in order |
| MessageText.CollapseNormalizedIsIdentity | extension/content.js:326 | collapsing runs changes nothing in text that has only single plain spaces |
| MessageText.MessageTextIdempotent | extension/content.js:324-327 | normalizing twice gives the same text as normalizing once |
| MessageText.Title | extension/content.js:341 | longer than 140: the first 140 characters plus "..." (143 in all); 1 to 140: the text itself; empty: "(empty)"; never empty |
| MessageText.TitleOf | extension/content.js:377-383 | the title of a node's text is never empty and at most 143 characters |
| Identity.Decimal | extension/content.js:332 | the decimal numeral has at least one digit (two from 10 on), only digits, and starts with '0' only for zero itself |
| Identity.DecimalValue | extension/content.js:332 | the numeral denotes the counter value it was printed from |
| Identity.DecimalInjective | extension/content.js:332 | distinct counter values give distinct numerals |
| Identity.IdFor | extension/content.js:332 | an issued id is "ctn-" followed by digits only |
| Identity.IdForInjective | extension/content.js:332 | two issued ids are equal iff their counter values are |
| Identity.LabelOne | extension/content.js:331-333 | afterwards the node is labelled; the counter moves by one exactly when it was not |
| Identity.AssignIds | extension/content.js:329-335 | the counter never decreases (the full contract, including the exact id each node gets, is `Identity.AssignIdsSpec`) |
| Identity.AssignIdsCounter | extension/content.js:329-335 | the counter grows by exactly the number of distinct unlabelled nodes |
| Identity.AssignIdsLabels | extension/content.js:329-335 | labelled nodes keep their ids, nodes not in the list are untouched, and afterwards a node is labelled iff it was before or it is in the list |
| Identity.AssignIdsFresh | extension/content.js:331-332 | each unlabelled node receives an id issued from a counter value between the old and the new counter (which value exactly is `Identity.AssignIdsValue`) |
| Identity.AssignIdsValueAt | extension/content.js:330-333 | the node at a position, if unlabelled and not listed earlier, gets "ctn-" followed by the old counter plus the number of distinct unlabelled nodes listed before it |
| Identity.AssignIdsValue | extension/content.js:330-333 | numbering is in list order: every newly labelled node gets exactly that counter value |
| Identity.LastGetsCounter | extension/content.js:331-333 | a node neither labelled nor listed earlier gets the counter the earlier nodes left |
| Identity.LabelOneKeeps | extension/content.js:331 | labelling one node leaves every labelled node's id alone |
| Identity.AssignIdsSpec | extension/content.js:329-335 | all of the above together, including the exact id of each newly labelled node |
| Identity.AssignIdsKeepsIssued | extension/content.js:329-335 | if every id was issued below the counter and no two nodes share one, that still holds afterwards (new ids are pairwise distinct and distinct from earlier ones) |
| Identity.AssignIdsIdempotent | extension/content.js:329-335 | a second call on the same nodes changes nothing |
| Identity.AllLabelledUnchanged | extension/content.js:331 | when every node already has an id, nothing changes, counter included |
| Dom.GetRole | extension/content.js:317-322 | when the node itself carries the attribute, the role is its value, or "unknown" if that is empty, and the descendant is not consulted; otherwise the descendant's value, or "unknown" when there is none or it is empty; never empty |
| Dom.FirstMatch | extension/content.js:306-312 | none iff every selector comes back empty; otherwise the first selector in order with a non-empty result |
| Dom.FirstMatchAt | extension/content.js:306-312 | the selector at position i is the first match when it matches and none before it does |
| Dom.Locate | extension/content.js:299-315 | a still-matching cached selector is kept and its nodes returned; otherwise the first matching selector in priority order is cached; nothing found gives [] and clears the cache |
| Dom.LocateStable | extension/content.js:299-315 | locating again on the same document returns the same nodes and cache |
| Render.ModeName | extension/content.js:11-12 | the mode names are non-empty and contain no ':' |
| Render.FilterVisibleMembers | extension/content.js:386-391 | a node is kept iff its role is "user", or "assistant" in mode both; "unknown" is always dropped |
| Render.FilterVisibleConcat | extension/content.js:386-391 | filtering distributes over concatenation, so input order is preserved |
| Render.UserFilterRefinesBoth | extension/content.js:386-391 | the user view is the user part of the both view |
| Render.RenderKey | extension/content.js:393-396 | the key is never empty and starts with the mode name and ':' |
| Render.RenderKeyIgnoresText | extension/content.js:393-396 | the key depends only on ids and roles, not on titles |
| Render.JoinInjective | extension/content.js:396 | joining non-empty parts that have no '\|' with "\|" is injective |
| Render.RenderKeyInjective | extension/content.js:393-396 | for ids and roles free of ':' and '\|', two keys are equal iff the modes are equal and the id/role sequences agree |
| Render.BuildItems | extension/content.js:420-426 | one entry per visible node, in order, numbered 1..n, carrying the node's id, role and title |
| Render.BuildDots | extension/content.js:456-473 | one dot per visible node, in order, with the node's id, role and title as preview |
| Render.IndexById | extension/content.js:421-426 | every key is a non-empty id whose entry is at the stored position; every node with an id is a key, and the last node with that id wins |
| Render.IndexByIdKeys | extension/content.js:424 | the keys are exactly the non-empty ids of the nodes |
| Render.IndexOfUnique | extension/content.js:424 | with distinct ids, each node's id maps to that node's own position |
| Render.PatchItems | extension/content.js:432-445 | the patch keeps the length and every field of every entry except the title |
| Render.PatchDots | extension/content.js:432-445 | the patch keeps the length and every field of every dot except the preview |
| Render.PatchItemsOnlyTouched | extension/content.js:433-440 | an entry changes only if a dirty node (any node when nothing is dirty) with an id maps to it |
| Render.PatchItemsSetsTouched | extension/content.js:438-440 | a touched node found in the map gets its current title written into its entry |
| Render.PatchDotsOnlyTouched | extension/content.js:442-443 | a dot changes only if a touched node maps to it |
| Render.PatchDotsSetsTouched | extension/content.js:442-443 | a touched node found in the map gets its current title as preview |
| Render.PatchWithEmptyMapsIsIdentity | extension/content.js:439-443 | ids missing from the maps are skipped silently: with empty maps the patch changes nothing |
| Render.IndexByIdSameShape | extension/content.js:421-426 | the index depends only on ids, not titles |
| Render.PatchEquivalentToRebuild | extension/content.js:406-411 | when the key is unchanged, ids are distinct and the dirty set covers every changed title, patching a rebuilt list gives the list a rebuild would give, with the same index |
| Reconcile.Rebuild | extension/content.js:413-429 | the key is remembered, force and dirty set cleared, one entry per visible node; the dots are rebuilt only when the collapsed strip exists, and are kept otherwise |
| Reconcile.Patch | extension/content.js:406-411 | key and both maps kept, force cleared, dirty set emptied, entries and dots keep their number (every other field by `Render.PatchItems` / `Render.PatchDots`) |
| Reconcile.NextRender | extension/content.js:398-430 | without a list nothing changes; force survives only when it was set, and then with the dirty set unchanged |
| Reconcile.NextRenderKey | extension/content.js:398-430 | with a list, the remembered key afterwards is the key of what is now visible, whichever path was taken |
| Reconcile.DecisionTable | extension/content.js:398-430 | no list: no change; same key, not forced: no change (dirty set and maps survive); same key, forced: only titles and previews change, key and maps kept, force cleared, dirty set emptied; new key: full rebuild remembering the key |
| Reconcile.ResetKeyRebuilds | extension/content.js:398-430 | after the key is reset to "" (setMode, hidden refresh) the next render is a full rebuild |
| Reconcile.NextRenderIdempotent | extension/content.js:398-430 | rendering the same nodes twice is the same as rendering once |
| Reconcile.PatchKeepsSlots | extension/content.js:432-445 | the patch keeps every map entry pointing at an entry for its id |
| Reconcile.RebuildKeepsSlots | extension/content.js:414-429 | a rebuild leaves every map entry pointing at an entry for its id |
| Reconcile.NextRenderKeepsSlots | extension/content.js:398-430 | every render path keeps the maps consistent with the entries |
| Reconcile.RebuildContents | extension/content.js:414-429 | after a rebuild the list map's keys are exactly the visible ids and indices run 1..n; when the collapsed targets exist the dot map has the same keys as the list map |
| Reconcile.PatchAfterRebuildIsRebuild | extension/content.js:406-411 | a forced render with an unchanged key after a rebuild leaves what a rebuild would leave |
| Reconcile.IssuedIdSafe | extension/content.js:332 | issued ids contain neither ':' nor '\|' |
| Reconcile.FilterKeySafe | extension/content.js:386-396 | visible nodes with safe ids have safe ids and roles for the key |
| Reconcile.LabelledViewsSafe | extension/content.js:329-341 | nodes labelled by the engine are read with issued, key-safe ids |
| Reconcile.VisibleViewsKeySafe | extension/content.js:386-396 | the visible views of labelled nodes are key-safe |
| Reconcile.ConsUnique | extension/content.js:386-391 | a node with an id none of the others has, in front of nodes with distinct ids, keeps the ids distinct |
| Reconcile.FilterKeepsUnique | extension/content.js:386-391 | filtering keeps ids distinct |
| Reconcile.VisibleViewsUnique | extension/content.js:329-335 | distinct labelled nodes give visible views with distinct ids |
| Scheduler.Schedule | extension/content.js:494-520 | afterwards a refresh is pending; never both armed; immediate leaves only a frame; a normal call while armed does nothing; from rest it arms only the timer |
| Scheduler.TimerFired | extension/content.js:513-519 | the timer clears itself and arms a frame |
| Scheduler.FrameFired | extension/content.js:504-507 | the frame clears itself and leaves the timer as it was |
| Scheduler.StepKeepsNeverBoth | extension/content.js:494-520 | no event arms the timer and the frame together |
| Scheduler.RunKeepsNeverBoth | extension/content.js:494-520 | no run of events arms both |
| Scheduler.RequestsCoalesce | extension/content.js:511 | a burst of normal calls has the effect of the first and runs no refresh |
| Scheduler.BurstRefreshesOnce | extension/content.js:494-520 | from rest, any burst of normal calls followed by the timer and the frame runs refresh exactly once and returns to rest |
| Scheduler.RefreshesBoundedByFrames | extension/content.js:504-517 | refreshes never outnumber frame callbacks |
| Scheduler.NoRequestNoRefresh | extension/content.js:494-520 | from rest, callbacks without a request run no refresh |
| Mutations.IsExtensionElement | extension/content.js:522-534 | anything inside the panel or the preview belongs to the overlay |
| Mutations.IsExtensionNode | extension/content.js:522-523 | a non-element node is never an overlay node |
| Mutations.AnyPageElement | extension/content.js:553-558 | true iff some node in the list is an element outside the overlay |
| Mutations.IsRelevant | extension/content.js:536-563 | overlay targets never count; a text record counts iff its parent is a page element in the message area; an attribute record iff its target is; a child-list record iff some added or removed node is a page element |
| Mutations.DirtyIdOf | extension/content.js:565-573 | the dirty id is the node's own message id when the node is an element carrying a non-empty one, the parent's when the node is not an element and the parent carries a non-empty one, and none otherwise; never empty |
| Mutations.Absorb | extension/content.js:581-592 | one record: relevant iff already relevant or the record is; text changed iff already or the record is a text record; the dirty set only grows, and only by the record's own dirty id |
| Mutations.Classify | extension/content.js:578-593 | every dirty id gathered is non-empty, and a text change was seen only if some record is a text record |
| Mutations.ClassifyMeaning | extension/content.js:578-593 | relevant iff some record is; text changed iff some record is a text record; dirty ids are those of every text and child-list record, relevant or not |
| Mutations.OrderIndependent | extension/content.js:581-593 | the outcome depends only on which records occur, not on their order or repeats |
| Mutations.ClassifyConcat | extension/content.js:581-593 | classifying two parts and combining them equals classifying the whole |
| Mutations.ChildListOnlyNeverTextChanged | extension/content.js:585-592 | a batch of only child-list records never counts as a text change |
| Mutations.OverlayOnlyNeverRelevant | extension/content.js:537 | a batch made only of changes to overlay nodes is never relevant |
| Navigator.HiddenReset | extension/content.js:485-490 | key reset to "", force cleared, dirty set emptied; entries, dots and both maps kept |
| Navigator.Refreshed | extension/content.js:478-492 | the cache becomes what Locate says; the counter never decreases; without nodes labels, last nodes and rendered state stay; with nodes they become the last nodes; a hidden refresh never touches entries or dots |
| Navigator.RefreshWithoutNodes | extension/content.js:478-481 | with no matching node, refresh only clears the cached selector |
| Navigator.RefreshKeepsInvariants | extension/content.js:478-492 | refresh keeps ids issued and distinct, the maps consistent, and the counter non-decreasing |
| Navigator.RefreshIdempotent | extension/content.js:478-492 | a second refresh on an unchanged document changes nothing |
| Navigator.ShownAfterHiddenRebuilds | extension/content.js:485-491 | a hidden refresh keeps the entries and resets the key, so the first refresh once shown is a full rebuild |
| Navigator.ForcedRefreshMatchesRebuild | extension/content.js:478-492 | a forced refresh whose dirty set covers the changed titles leaves what a full rebuild would |
| Navigator.Navigator.constructor | extension/content.js:27-40 | the initial values: counter 0, nothing armed, mode both, empty key, maps and dirty set |
| Navigator.Navigator.GetMessageNodes | extension/content.js:299-315 | returns the nodes and cache that Locate specifies |
| Navigator.Navigator.EnsureMessageIds | extension/content.js:329-335 | the attributes and counter become AssignIds of the old ones; ids stay issued and distinct |
| Navigator.Navigator.PatchRenderedContent | extension/content.js:432-445 | the entries and dots become PatchItems / PatchDots of the old ones, under the current maps and dirty set |
| Navigator.Navigator.RenderCollapsed | extension/content.js:447-476 | without targets nothing changes; otherwise the dots and dotById are rebuilt for the visible nodes |
| Navigator.Navigator.RebuildList | extension/content.js:414-429 | the rendered state becomes the full rebuild for the key and visible nodes |
| Navigator.Navigator.BuildList | extension/content.js:418-428 | the entries and listItemById are rebuilt for the visible nodes |
| Navigator.Navigator.RenderList | extension/content.js:398-403 | the rendered state becomes NextRender of the old one for the nodes' views; the invariant is kept |
| Navigator.Navigator.RenderViews | extension/content.js:398-430 | the rendered state follows the decision table |
| Navigator.Navigator.PatchList | extension/content.js:406-411 | the patch branch: patched titles, force cleared, dirty set emptied |
| Navigator.Navigator.Refresh | extension/content.js:478-492 | the refresh state becomes Refreshed of the old one; the invariants are kept |
| Navigator.Navigator.RefreshNodes | extension/content.js:483-491 | labels the nodes and remembers them, then resets (panel hidden) or renders |
| Navigator.Navigator.ShowOrReset | extension/content.js:485-491 | reset (panel hidden) or render the nodes; the invariant is kept |
| Navigator.Navigator.ResetHidden | extension/content.js:485-490 | key reset, force cleared, dirty set emptied, entries and maps kept |
| Navigator.Navigator.ScheduleRefresh | extension/content.js:494-520 | the handles become Schedule of the old ones |
| Navigator.Navigator.TimerFires | extension/content.js:513-518 | the handles become TimerFired of the old ones |
| Navigator.Navigator.FrameFires | extension/content.js:504-507 | the frame handle is cleared, and refresh runs iff the frame was armed |
| Navigator.Navigator.OnMutations | extension/content.js:578-597 | the dirty set grows by the batch's dirty ids; force is set iff the batch is relevant and has a text record; a refresh is scheduled iff the batch is relevant |
| Navigator.Navigator.InstallObserver | extension/content.js:575-576 | afterwards the observer is installed, and nothing else changes |
| Navigator.Navigator.SetMode | extension/content.js:213-224 | sets the mode; with last nodes, the rendered state becomes NextRender from the state with the key reset to "" (a full rebuild when the list exists, by Reconcile.ResetKeyRebuilds) and the handles are untouched; without, only the key is reset and an immediate refresh is scheduled |
| Navigator.Navigator.RenderAfterReset | extension/content.js:217-220 | the rendered state becomes NextRender of the old one with the key reset to ""; the invariant is kept |
| Navigator.Navigator.Cleanup | extension/content.js:609-631 | the observer is off, neither handle is armed, and the dirty set and both maps are empty; entries and key stay |

## Left out

- Panel construction and UI wiring (`createPanel`), scrolling to a message, hover-preview positioning, CSS class toggles and the preview hide in `renderCollapsed`: presentation only, no engine state.
- Debug flag, debug API and perf counters: storage I/O and window globals.
- `init`, the instance guard and the page listeners: environment plumbing.
- The real `MutationObserver` (`observe` options, observed root), `setTimeout` with its 120 ms delay and `requestAnimationFrame`: these are the events `OnMutations`, `TimerFires` and `FrameFires`, fed in from outside.
- CSS selector semantics (`querySelectorAll`, `closest`, `matches`): their answers are inputs (`Page`, `ElementInfo`).
- UTF-16 code units: `IsSpace` lists the characters of JavaScript's `\s`, but strings are sequences of Unicode scalar values, so a character outside the Basic Multilingual Plane counts once toward the 140-character limit where JavaScript counts two.
- The counter is unbounded: JavaScript number precision beyond 2^53 is not modelled.
- Attributes written by the host page: `idAttr` holds only the values the engine wrote, so ids found on nodes are the engine's own.
- Dataset values: the list entry and dot target stay an `Option`. A missing id becomes `"null"` only in the render key (`IdText`), as string interpolation does.
- Navigator.Navigator.PatchRenderedContent: requires that every map entry points inside the rendered list. The source's `if (item)` and `if (dot)` checks (`extension/content.js:440`, `:443`) are modelled as map membership. A map value that points outside the list has no counterpart in the source, where map values are the elements themselves; the class invariant, which every method keeps, rules it out.
- Render.PatchItemsSetsTouched: states the written title only when no other touched node maps to the same entry. With repeated ids the last such node wins; that case is not stated.
- Render.PatchDotsSetsTouched: states the written preview only when no other touched node maps to the same dot, as above.
- Render.FilterVisible: its own contract only bounds the length. Membership and order are stated by `Render.FilterVisibleMembers` and `Render.FilterVisibleConcat`.
- Navigator.Navigator.SetMode: the button class toggles and the initial `setMode(MODE_BOTH)` during panel creation are not modelled.
