# BunnyHole, modelled in Dafny

BunnyHole is a browser extension that records a "bunny hole": the tree of web
pages a user reached by following links. Every page is a node carrying a title,
a url, free-form notes and a React key. A node's children are the pages opened
from it. The sidebar shows the tree and lets the user edit it, addressing nodes
by their path of child indices.

This project models and proves the following parts:

- **The tree store** (`src/modules/bunny_hole.mjs`), in `hole_tree.dfy` and
  `bunny_hole.dfy`. Each node is a `Node` value. It holds the page record
  (`tab`), the serialisable mirror object (`obj`, the source's `#obj`) and the
  child nodes. The class `BunnyHoles.BunnyHole` holds the root, the static key
  counter and a ghost log of the trees handed to `#reportChange`. The source
  keeps two child lists in step, `#children` and `#obj.children`. The class
  invariant `Mirrored` says so, and every mutator preserves it. The mutators are
  specified by tree functions (`InsertAt`, `RemoveAt`, `ReplaceAt`,
  `Repositioned`). Lemmas state, for each of them, the exact change in the
  multiset of page records and where the touched node ends up. `InsertAt`,
  `RemoveAt` and the notes write through `ReplaceAt` also have an inverse
  (removing the inserted child, reinserting the removed one, writing the old
  notes back). A move has no inverse lemma: it is tied to the record
  multiset, which it keeps, and to the placement of the moved subtree.
- **The page record** (`src/modules/bunny_tab.mjs` and its older copy
  `modules/bunny_tab.mjs`, lines 6-30), in `bunny_tab.dfy`: fragment stripping
  and the `values` setter. The constructor and fragment stripping of the older
  copy behave as in the current one. The older copy has no `values` setter, so
  `WithValues` and `SetterKeepsAnchor` model the current copy only. The table
  cites the current copy only.
- **The navigation tracker** (`src/background_scripts/web_tracker.mjs`), in
  `web_tracker.dfy`. It is a class over the tab map, the pending source url and
  the new-tab flag. Each browser lookup (`tabs.get`, `tabs.query`) arrives as a
  parameter, and `None` stands for a rejected promise.
- **The message protocol** (`src/modules/messages.mjs`), in `messages.dfy`.
- **The path/class-name codec** of the sidebar (`src/ui/sidebar/BunnyHole.jsx`,
  duplicated in `src/ui/BunnyHole.jsx` at lines 41-62 and 377-381), in
  `path_codec.dfy`. The table cites the sidebar copy only. It rests on a
  model of JavaScript's `String(n)` and `parseInt` in `js_numbers.dfy`.
- **The first revision** of the tracker (`background_scripts/background.js`,
  in `legacy_tracker.dfy`) and of the tree (`modules/bunny_hole.mjs`, in
  `legacy_hole.dfy`).

Behaviour of the code as written that the model reproduces:

- **Page record arguments.** The tree builds the page record of the root and of
  every loaded node as `new BunnyTab(title, url, notes)`. The constructor's
  parameters are `(id, title, url)`, so such a node's record has the title in
  the id slot, the url as title, and its notes, cut at `#`, as url.
  - `searchByUrl` compares that slot, so a loaded node is found by its notes
    (`HoleTrees.LoadedNodeMatchesNotes`).
  - Only nodes inserted by `createNode`/`placeNode` carry the real page record.
- **Title or url edits.** `editNode` assigns `title`/`url` on a page record that
  has getters only. In a module that is a TypeError, raised before `#obj`
  changes. So an edit of the title or url throws with nothing changed, and a
  notes-only edit works.
- **`placeNode` without `after`.** `placeNode` computes its index as
  `after ? last + 1 : after`. With `after` false, `splice` receives `false`,
  which counts as 0, so the node becomes the parent's first child.
- **`createNode`'s third argument.** The tracker passes a third argument
  (`true`) to `createNode`, which has no parameter for it.
- **`validateMessage`.** It rejects a message whose type shares a bit with the
  target type. It accepts every other message that has a type.
- **Root path.** The root path `[]` encodes to `"nodePath"`, which parses back
  to `[NaN]`, not to `[]`.
- **Errors become outcomes.** A TypeError on a missing node (a path through a
  missing child) is reported as outcome `Threw`, with nothing changed. An
  index past the end of a child list is clamped as `splice` clamps it.

## Model

| member | source | states |
|---|---|---|
| BunnyTabs.StripFragment | src/modules/bunny_tab.mjs:36-38 | the result is a prefix of the input with no '#', and it is the whole input or stops at the first '#' |
| BunnyTabs.StripFragmentKeepsPlainUrl | src/modules/bunny_tab.mjs:36-38 | a url without '#' is kept unchanged |
| BunnyTabs.StripFragmentIdempotent | src/modules/bunny_tab.mjs:36-38 | stripping twice is stripping once |
| BunnyTabs.NewTab | src/modules/bunny_tab.mjs:6-22 | id and title are stored verbatim; the url is the input up to its first '#', has no '#', and is a prefix of the input |
| BunnyTabs.WithValues | src/modules/bunny_tab.mjs:27-30 | the setter replaces title and url verbatim and keeps the id |
| BunnyTabs.SetterKeepsAnchor | src/modules/bunny_tab.mjs:9-30 | the setter can store a '#' that the constructor always strips |
| HoleTrees.NodeAtAppend | src/modules/bunny_hole.mjs:262-266 | `#getNode` along `p + q` is `#getNode` along q from the node at p |
| HoleTrees.ReplaceAtHere | src/modules/bunny_hole.mjs:150-161 | writing a node in place puts it at its path, and the path stays valid |
| HoleTrees.ReplaceAtBelow | src/modules/bunny_hole.mjs:150-161 | below the written path, the new node's subtree is what is seen |
| HoleTrees.ReplaceAtElsewhere | src/modules/bunny_hole.mjs:150-161 | a path that parts from the written one reaches the same node as before |
| HoleTrees.ReplaceAtAbove | src/modules/bunny_hole.mjs:150-161 | every strict ancestor of the written node keeps its page record and mirror fields, whatever is written; the written position itself keeps them when the new node does |
| HoleTrees.ReplaceAtTwice | src/modules/bunny_hole.mjs:150-161 | writing twice at one path is writing the second value once |
| HoleTrees.ReplaceAtSame | src/modules/bunny_hole.mjs:150-161 | writing back the node already there changes nothing |
| HoleTrees.ReplaceAtMirrored | src/modules/bunny_hole.mjs:150-161 | writing a mirrored node into a mirrored tree keeps both child lists in step on every ancestor |
| HoleTrees.ReplaceAtEntries | src/modules/bunny_hole.mjs:150-161 | writing a node in place swaps exactly the records of the old subtree for those of the new |
| HoleTrees.EntryHasPath | src/modules/bunny_hole.mjs:296-304 | every record in the tree sits at some valid path |
| HoleTrees.InsertChildFacts | src/modules/bunny_hole.mjs:275-276 | splicing a child into both lists keeps them in step, adds exactly the child's records, and removing at the clamped index undoes it |
| HoleTrees.RemoveChildFacts | src/modules/bunny_hole.mjs:183-184 | splicing a child out of both lists keeps them in step, drops exactly its records, and reinserting it undoes the removal |
| HoleTrees.InsertAtFacts | src/modules/bunny_hole.mjs:268-277 | inserting under a node keeps the tree mirrored; the parent's children become `old[..k] + [x] + old[k..]` with k the clamped index; x sits at `parent + [k]`; the records grow by x's; removing at k gives the old tree back |
| HoleTrees.RemoveAtFacts | src/modules/bunny_hole.mjs:173-187 | removing child i keeps the tree mirrored and the other siblings in order; its subtree's records are exactly what is lost; reinserting it undoes the removal; an index past the end changes nothing |
| HoleTrees.MirroredAt | src/modules/bunny_hole.mjs:43-53 | every subtree of a mirrored tree is mirrored |
| HoleTrees.FindInFacts | src/modules/bunny_hole.mjs:300-303 | the child loop of `#search` answers for the first child whose subtree holds a match, and all earlier children hold none |
| HoleTrees.FindSound | src/modules/bunny_hole.mjs:296-304 | a found path leads to a node whose url is the one searched for |
| HoleTrees.FindComplete | src/modules/bunny_hole.mjs:296-304 | any node with the url is found |
| HoleTrees.FindNoneIffAbsent | src/modules/bunny_hole.mjs:312-314 | `searchByUrl` answers undefined exactly when no node has the url |
| HoleTrees.FindFirst | src/modules/bunny_hole.mjs:296-304 | the node found comes first in pre-order among all nodes with that url |
| HoleTrees.ShiftFacts | src/modules/bunny_hole.mjs:240-245 | after the source is spliced out, the shifted destination path reaches the same node |
| HoleTrees.PlaceBesideFacts | src/modules/bunny_hole.mjs:244-247 | among the children of the destination's parent the spliced node sits right before (or after) the destination, which moves to the neighbouring index; the parent keeps its record |
| HoleTrees.PlaceBesideKeeps | src/modules/bunny_hole.mjs:244-247 | splicing beside the destination keeps the tree mirrored and grows its records by exactly the spliced subtree |
| HoleTrees.MoveChildFacts | src/modules/bunny_hole.mjs:232-250 | after a move the source subtree, intact, is a child of the destination's parent right before (or after) the destination, and the destination keeps its record (`Beside`) |
| HoleTrees.PlacedBeside | src/modules/bunny_hole.mjs:243-247 | a tree obtained by splicing `x` beside the node at `d` has `x` and that node side by side under its parent, in the order `after` asks for |
| HoleTrees.MoveChildKeeps | src/modules/bunny_hole.mjs:232-250 | a move keeps the tree mirrored and leaves the multiset of records unchanged |
| HoleTrees.RemovedAndShifted | src/modules/bunny_hole.mjs:233-244 | once the source is cut out, the destination is still found, at its shifted path, with its record |
| HoleTrees.ParentAfterRemoval | src/modules/bunny_hole.mjs:233-245 | once the source is cut out, the destination's parent is still found, at its shifted path, with its record |
| HoleTrees.MoveChildParent | src/modules/bunny_hole.mjs:245-250 | the node that now holds the moved subtree is the destination's old parent, so the new parent pointer is `dstParent` |
| HoleTrees.RemovedSource | src/modules/bunny_hole.mjs:233-241 | the source subtree is the parent's child at its index; cutting it out loses exactly its records |
| HoleTrees.MoveLastBeforeFirst | src/modules/bunny_hole.mjs:204-254 | `[A, B, C]` with `([2], [0], false)` becomes `[C, A, B]` |
| HoleTrees.Objs | src/modules/bunny_hole.mjs:51-53 | `#obj.children` is rebuilt from the children, position by position |
| HoleTrees.LoadNodeFacts | src/modules/bunny_hole.mjs:31-54 | a loaded tree is mirrored and has the stored child count; the counter ends no lower than it started and above every loaded key |
| HoleTrees.LoadAllFacts | src/modules/bunny_hole.mjs:43-49 | children are loaded in order, one per stored child, each mirrored, with every key below the final counter |
| HoleTrees.LoadRoundTrip | src/modules/bunny_hole.mjs:31-54 | loading the stored form of a node gives back the same `#obj`, children in the same order |
| HoleTrees.LoadAllRoundTrip | src/modules/bunny_hole.mjs:43-53 | loading stored children gives back their objects in order |
| HoleTrees.LoadedNodeMatchesNotes | src/modules/bunny_hole.mjs:312-314 | a node loaded from its stored fields has as page url its notes cut at '#', and `searchByUrl` finds it under that string alone |
| BunnyHoles.NewNode | src/modules/bunny_hole.mjs:268-272 | a fresh node is mirrored, has no children and holds exactly one record: the tab's title and url, empty notes, the given key |
| BunnyHoles.CreateParent | src/modules/bunny_hole.mjs:100-101 | the parent `createNode` picks is a valid path |
| BunnyHoles.Search | src/modules/bunny_hole.mjs:296-304 | the loop-and-recurse search returns exactly the pre-order first match |
| BunnyHoles.DstIsDescendant | src/modules/bunny_hole.mjs:206-219 | the check answers true exactly when the source path is a prefix of (or equal to) the destination path |
| BunnyHoles.DeleteParent | src/modules/bunny_hole.mjs:176-181 | the loop reaches the node at the path minus its last step, or fails on a missing child |
| BunnyHoles.BunnyHole.constructor | src/modules/bunny_hole.mjs:31-41 | a new tree is a root alone: title "New Bunny Hole", url "<No URL>", notes "", key 1, no children; the counter is then 2 |
| BunnyHoles.BunnyHole.Load | src/modules/bunny_hole.mjs:31-54 | loading gives the mirrored tree and counter of `LoadNode`, with every key below the counter |
| BunnyHoles.BunnyHole.CreateJsObject | src/modules/bunny_hole.mjs:69-78 | the new record takes the counter's value as key and the counter goes up by one |
| BunnyHoles.BunnyHole.AddDirectDescendant | src/modules/bunny_hole.mjs:268-277 | a new node keyed by the counter is spliced in at the index, or appended without one |
| BunnyHoles.BunnyHole.ReportChange | src/modules/bunny_hole.mjs:279-283 | the current tree is handed on; nothing else changes |
| BunnyHoles.BunnyHole.SearchByUrl | src/modules/bunny_hole.mjs:312-314 | returns the pre-order first node with the url, or none |
| BunnyHoles.BunnyHole.CreateNode | src/modules/bunny_hole.mjs:95-106 | declines exactly when a node has the url; otherwise appends one node as last child of the first node with `parentUrl` (the root when none); the url is present afterwards and urls stay unique |
| BunnyHoles.BunnyHole.PlaceNode | src/modules/bunny_hole.mjs:123-135 | declines exactly on a duplicate url; throws exactly when the parent path is missing; otherwise inserts under the path's prefix at `last + 1` or at 0 |
| BunnyHoles.BunnyHole.EditNode | src/modules/bunny_hole.mjs:145-165 | throws, with no change, exactly on a missing node or a title or url edit; otherwise writes the notes and reports |
| BunnyHoles.BunnyHole.DeleteNode | src/modules/bunny_hole.mjs:173-187 | declines exactly on the empty path; throws exactly on a missing parent; otherwise removes the addressed child from both lists and reports |
| BunnyHoles.BunnyHole.RepositionNode | src/modules/bunny_hole.mjs:204-254 | declines exactly when the source is a prefix of the destination or the destination is the root; throws exactly on a missing node; otherwise the tree becomes `Repositioned` |
| BunnyHoles.CreateNodeKeepsUrlsUnique | src/modules/bunny_hole.mjs:95-106 | inserting a node whose url is absent keeps every url held by exactly one record |
| BunnyHoles.EditNotesFacts | src/modules/bunny_hole.mjs:159-162 | a notes edit keeps the tree mirrored, changes exactly that node's record, keeps the record of every ancestor, and writing the old notes back undoes it |
| BunnyHoles.EditNotesKeys | src/modules/bunny_hole.mjs:159-162 | a notes edit keeps every key below the counter |
| BunnyHoles.RemoveAtKeys | src/modules/bunny_hole.mjs:183-184 | a removal keeps every key below the counter |
| BunnyHoles.CreateParentFacts | src/modules/bunny_hole.mjs:100-101 | the parent is the root when `parentUrl` is undefined or absent, and otherwise the pre-order first node with that url |
| BunnyHoles.CreateNodeFacts | src/modules/bunny_hole.mjs:95-106 | an insertion adds exactly one record as the parent's new last child, nothing else changes, removing it undoes it, and the url is present so a repeat is declined |
| BunnyHoles.PlaceNodeFacts | src/modules/bunny_hole.mjs:128-133 | a placement adds exactly one record; without `after`, or for the empty path, it becomes the first child |
| BunnyHoles.PlaceNodeAfter | src/modules/bunny_hole.mjs:129-133 | with `after` the node lands right after the node at the path, which stays where it was |
| JsNumbers.NatToString | src/ui/sidebar/BunnyHole.jsx:99-101 | `String(n)` is a non-empty run of decimal digits without a leading zero |
| JsNumbers.ParseIntOfNatToString | src/ui/sidebar/BunnyHole.jsx:103-108 | `parseInt(String(n))` is n |
| JsNumbers.ParseIntOfEmpty | src/ui/sidebar/BunnyHole.jsx:106-107 | `parseInt("")` is NaN |
| PathCodec.Split | src/ui/sidebar/BunnyHole.jsx:106 | `split` gives at least one piece, none holding the separator, and joining them gives the input back |
| PathCodec.SplitJoin | src/ui/sidebar/BunnyHole.jsx:100-106 | splitting undoes joining separator-free pieces |
| PathCodec.FirstWithPrefix | src/ui/sidebar/BunnyHole.jsx:87-93 | the first class in list order that starts with the prefix, and none exactly when no class does |
| PathCodec.GetClassName | src/ui/sidebar/BunnyHole.jsx:87-93 | the loop returns the first class with the prefix, or null |
| PathCodec.ParsePath | src/ui/sidebar/BunnyHole.jsx:103-108 | gives [] when no class starts with "nodePath", else `parseInt` of each '_'-separated piece |
| PathCodec.PathRoundTrip | src/ui/sidebar/BunnyHole.jsx:99-108 | for a non-empty path, parsing a class list whose first path class is `buildPathClassName(p)` gives p |
| PathCodec.RootPathParsesToNaN | src/ui/sidebar/BunnyHole.jsx:99-108 | the root path encodes to "nodePath", which parses to `[NaN]` |
| PathCodec.PathClassNameInjective | src/ui/sidebar/BunnyHole.jsx:99-101 | distinct non-empty paths get distinct path class names |
| PathCodec.DepthClassEncodesLength | src/ui/sidebar/BunnyHole.jsx:95-97 | a depth class is never taken for a path class, and its suffix reads back as the path's length |
| PathCodec.ChildViews | src/ui/sidebar/BunnyHole.jsx:452-456 | child i's path is the parent path plus [i], and its depth is that path's length |
| PathCodec.ChildViewsAddressChildren | src/ui/sidebar/BunnyHole.jsx:452-462 | each child's path class parses back to its path, and siblings' class names differ |
| Messages.MessageTypesAreDistinctBits | src/modules/messages.mjs:4-8 | BH, IO and UI are the single bits 1, 2 and 4, pairwise disjoint |
| Messages.DecodeBuild | src/modules/messages.mjs:10-113 | every builder's message decodes back to that builder and its arguments, so types and command codes tell all builders apart and content is carried unchanged |
| Messages.ValidateMessage | src/modules/messages.mjs:115-119 | a message validates only when it has a type |
| Messages.ValidateNeedsType | src/modules/messages.mjs:116 | a message without a type never validates |
| Messages.ValidateRejectsOwnType | src/modules/messages.mjs:117-118 | for a target of BH, IO or UI, a built message validates exactly when its type differs from the target |
| WebTrackers.MappedKeys | src/background_scripts/web_tracker.mjs:57-59 | mapping all tabs adds exactly their ids to the map's keys |
| WebTrackers.MappedKeeps | src/background_scripts/web_tracker.mjs:57-59 | mapping all tabs keeps the entry of every id none of them carries |
| WebTrackers.MappedLast | src/background_scripts/web_tracker.mjs:57-59 | mapping all tabs leaves each id with the last tab that carried it |
| WebTrackers.WebTracker.constructor | src/background_scripts/web_tracker.mjs:7-30 | no hole, an empty map, no source url, flag clear, no listeners |
| WebTrackers.WebTracker.IoCallback | src/background_scripts/web_tracker.mjs:48-67 | without a hole, listeners are removed and nothing is mapped; with one, every queried tab is mapped and only then are listeners on |
| WebTrackers.WebTracker.SetBunnyHole | src/background_scripts/web_tracker.mjs:98-100 | only the hole changes |
| WebTrackers.WebTracker.MapTabByLookup | src/background_scripts/web_tracker.mjs:109-119 | a resolved lookup maps the tab; a rejected one maps nothing |
| WebTrackers.WebTracker.MapTabByInfo | src/background_scripts/web_tracker.mjs:128-131 | the tab's id maps to its page record, overwriting any entry |
| WebTrackers.WebTracker.UnmapTab | src/background_scripts/web_tracker.mjs:137-139 | only that key is removed |
| WebTrackers.WebTracker.HandleTabCreated | src/background_scripts/web_tracker.mjs:146-148 | the tab's id maps to a record built from it, overwriting any entry |
| WebTrackers.WebTracker.HandleTabActivated | src/background_scripts/web_tracker.mjs:156-160 | an absent id is mapped from the lookup; a mapped id is left as it is |
| WebTrackers.WebTracker.HandleTabRemoved | src/background_scripts/web_tracker.mjs:167-169 | only that key is removed; tree, source url and flag untouched |
| WebTrackers.WebTracker.HandleCreatedNavigationTarget | src/background_scripts/web_tracker.mjs:178-183 | the flag is raised; the source url becomes the source tab's mapped url, or stays when that tab is unmapped |
| WebTrackers.WebTracker.HandleBeforeNavigate | src/background_scripts/web_tracker.mjs:194-201 | with the flag raised, clears it and keeps the source url; otherwise takes the tab's mapped url, throwing with no change when it is unmapped |
| WebTrackers.WebTracker.HandleCompleted | src/background_scripts/web_tracker.mjs:209-220 | with a hole, `createNode` runs with the source url, so the tree then holds the tab's stripped url, and the tab maps to the loaded record. A new url is inserted under the chosen parent, the key counter goes up by one and the new tree is reported; a known url or a rejected lookup leaves tree, counter and reports unchanged. Without a hole nothing changes |
| WebTrackers.WebTracker.FollowLinkInNewTab | src/background_scripts/web_tracker.mjs:178-216 | created-target(A), before-navigate(B), completed(B) puts B's page as last child of the first node with A's mapped url (the root when none) |
| LegacyTrackers.Tracker.constructor | background_scripts/background.js:6-11 | no hole, an empty map, no source tab, flag clear |
| LegacyTrackers.Tracker.MapTab | background_scripts/background.js:128-139 | a resolved lookup maps the tab; a rejected one maps nothing |
| LegacyTrackers.Tracker.UnmapTab | background_scripts/background.js:144-146 | only that key is removed |
| LegacyTrackers.Tracker.IoNewBunnyHole | background_scripts/background.js:49-63 | a fresh hole is opened with one request for the first active tab, which is mapped; with no active tab nothing changes |
| LegacyTrackers.Tracker.IoCloseBunnyHole | background_scripts/background.js:73-76 | the hole is dropped, so `canProceed` is false |
| LegacyTrackers.Tracker.HandleTabCreated | background_scripts/background.js:153-157 | without a hole nothing changes; with one the tab is mapped from the lookup |
| LegacyTrackers.Tracker.HandleTabActivated | background_scripts/background.js:165-173 | without a hole nothing changes; with one only an absent id is mapped |
| LegacyTrackers.Tracker.HandleTabUpdated | background_scripts/background.js:180-188 | no state changes, with or without a hole |
| LegacyTrackers.Tracker.HandleTabRemoved | background_scripts/background.js:200-202 | the id is unmapped even with no hole |
| LegacyTrackers.Tracker.HandleCreatedNavigationTarget | background_scripts/background.js:215-221 | with a hole, the flag is raised and the source tab id (not a url) is stored; without one nothing changes |
| LegacyTrackers.Tracker.HandleBeforeNavigate | background_scripts/background.js:232-241 | with a hole, consumes the flag keeping the source id, or makes this tab the source; without one nothing changes |
| LegacyTrackers.Tracker.HandleCompleted | background_scripts/background.js:249-261 | with a hole and a mapped source tab, one request under the source's url is sent and the tab is remapped; otherwise nothing changes |
| LegacyHoles.SearchNode | modules/bunny_hole.mjs:30-39 | the loop-and-recurse search returns exactly the pre-order first node with the id |
| LegacyHoles.FindIdInFacts | modules/bunny_hole.mjs:35-38 | the child loop answers for the first child whose subtree holds the id |
| LegacyHoles.FindIdSound | modules/bunny_hole.mjs:30-39 | a found path leads to a node with the id |
| LegacyHoles.FindIdFirst | modules/bunny_hole.mjs:30-39 | every node with the id is found, and the one found comes first in pre-order |
| LegacyHoles.AppendAtShape | modules/bunny_hole.mjs:21-25 | the parent gains the new node as its last child and keeps its id and url |
| LegacyHoles.AppendAtRecords | modules/bunny_hole.mjs:21-25 | appending adds exactly the new node's records |
| LegacyHoles.AppendAtInverse | modules/bunny_hole.mjs:25 | dropping the last child under the parent undoes the append |
| LegacyHoles.AppendAtElsewhere | modules/bunny_hole.mjs:25 | no node off the way to the parent changes |
| LegacyHoles.AppendAtAncestors | modules/bunny_hole.mjs:25 | every node on the way to the parent keeps its id and url |
| LegacyHoles.ParentOf | modules/bunny_hole.mjs:15 | a chosen parent is a node of the tree |
| LegacyHoles.ParentOfFacts | modules/bunny_hole.mjs:15-19 | with no parent id the root is chosen; otherwise the pre-order first node with the id, or none when no node has it |
| LegacyHoles.BunnyHole.constructor | modules/bunny_hole.mjs:2-12 | a fresh tree is a root with id "ROOT_NODE", no url and no children |
| LegacyHoles.BunnyHole.SearchById | modules/bunny_hole.mjs:30-39 | returns the pre-order first node with the id, or none |
| LegacyHoles.BunnyHole.CreateNode | modules/bunny_hole.mjs:14-28 | with an unknown parent id nothing changes; otherwise a node with the given id and url is appended under the parent, the root when no id is given |
| LegacyHoles.CreateNodeFacts | modules/bunny_hole.mjs:14-25 | a successful insertion adds exactly one record as the parent's last child, nothing off the way changes, and dropping it undoes it |
| LegacyHoles.CreateNodeTwiceKeepsBoth | modules/bunny_hole.mjs:14-25 | there is no de-duplication: inserting the same id and url twice holds them twice |

## Left out

- `#reportChange` writes to `browser.storage.local` and sends a runtime
  message. The model records each tree handed to it in the ghost field
  `reports`.
- The static key counter `BunnyHole.#reactKey` is shared by all instances. It
  is the field `reactKey` of the tree object, and `Load` takes its value
  beforehand as a parameter.
- The `#parent` back pointers are not stored. A node's parent is the node at its
  path minus the last step. `HoleTrees.MoveChildParent` states what the pointer
  update in `repositionNode` achieves.
- `#createJsObject`'s `children` parameter is left out: every caller passes `[]`.
- `#createJsObject`'s `notes` argument is left out. Its only caller,
  `#addDirectDescendant`, passes `bunnyTab.notes`. `BunnyTab` declares no
  `notes` member, so that value is `undefined` and the parameter's default
  `ROOT_NODE_NOTES` (`""`) applies. The model always uses `""`.
- `editNode`'s `node.#tab.notes = notes` is left out. It gives the page record
  an own `notes` property. Only a record carrying one would change the notes of
  a new node, and no caller hands an edited node's record back to `createNode`
  or `placeNode`.
- The page record is a value. No caller uses the `values` setter on a record
  that another node shares, so the in-place update is modelled on values
  (`BunnyTabs.WithValues`).
- Paths are sequences of naturals. JavaScript would also accept negative,
  fractional or non-numeric indices, which the UI never produces.
- `searchByUrl` returns a path, not a node object. `#getNode` is `NodeAt`.
- `toString`, `print` and the console logging are left out.
- Browser asynchrony is left out: a promise's result is passed in as a
  parameter and applied at once. So is the ordering between a lookup and later
  events, and the registration of listeners beyond the `listening` flag.
- `background_scripts/background.js`: `handleMessage`, the empty
  `ioLoadBunnyHole`/`ioSaveBunnyHole` stubs and the installation notification
  are left out. So is the tree this revision drives: it passes a page record
  where its own `createNode` expects an id. The hole is therefore the log of
  `createNode` requests it receives.
- `BunnyHoles.BunnyHole.RepositionNode`: the root check at line 222 is never
  reached. An empty source path is a prefix of every path, so the descendant
  check has already declined.
- Messages.ValidateMessage: its own contract states only that validation needs
  a type. The bit test is stated by `ValidateRejectsOwnType` for the three
  message types, not for arbitrary targets.
