# Annotated maps: verified models of the node forest and its protocols

Annotated Maps keeps, for every map, a forest of nodes with notes attached. Who sees a node depends
on override flags and group tags that are inherited along the forest. This project models that state
and the requests on it, together with three small protocols beside it, and proves what they keep over
all inputs and all runs.

## What is modelled

**The tables** (`Tables.dfy`, `Forest.dfy`). `Db` has one map, set or sequence per table. `Up` is the
parent chain; a forest is a node table in which every parent exists, lies on its child's map, and
every chain ends.

**The write endpoints** (`NodeController.dfy`, with `Descent.dfy`, `CopyLoop.dfy`, `Effects.dfy`,
`Requests.dfy`). The class `NodeController.Controller` holds the tables and updates them as the
handlers do: create walks up the parent chain, move collects the subtree with a frontier loop and then
issues its statements, copy inserts nodes and then notes in two loops that build an id map. Each method
takes an index `fault` of a writing statement that the database fails (create counts the re-fetch after
its INSERT too). The descendant query has no bound of its own; `maxRecursion` is the database server's
limit on recursive queries, beyond which, and so on any cycle, it answers with an error; `maxCascade`
is its limit on the nesting of cascading deletes. `Effects.dfy`
says, independently of the statements, what each request is to do to the tables; `Requests.dfy` says
when it is refused. `RowEffects.dfy` and `Acceptance.dfy` state both once more row by row, column by
column and status by status. A request is one atomic step.

**Runs** (`ForestSafety.dfy`, `Depth.dfy`, `Runs.dfy`, `Examples.dfy`). Sequences of requests by any
callers with any faults. For each guarantee (references, no cycles, forest, depth, cap) the exact
condition under which a run keeps it, and concrete requests at which it fails.

**Visibility** (`Resolver.dfy`, `VisibilityFrames.dfy`). The recursive query as rounds of rows, the
definition it stands for ("the tags of the nearest self-or-ancestor with the override flag"), and how
create, delete, move, copy and tagging move it.

**The read endpoints** (`Listing.dfy`, `Subtree.dfy`, `NotesAndPlots.dfy`, `Edges.dfy`). Listing,
fetching, children, the paged subtree, notes, plot members and edges. `NoteFrames.dfy` says what copy
and move do to notes.

**Note tagging** (`NoteController.dfy`). The same statements as for a node, without a transaction.

**Protocols** (`RateLimit.dfy`, `TokenRefresh.dfy`, `Sso.dfy`). The sliding-window limiter, the
single-flight token refresh of the web client, and the one-time states and codes of single sign-on.
Each is a class with the source's fields, proved against a specification on logs or on events.

## Where the code differs from what it says

- A move with `newMapId` alone is described as making the node top-level
  (`backend/src/controllers/NodeController.cpp:1263`), and its response says `parentId: null`
  (lines 1441-1443), but `parent_id` is left alone (1542-1543). `ForestSafety.MoveKeepsForestIff` shows
  that this is exactly the move that breaks "parents are on their children's map", and
  `Examples.TwoMovesMakeACycle` continues from there to a cycle with one more accepted move.
- "Cycle prevention" (`backend/src/controllers/NodeController.h:75`) compares the new parent with the
  source's subtree on its own map only; `ForestSafety.MoveKeepsAcyclicIff` says which moves get past it.
- The descendant query of a move is described as bounded by the depth limit (1375-1376); it has no
  bound. On a cycle the server's recursion limit turns it into an error.
- The depth limit is described as enforced at the application layer (`NodeController.h:167-170`).
  Neither move nor copy checks it; `Depth.MoveKeepsShallowIff` and `Depth.CopyKeepsShallowIff` say when
  they keep it, `Examples.MoveTooDeep` and `Examples.CopyTooDeep` show ones that do not. The limit is to
  keep deletes within the database's cascade nesting (172-174); `Depth.DeletableIffShallow` says that
  beyond it some node cannot be deleted. Likewise cross-map move and the 5000-node cap
  (`Runs.MoveKeepsCapIff`, `Examples.MoveOverfills`).
- createNode answers 500 when the SELECT after its INSERT fails, with the row stored
  (`Examples.ErrorWithStoredRow`).
- A cross-map move drops the tags of nodes, but not those of overriding notes on them, nor, across
  tenants, the notes' plot memberships (`NoteFrames.MovedNoteVisibility`, `NoteFrames.StrandedPlotNote`).
- A same-map move is described as re-parenting a node with its subtree on the map
  (`NodeController.h:64-68`). After a bare relocation it also changes who sees a node that was left
  hanging on another map (`Examples.MoveRevealsOutside`).
- A plot lists members to an admin on maps of the tenant whose own endpoints refuse that admin
  (`NotesAndPlots.PlotNodesAgreeWithMaps`); `NodeController.cpp` has the map gate for admins too.
- `GET /children` is described as having the same shape as `GET /nodes?parentId=N`
  (`backend/src/controllers/NodeController.h:83-84`). The nodes are the same, but the filtered listing
  drops every parent link (`Listing.FilteredListDropsLinks`).
- A page of the subtree also drops a link whose parent is in the subtree but on another page
  (`SubtreeQuery.PageKeepsLinkIff`).
- For a tenant admin, `getNode` keeps a link to a parent on another map and `listNodes` drops it
  (`Listing.GetAgreesWithListForAdmin`).
- The comment at NodeController.cpp:843-847 takes an untagged node to be visible to everyone. In the
  code a node that resolves to a node without tags is visible to nobody but admins and an x-raying
  owner.
- The note version of setVisibility is not a transaction. When it fails part of the way, the note can
  be visible to a user who sees it neither before nor after the whole request;
  `NoteController.PartialExposureIff` gives the exact condition.
- The rate limiter reads its clock before it takes the lock. Calls of one key that overtake each other
  shorten the window that is guaranteed by as much as they are late (`RateLimit.GuaranteedIff`).
- The rate limiter's sweep never removes a key while the limit is positive: no stored deque is empty.

## Model

| member | source | states |
|---|---|---|
| NodeController.Controller.RunTransaction | backend/src/controllers/NodeController.cpp:1500-1585 | Whichever statement fails, BEGIN and COMMIT included, the tables are as before; otherwise they are the result of all statements in order, and only then is it reported as committed |
| NodeController.Controller.ParentDepth | backend/src/controllers/NodeController.cpp:452-459 | The bounded walk returns the parent's true depth, or 15 when the chain is at least that long |
| NodeController.Controller.CreateNode | backend/src/controllers/NodeController.cpp:329-482 | Refused exactly by the listed rules in their order with nothing changed; a failed INSERT changes nothing; otherwise one fresh row under the given parent and nothing else, which also stays when the re-fetch after it fails and the answer is an error |
| NodeController.Controller.CollectCascade | database/migrations/001_schema.sql:332 | The cascade loop, one nesting level a round, stays within the database's limit exactly when no node is deeper below the deleted one, and then finds exactly the nodes whose parent chain reaches it, on every map |
| NodeController.Controller.DeleteNode | backend/src/controllers/NodeController.cpp:671-703 | All nodes of the cascade go, with their tags, notes, note tags, plot memberships and edges, and every other row of every table stays; or the cascade nests beyond the database's limit, or the statement fails, and nothing changes |
| NodeController.Controller.SetVisibility | backend/src/controllers/NodeController.cpp:772-980 | All or nothing over flag and tags, whichever statement fails; each part authoritative on its own |
| NodeController.Controller.CheckDestination | backend/src/controllers/NodeController.cpp:1595-1681 | Accepts exactly a destination that the caller may edit, across tenants as an admin of both, with the new parent on it; otherwise the status of the first rule that fails |
| NodeController.Controller.MoveNode | backend/src/controllers/NodeController.cpp:1284-1688 | On any tables: an error with nothing changed when the descendant query does not answer; else the exact effect, map ids on precisely the subtree, the parent on precisely the source, tags dropped only across maps, plot memberships only across tenants; refusals and failures change nothing |
| NodeController.Controller.CopyNode | backend/src/controllers/NodeController.cpp:1718-2169 | On any tables that satisfy the foreign keys: an isomorphic copy through a bijection onto fresh ids, one copy per note, no old row changed, the response naming the copied root; on any failing statement, or when the descendant query does not answer, every row as before |
| NodeController.Controller.CopyRows | backend/src/controllers/NodeController.cpp:1873-1922 | The transaction publishes both loops' rows or none |
| NodeController.CopyNodeRows | backend/src/controllers/NodeController.cpp:2026-2083 | The insert loop gives each listed node one row with translated parent; the look-up of the parent's copy never fails |
| NodeController.CopyNoteRows | backend/src/controllers/NodeController.cpp:1977-2014 | The note loop gives each note of a copied node one copy on the translated node; the look-up never fails |
| NodeController.DepthTest | backend/src/controllers/NodeController.cpp:469-474 | The test on the bounded depth decides whether the parent has fourteen nodes above it |
| NodeController.CascadeComplete | database/migrations/001_schema.sql:310-332 | A set that contains the node and all children of its members is the whole cascade |
| NodeController.VisibilityStatementsEffect | backend/src/controllers/NodeController.cpp:885-928 | The statements issued add up to the specified whole effect |
| NodeController.MoveStatementsEffect | backend/src/controllers/NodeController.cpp:1523-1584 | The statements of a cross-map or same-map move add up to the specified row-by-row effect |
| RowEffects.CreatedRow | backend/src/controllers/NodeController.cpp:412-432 | A create adds one row, each column from the body's own field, empty texts as NULL, no flag, the caller as creator; every other row and table stays |
| RowEffects.CopiedNode | backend/src/controllers/NodeController.cpp:2061-2113 | A copied node has its source's name, geometry, description and color, the destination map, the copy of its parent, the caller as creator, and neither flag, tags nor plot memberships |
| RowEffects.CopiedNote | backend/src/controllers/NodeController.cpp:2002-2012 | A copied note has its source's text, pin, title and color, empty ones as NULL, the copied node, the caller as creator, and neither flag, tags nor plot memberships |
| RowEffects.MovedRows | backend/src/controllers/NodeController.cpp:1448-1584 | A move changes map and parent of the rows concerned and no other column; a tag goes iff the map changes and its node moves, a plot membership iff the tenant changes and its node moves; no other table changes |
| RowEffects.DeletedRows | database/migrations/001_schema.sql:310-484 | After a delete a row of any table is there iff it was before and refers to nothing that the cascade takes; what is left is unchanged, edges in their order and number |
| RowEffects.TaggedRows | backend/src/controllers/NodeController.cpp:885-928 | Tagging changes flag and tags of the one node, each only if the body gives it, and replaces the tags rather than adding |
| Acceptance.EditTakesLevel | backend/src/controllers/NodeController.cpp:79-82 | Editing takes ownership or an own grant of at least edit in the order of the levels; a public grant never suffices |
| Acceptance.ViewTakesLevel | backend/src/controllers/NodeController.cpp:73-78 | Viewing takes ownership or any own or public grant; who may edit may view |
| Acceptance.CreateAccepts | backend/src/controllers/NodeController.cpp:329-475 | Create accepts exactly on an own-tenant editable map with fewer than 5000 nodes and a parent on it with at most thirteen nodes above; the one refusal for lack of permission is 403 |
| Acceptance.DeleteAccepts | backend/src/controllers/NodeController.cpp:671-703 | Delete accepts exactly what the caller may edit on a map of the own tenant |
| Acceptance.MoveAccepts | backend/src/controllers/NodeController.cpp:1299-1411 | Move accepts exactly when source, destination map, both tenants and the new parent allow it and the parent is not in the subtree; 403 exactly for the source and the tenants |
| Acceptance.CopyAccepts | backend/src/controllers/NodeController.cpp:1733-1787 | The same for copy, with the cap of 5000 in place of the subtree check |
| Acceptance.TaggingAccepts | backend/src/controllers/NodeController.cpp:808-973 | Tagging accepts exactly from an admin or a member of a managing group of the tenant, on a node of the tenant, with groups of the tenant; 403 and 404 each exactly for their reason |
| Acceptance.NoteTaggingAccepts | backend/src/controllers/NoteController.cpp:522-656 | The same for notes |
| Descent.DescendantRows | backend/src/controllers/NodeController.cpp:1378-1397 | The frontier loop answers exactly when no row lies beyond the server's recursion limit, and then with exactly the source and its same-map transitive children, by depth and then id |
| Descent.CycleFails | backend/src/controllers/NodeController.cpp:1378-1392 | A source that lies on a cycle of its own map makes the query fail, whatever the limit |
| Descent.RowsDistinct | backend/src/controllers/NodeController.cpp:1798-1810 | No descendant is listed twice |
| Descent.ParentsFirst | backend/src/controllers/NodeController.cpp:1795-1797 | Every row but the root comes after the row of its parent, which is what copy relies on |
| Forest.AcyclicIffNoCycle | backend/src/controllers/NodeController.cpp:1399-1401 | Every chain ends exactly when no node is its own proper ancestor |
| Forest.SubtreeClosed | backend/src/controllers/NodeController.cpp:1378-1385 | The subtree is closed downwards on its map, and upwards until its root |
| Forest.DescendsOnce | backend/src/controllers/NodeController.cpp:1798-1810 | Below a root that is not on a cycle of its map every descendant has one depth |
| ForestSafety.CreateKeepsForest | backend/src/controllers/NodeController.cpp:452-475 | An accepted create keeps the references, the absence of cycles and the same-map rule, each on its own |
| ForestSafety.DeleteKeepsForest | backend/src/controllers/NodeController.cpp:664-703 | A cascading delete keeps each of the three, and leaves no dangling reference |
| ForestSafety.SetVisibilityKeepsForest | backend/src/controllers/NodeController.cpp:885-928 | Tagging keeps each of the three |
| ForestSafety.MoveKeepsAcyclicIff | backend/src/controllers/NodeController.cpp:1399-1411 | On acyclic tables an accepted move makes a cycle if and only if the new parent lies below the source, counting links to other maps, which the descendant check does not see |
| ForestSafety.CascadeIsSubtree | backend/src/controllers/NodeController.cpp:1378-1385 | In a forest everything below a node is on its map, so there the descendant check sees it all |
| ForestSafety.MoveKeepsForestIff | backend/src/controllers/NodeController.cpp:1542-1543 | An accepted move keeps parents on their children's maps if and only if it is not a cross-map move without `newParentId` of a node that has a parent |
| ForestSafety.CopyKeepsForest | backend/src/controllers/NodeController.cpp:2026-2083 | An accepted copy keeps each of the three, also under the source's own subtree |
| Runs.Handle | backend/src/controllers/NodeController.h:94-130 | Whatever request and whatever failing statement: an error response leaves every row as before if and only if it is not that of an accepted create whose re-fetch failed; in that case and after a success the whole specified effect is there; the references stay valid |
| Examples.ErrorWithStoredRow | backend/src/controllers/NodeController.cpp:380-405 | A concrete create that is answered with an error and has stored its row |
| Runs.RunKeepsReferential | backend/src/controllers/NodeController.cpp:664-669 | Over every run every parent exists and every reference is valid, so that every request can be handled |
| Runs.RunKeepsAcyclicIff | backend/src/controllers/NodeController.h:75-76 | A run from acyclic tables, bare relocations included, stays acyclic if and only if no accepted move in it names a parent below its source on any map |
| Runs.RunKeepsForestIff | backend/src/controllers/NodeController.cpp:1378-1411 | A run from a forest remains one, parents on their children's maps and no cycle, if and only if it contains no accepted bare relocation |
| Examples.TwoMovesMakeACycle | backend/src/controllers/NodeController.cpp:1542-1543 | Both conditions are needed: a bare relocation leaves a parent behind, and a second accepted move closes a cycle |
| Runs.MoveResponseParent | backend/src/controllers/NodeController.cpp:1438-1445 | The move's response names the stored parent unless the body gave none and the node has one |
| Depth.CreateDepthRule | backend/src/controllers/NodeController.cpp:465-474 | Create refuses a parent exactly when the new node would lie more than fourteen levels deep |
| Depth.MoveKeepsShallowIff | backend/src/controllers/NodeController.h:167-175 | A move, which checks no depth, keeps the limit if and only if everything at or below the source fits under the new parent |
| Depth.CopyKeepsShallowIff | backend/src/controllers/NodeController.cpp:2026-2083 | The same for a copy and the subtree it duplicates |
| Examples.MoveTooDeep | backend/src/controllers/NodeController.h:167-175 | A concrete accepted move that exceeds the limit, to a place where create refuses a node |
| Examples.CopyTooDeep | backend/src/controllers/NodeController.cpp:2026-2083 | A concrete accepted copy that does |
| Depth.ShallowIsDeletable | backend/src/controllers/NodeController.h:172-175 | Within the depth limit no delete nests beyond fourteen levels, so none fails for its depth |
| Depth.DeletableIffShallow | backend/src/controllers/NodeController.h:172-175 | The depth limit is exactly what a nesting limit of fourteen asks of an acyclic table for every node to be deletable |
| Runs.RunKeepsShallowIff | backend/src/controllers/NodeController.h:167-175 | A run keeps all depths at most fourteen if and only if every accepted move and copy in it fits |
| Runs.RunQueryIsExact | backend/src/controllers/NodeController.h:167-175 | Over such a run the bounded query gives exactly the unbounded "nearest override" visibility, for every anchor set, node and user |
| Runs.CopyCount | backend/src/controllers/NodeController.cpp:2149-2163 | A copy adds exactly the subtree's size to the destination map and nothing to any other |
| Runs.MoveCount | backend/src/controllers/NodeController.cpp:1576-1584 | A move conserves nodes: what one map loses the other gains |
| Runs.MoveKeepsCapIff | backend/src/controllers/NodeController.cpp:1485-1499 | A move, which does not check the cap, keeps it exactly when the subtree still fits |
| Runs.RunKeepsCapIff | backend/src/controllers/NodeController.h:177-185 | A run keeps every map within 5000 nodes if and only if no accepted cross-map move in it overfills its destination |
| Examples.MoveOverfills | backend/src/controllers/NodeController.cpp:1576-1584 | A concrete accepted move of a 5001st node to a map where create refuses one |
| Resolver.RoundsMeaning | backend/src/controllers/NodeController.cpp:102-113 | The rounds of the recursive query hold exactly the flagless walks up from each start |
| Resolver.ResolvesAtIsNearest | backend/src/controllers/NodeController.cpp:84-94 | The recursive definition is "nearest self-or-ancestor with the flag": set there and nowhere below |
| Resolver.BoundedResolver | backend/src/controllers/NodeController.cpp:102-119 | For any anchor set, a start is in `visible_starts` iff its nearest flagged self-or-ancestor is within 15 hops and tagged for the user |
| Resolver.EffectiveRecursion | backend/src/controllers/NodeController.cpp:85-88 | Unbounded visibility as a recursion along the parent link |
| Resolver.BoundOnlyHides | backend/src/controllers/NodeController.cpp:100-112 | The bound only hides, and hides exactly the nodes that take a user's tags from beyond it |
| Resolver.ShallowIsExact | backend/src/controllers/NodeController.h:167-175 | On chains of at most 15 links the query is the unbounded definition |
| VisibilityFrames.CreateSpares | backend/src/controllers/NodeController.cpp:412-432 | Creating a node changes nobody's view of another |
| VisibilityFrames.CreatedVisibility | backend/src/controllers/NodeController.cpp:412-432 | A created node is visible exactly as its parent is, one hop further up; at top level, to nobody |
| VisibilityFrames.DeleteSpares | backend/src/controllers/NodeController.cpp:664-703 | Deleting a node changes nobody's view of a survivor |
| VisibilityFrames.MoveSpares | backend/src/controllers/NodeController.cpp:1448-1584 | On any tables, whatever the move: nobody's view changes of a node that does not lie below the source on any map |
| VisibilityFrames.FlagOrBeyond | backend/src/controllers/NodeController.cpp:1564-1584 | A node below the source either finds a flag no further up than the source or walks on beyond it: the two cases that follow |
| VisibilityFrames.MovedInside | backend/src/controllers/NodeController.cpp:1564-1573 | On any tables: a node below the source that finds its flag no further up than the source stays visible to the same users, unless the move is across maps and the flagged node is in the moved subtree; then to nobody |
| VisibilityFrames.MovedBeyond | backend/src/controllers/NodeController.cpp:1448-1476 | On any tables: any other node below the source sees what the new parent then sees, that many hops further up |
| VisibilityFrames.MovedVisibility | backend/src/controllers/NodeController.cpp:1448-1476 | When the new parent does not lie below the source, that is what the new parent saw before the move |
| VisibilityFrames.MovedIntoCycle | backend/src/controllers/NodeController.cpp:1448-1476 | When it does and the cycle so closed has no flag, nobody sees the node |
| VisibilityFrames.SameMapMoveVisibility | backend/src/controllers/NodeController.h:66-68 | Where parents are on their children's maps: a same-map move changes visibility neither outside the subtree nor where the flag is found inside it |
| Examples.MoveRevealsOutside | backend/src/controllers/NodeController.h:66-68 | Elsewhere it can: after a bare relocation a same-map move shows a node of another map, outside the subtree, to a user who did not see it |
| VisibilityFrames.CrossMapMoveVisibility | backend/src/controllers/NodeController.cpp:1564-1584 | Where parents are on their children's maps: a cross-map move changes nothing outside the subtree and hides every node that finds its flag inside it from everyone |
| VisibilityFrames.CopySparesOldNodes | backend/src/controllers/NodeController.cpp:2061-2083 | A copy changes nobody's view of an old node |
| VisibilityFrames.CopyVisibility | backend/src/controllers/NodeController.h:51-52 | Every copied node resolves as the new parent does, whatever its source's flags and tags |
| VisibilityFrames.CopyEffectivelyVisible | backend/src/controllers/NodeController.cpp:1703-1704 | A copy is visible exactly to those who could see the new parent; at top level, to nobody |
| VisibilityFrames.TaggingSpares | backend/src/controllers/NodeController.cpp:885-928 | Setting flag or tags of a node changes nothing for a node whose walk does not reach it |
| VisibilityFrames.TaggingDecides | backend/src/controllers/NodeController.cpp:885-928 | With the flag left on, every node whose walk reaches the tagged node is visible to exactly the groups left on it, given or kept |
| VisibilityFrames.TaggingReleases | backend/src/controllers/NodeController.cpp:765-767 | With the flag left off, every such node is visible exactly as the tagged node's parent was, that many hops further up |
| VisibilityFrames.FlipBackRestores | backend/src/controllers/NodeController.cpp:765-766 | Flipping the flag and back restores every table, tags included |
| Listing.ShownMeaning | backend/src/controllers/NodeController.cpp:121-130 | A node of the map is listed iff a bypass applies or the bounded definition holds |
| Listing.ListNodesMeaning | backend/src/controllers/NodeController.cpp:161-272 | Each of the three listings has exactly the nodes on a map past the gate that are visible within 15 hops, or all for a bypass, and that satisfy the filter; all columns but the link are as stored |
| Listing.ListChildrenMeaning | backend/src/controllers/NodeController.cpp:999-1036 | /children has exactly such nodes whose parent is the given one, rows as stored |
| Listing.GetNodeMeaning | backend/src/controllers/NodeController.cpp:491-581 | Fetching answers exactly for such nodes, all columns but the link as stored |
| Listing.ListingLinks | backend/src/controllers/NodeController.cpp:213-234 | The unfiltered listing has exactly the shown nodes, all on the map, and keeps a link iff its parent is emitted |
| Listing.ListingIsForestIff | backend/src/controllers/NodeController.cpp:213-234 | The emitted links form a forest over exactly the emitted ids if and only if no cycle lies wholly in them |
| Listing.ListingIsForest | backend/src/controllers/NodeController.cpp:213-234 | In particular on all acyclic tables |
| Listing.GetAgreesWithList | backend/src/controllers/NodeController.cpp:516-557 | Fetching a node gives the very row of the listing, and 404 iff it is not listed |
| Listing.GetAgreesWithListForAdmin | backend/src/controllers/NodeController.cpp:521-527 | For admins the two agree exactly when the node's parent is on the same map |
| Listing.FilteredListDropsLinks | backend/src/controllers/NodeController.cpp:1017-1036 | On any tables the filtered listing has the nodes of /children; the one drops every parent link, unless the parent is its own parent, and the other keeps them all |
| SubtreeQuery.SubtreeMeaning | backend/src/controllers/NodeController.cpp:1131-1177 | Exactly the nodes within 15 levels whose whole path from the root is shown, at the depth of that path |
| SubtreeQuery.SubtreeOnce | backend/src/controllers/NodeController.cpp:1152-1174 | In acyclic tables no node is returned at two depths |
| SubtreeQuery.RepeatsIff | backend/src/controllers/NodeController.cpp:1152-1174 | In general a node is returned twice if and only if the root lies below itself on shown nodes within 15 levels |
| SubtreeQuery.EmptyIffRootHidden | backend/src/controllers/NodeController.cpp:1211-1222 | A root that the listing does not show gives the empty result; any other root is in it |
| SubtreeQuery.NextPage | backend/src/controllers/NodeController.cpp:1179-1228 | The page after a cursor begins right behind the page that gave it, and is never empty |
| SubtreeQuery.PagingIsComplete | backend/src/controllers/NodeController.cpp:1176-1228 | Unless a node repeats, following cursors from 0 with any legal limit ends and collects the whole result, row for row, in id order, no gap, no repeat |
| SubtreeQuery.ParentIsReturned | backend/src/controllers/NodeController.h:85-89 | Below the root, the parent of a returned node is in the subtree too |
| SubtreeQuery.PageKeepsLinkIff | backend/src/controllers/NodeController.cpp:1194-1203 | A page emits a row's link exactly when the parent's rank in the whole subtree is on the page or right behind it, and null otherwise |
| SubtreeQuery.PageKeepsRootLink | backend/src/controllers/NodeController.cpp:1194-1198 | The root's link is always emitted |
| SubtreeQuery.PageRefusals | backend/src/controllers/NodeController.cpp:1081-1099 | A limit outside 1 to 500 is refused, and a page is missing exactly when no id is left beyond the cursor |
| SubtreeQuery.DroppedLinks | backend/src/controllers/NodeController.cpp:1194-1203 | A chain of three paged one by one loses every link below the root |
| NotesAndPlots.ShownNotesMeaning | backend/src/controllers/NoteController.cpp:45-79 | A note is shown iff a bypass applies, or its own tags meet the user if it overrides, else its node is visible |
| NotesAndPlots.NoteEndpointsMeaning | backend/src/controllers/NoteController.cpp:106-337 | A node's notes are listed, and a note fetched, exactly on a map past the gate and by its own groups or its node's visibility, or a bypass |
| NotesAndPlots.InheritingNoteFollowsNode | backend/src/controllers/NoteController.cpp:28-36 | A note without override is listed and fetched exactly when the map listing shows its node |
| NotesAndPlots.PlotNodesAgreeWithMaps | backend/src/controllers/PlotController.cpp:87-104 | For every caller: the plot's node query is the map's own listing restricted to members, over any number of maps, except that it also shows an admin the members on the tenant's maps that the admin may not view |
| NotesAndPlots.PlotNotesAgreeWithMaps | backend/src/controllers/PlotController.cpp:106-137 | The same for notes and each map's own note query |
| NotesAndPlots.MemberNodesMeaning | backend/src/controllers/PlotController.cpp:500-518 | A plot lists exactly its own members, to admins on the tenant's maps and to others as a listing of the node's map would |
| NotesAndPlots.MemberNotesMeaning | backend/src/controllers/PlotController.cpp:522-542 | The same for notes |
| NotesAndPlots.PlotsForNodeMeaning | backend/src/controllers/PlotController.cpp:867-901 | 404 exactly for a node that is missing, elsewhere or not visible; otherwise exactly the tenant's plots that hold it |
| NotesAndPlots.PlotsForNoteMeaning | backend/src/controllers/PlotController.cpp:947-974 | The same for notes |
| NotesAndPlots.MembershipBothWays | backend/src/controllers/PlotController.cpp:858-930 | A plot lists a node exactly when the node lists the plot and the caller is an admin or may view the map |
| NotesAndPlots.NoteMembershipBothWays | backend/src/controllers/PlotController.cpp:938-1003 | The same for notes |
| NoteFrames.CopiedNoteFollowsNode | backend/src/controllers/NodeController.h:55-56 | A copied note is visible exactly as the copied node it is on, whatever the flag and tags of its source |
| NoteFrames.CopiedNoteVisibility | backend/src/controllers/NodeController.h:55-56 | So it depends on the new parent's visibility alone, within the hops that the depth in the copy leaves |
| NoteFrames.CopySparesOldNotes | backend/src/controllers/NodeController.cpp:2002-2012 | A copy changes nobody's view of an old note |
| NoteFrames.MovedNoteVisibility | backend/src/controllers/NodeController.h:77-79 | Any move, across maps or not, leaves notes, note tags and note memberships alone: an overriding note stays visible to the groups it was tagged with, subject to the gate of the map it is then on; any other goes with its node |
| NoteFrames.StrandedPlotNote | backend/src/controllers/NodeController.h:72-79 | After a cross-tenant move a note's plot membership remains while its node's is gone, and nobody of the old tenant is shown it there |
| Edges.ListEdgesMeaning | backend/src/controllers/EdgeController.cpp:107-175 | Refused exactly at the gate; otherwise the stored edges of this map, all for a bypass, else those with both endpoints shown, each as often as stored and in table order |
| Edges.NodeEdgesAreFilteredMapEdges | backend/src/controllers/EdgeController.cpp:650-765 | For a shown node its edges are the map's edges that touch it, in the same order; else 404 |
| Edges.NodeEdgesMeaning | backend/src/controllers/EdgeController.cpp:719-743 | These are exactly the edges of the map's listing that begin or end at the node, in their order and number |
| Edges.NodeEdgesStatus | backend/src/controllers/EdgeController.cpp:676-707 | 403 exactly at the gate, 404 exactly for a node that no listing shows |
| Edges.ListedEdgeEndpoints | backend/src/controllers/EdgeController.cpp:67-76 | Without a bypass both endpoints of a listed edge are listed nodes |
| Edges.HiddenNodeHasNoEdges | backend/src/controllers/EdgeController.cpp:658-665 | An edge listed at a node that answers 404 needs a bypass and a node that has left the edge's map |
| NoteController.Controller.SetVisibility | backend/src/controllers/NoteController.cpp:492-656 | A failing statement leaves exactly the earlier statements' effect; success is reported only after the last |
| NoteController.AfterFirstMeaning | backend/src/controllers/NoteController.cpp:563-608 | Flag and tags of the note after each prefix of the statements; nothing else ever changes |
| NoteController.RetryCompletes | backend/src/controllers/NoteController.cpp:563-608 | Repeating a request that failed anywhere brings about its whole effect |
| NoteController.PartialExposureIff | backend/src/controllers/NoteController.cpp:595-608 | Exactly when a failed request shows the note to a user who sees it neither before nor after the whole request |
| NoteController.PartialExposureExample | backend/src/controllers/NoteController.cpp:563-608 | A concrete note, tag and user for which that happens |
| RateLimit.WindowBound | backend/src/filters/RateLimitFilter.cpp:45-68 | If no call of a key comes more than a given time behind an earlier call of that key, no closed window that is shorter than the configured one by that time, wherever it lies, holds more passes of the key than the limit |
| RateLimit.GuaranteedIff | backend/src/filters/RateLimitFilter.cpp:45-68 | With a limit of two or more those are exactly the window lengths that are guaranteed over all logs of that lateness; in order, the configured one |
| RateLimit.OneAtATime | backend/src/filters/RateLimitFilter.cpp:45-68 | With a limit of one the whole configured window is guaranteed whatever the order |
| RateLimit.KeysIndependent | backend/src/filters/RateLimitFilter.cpp:51 | What passes of a key depends on that key's calls alone, whatever the order of any calls |
| RateLimit.DequeHolds | backend/src/filters/RateLimitFilter.cpp:53-68 | From any time on that no call of the key has trimmed beyond, its deque holds exactly its passes |
| RateLimit.PassesIff | backend/src/filters/RateLimitFilter.cpp:53-68 | While a key's calls come in order, a call passes iff the closed window that ends with it holds fewer passes than the limit |
| RateLimit.PassedIsAccepted | backend/src/filters/RateLimitFilter.cpp:38-79 | A key whose calls come in order is treated as the reference limiter says, whatever the order of other keys' calls |
| RateLimit.Filter.PopOld | backend/src/filters/RateLimitFilter.cpp:53-55 | The pop loop removes the front up to the cutoff and nothing behind it |
| RateLimit.Filter.Sweep | backend/src/filters/RateLimitFilter.cpp:70-76 | The erase loop removes exactly the keys with an empty deque |
| RateLimit.Filter.CountAndSweep | backend/src/filters/RateLimitFilter.cpp:70-76 | With no empty deque the periodic sweep changes nothing |
| RateLimit.Filter.DoFilter | backend/src/filters/RateLimitFilter.cpp:38-79 | Passes exactly the calls that the specification on logs passes; while the key's calls come in order, iff the closed window that ends now holds fewer passes of the key than the limit; touches no other key, sweeps included |
| RateLimit.LateCallExceeds | backend/src/filters/RateLimitFilter.cpp:45-55 | For every limit of two or more, window and lateness: a log of that lateness that puts one pass too many into a window one unit longer than guaranteed |
| TokenRefresh.ApiClient.Send | frontend/src/services/api.ts:14-21 | Sends once, with the store's token if there is one |
| TokenRefresh.ApiClient.PerformRefresh | frontend/src/services/api.ts:42-60 | Shares the outstanding refresh; starts one only when there is none |
| TokenRefresh.ApiClient.OnResponse | frontend/src/services/api.ts:62-91 | Success, refusal, joining a refresh or logging out, as the transition relation says |
| TokenRefresh.ApiClient.OnRefreshSettled | frontend/src/services/api.ts:46-58 | Stores the token, frees the slot and fixes the outcome for all waiters |
| TokenRefresh.ApiClient.OnResume | frontend/src/services/api.ts:72-88 | A waiter retries once with the new token, or logs out |
| TokenRefresh.RunInvariant | frontend/src/services/api.ts:29-36 | In every interleaving at most one refresh is outstanding and no request is sent more than twice |
| TokenRefresh.OutcomeIsFinal | frontend/src/services/api.ts:29-32 | All waiters on a refresh see the same outcome, whenever they resume |
| TokenRefresh.SettlesAsAnswered | frontend/src/services/api.ts:62-91 | Over every run, from the events alone: resolved iff the last answer was a success; rejected iff it was another error, a 401 to an /auth/ endpoint or to the second send, or a first 401 after which a refresh yielded no token and the request went on |
| TokenRefresh.SettledStays | frontend/src/services/api.ts:62-91 | A settled request stays as it is |
| TokenRefresh.IssuedRequest | frontend/src/services/api.ts:14-21 | A new request carries the store's token, if there is one |
| TokenRefresh.StoredTokenStands | frontend/src/services/api.ts:50-52 | What a refresh stores is the store's token until something else sets or clears it |
| TokenRefresh.RetryCarriesRefreshed | frontend/src/services/api.ts:72-77 | The second send carries the token that the first refresh after its 401 yielded, unless the store's token was changed in between |
| TokenRefresh.LogoutIff | frontend/src/services/api.ts:79-88 | A step logs out exactly on a refresh without token or a 401 on a retried request |
| TokenRefresh.NoSpuriousLogout | frontend/src/services/api.ts:25-36 | A run whose refreshes succeed and whose retries are not refused never logs out |
| TokenRefresh.RunsAreFinite | frontend/src/services/api.ts:34-36 | At most five internal events per request, so every run ends |
| TokenRefresh.UnsettledCanStep | frontend/src/services/api.ts:62-91 | While a request is unsettled some internal event is possible |
| TokenRefresh.QuiescentMeansSettled | frontend/src/services/api.ts:62-91 | When a run has ended every request is resolved or rejected and no refresh is outstanding |
| Sso.AtMostOneSuccessPerIssue | backend/src/controllers/SsoController.h:20-22 | A state or code succeeds at most as often as it was issued |
| Sso.OutcomeMeaning | backend/src/controllers/SsoController.cpp:495-505 | Redeeming gives a value iff it is the last one issued under that key, in its lifetime, and not yet redeemed since |
| Sso.Lifetimes | backend/src/controllers/SsoController.cpp:105-109 | A state can be redeemed for ten minutes and an app code for two, the last nanosecond included |
| Sso.ReplyStatus | backend/src/controllers/SsoController.cpp:175-289 | Only the right nonce is accepted, and each refusal has its own cause |
| Sso.KeysIndependent | backend/src/controllers/SsoController.cpp:160-171 | The fate of a key depends on its own events alone |
| Sso.SuccessesAtMostIssues | backend/src/controllers/SsoController.cpp:159-171 | Over all keys together, successes and live entries never outnumber issues |
| Sso.TracksRedeem | backend/src/controllers/SsoController.cpp:494-507 | Keeping or erasing an expired entry on a failed attempt gives the same outcome, now and later |
| Sso.TracksPurge | backend/src/controllers/SsoController.cpp:28-44 | A purge at any time leaves the table equivalent to one that is never purged |
| Sso.EraseExpired | backend/src/controllers/SsoController.cpp:31-34 | The erase loop removes exactly the expired entries |
| Sso.Controller.Initiate | backend/src/controllers/SsoController.cpp:92-112 | Issues the state with its nonce for ten minutes; the purge behind it is invisible |
| Sso.Controller.Callback | backend/src/controllers/SsoController.cpp:137-416 | Uses the state up, succeeds only with the nonce issued with it, and fails otherwise with the error of the first failing look-up or check |
| Sso.Controller.PostIssueAppCode | backend/src/controllers/SsoController.cpp:422-473 | Issues one code for two minutes per callback that got this far |
| Sso.Controller.Exchange | backend/src/controllers/SsoController.cpp:477-520 | Gives the issued token and tenant exactly as the never-purged log says, and never twice |
| Sso.Controller.PurgeExpiredStates | backend/src/controllers/SsoController.cpp:28-35 | Removes the expired states, and no outcome with them |
| Sso.Controller.PurgeExpiredAppCodes | backend/src/controllers/SsoController.cpp:37-44 | Removes the expired codes, and no outcome with them |
| Sso.Controller.TokensAtMostLogins | backend/src/controllers/SsoController.cpp:137-520 | However logins interleave, tokens handed out never outnumber codes issued, states redeemed and logins begun |

## Left out

- HTTP and JSON parsing, response building, audit log, length, coordinate and GeoJSON checks: plumbing around the modelled decisions.
- Failing read queries other than the descendant query, create's re-fetch and the provider look-up: they answer 500 before anything is written (getNode hides the parent link instead).
- Interleaving of two requests' database statements: the checks and the writes are separate queries, and the results are about atomic requests.
- Timestamps and the `ORDER BY created_at` order of nodes, notes and plots: listings of these are maps and sets; edges keep their order.
- updateNode, and the create, update and delete endpoints of notes, edges and plots: single-row writes that touch neither `parent_id` nor tags.
- The database's own rules (commit, rollback, ON DELETE CASCADE, foreign keys, AUTO_INCREMENT) are taken as contracts. Key counters may stay ahead after a rollback. Its limits on recursive queries and on cascade nesting are parameters, counted in levels of nodes; that rows hanging on nodes and notes nest up to two levels deeper is not modelled.
- The 32-bit width of ids and counts, and the collation under which `NULLIF(x, '')` also takes blank strings for empty.
- The order in which Drogon reports a rollback: a rolled-back transaction answers with a database error here.
- RateLimit.Filter.DoFilter: the configuration, which the filter reads on every call, is taken as constant.
- A refused call's HTTP 429 and Retry-After header (section 10.2.3 of RFC 9110), and how a request is mapped to its key.
- The web client's page redirect after a logout, and requests that fail without a config.
- Sso.Controller.Callback: one step, though the provider's answer arrives later; the user look-up, collision check and insertion between it and PostIssueAppCode are left out, and a login that fails there stays counted as under way.
- Sso.Controller.Initiate: the look-up of the provider and a failing random source answer before anything is stored.
- Freshness of random values, signatures of tokens and password hashing: foreign code. The counts are per issue, so a repeated key would count twice.
- Map, media, branding, group, tenant and registration controllers, and the React pages: flat validation and single-row writes.
