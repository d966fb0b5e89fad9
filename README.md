# Commit index and plugin logic of VersionControlPrototype, in Dafny

This project models the core of a small version-control plugin for
Notepad++. Its commit index is a partially persistent AVL tree keyed by
commit number (`src/CommitTree.h`). Every node is a "fat node" with a
fixed block of five modification records. Reading a child or the height
"as of version V" starts from the node's base field and lets every record
for that field with version <= V override it. An update appends a record
in place while the block has room; otherwise it snapshots the node into a
new one with an empty block. Rotations and the recursive insertion are
built from these updates. The queries are search, successor and
predecessor. The project also models the string and counter logic of
`src/PluginDefinition.cpp`:
- the line-by-line diff summary;
- the `commit_<n>.txt` naming scheme, and how a number is read back from
  a folder listing and from a viewed path;
- the replay that rebuilds the index from the folder;
- the rollback that deletes the commits after the viewed one.

Modules:

- `Options` (options.dfy): the `Option` datatype.
- `AvlSpec` (avl_spec.dfy): the tree a version of the index denotes, as a
  datatype (`Tree`). It holds a functional mirror of insertNode and its
  rotations, written branch for branch as the code is. The lemmas prove
  three things about insertion: it keeps AVL balance and exact heights, it
  puts the new entry in sorted position, and every rotation the code
  dereferences has its pivot.
- `CommitNodes` (commit_nodes.dfy): the `CommitNode` class with its
  modification block, the version-gated accessors, `copyFullNode` and the
  three bounded-log updates. It also defines a ghost abstraction (`View`)
  from a node, a version and a ghost map of node states to a `Tree`. A
  ghost set of nodes bounds it, so the walk always ends, however the nodes
  point at each other.
- `CommitTree` (commit_tree.dfy): the rotations, insertNode, searchCommit,
  getSuccessor and getPredecessor as methods on the heap nodes. Each is
  proved against `AvlSpec` through `View`. `InsertNode` has no `modifies`
  clause, so the verifier checks that it changes no node that existed
  before the call. Every earlier root therefore keeps answering as before.
- `Plugin` (plugin.dfy): the diff summary, names and numbers, and the
  replay and rollback as a specification on `Tree` values.
- `Replay` (replay.dfy): InitializeCommitTree and the corrected rollback
  run against the heap nodes: each taken name goes through
  `CommitTree.InsertNode` with its number as version, and the tree read
  at the new counter's version is proved to be the specified replay.

Strings are sequences of characters. The file system appears only as the
listing of `.txt` names in the repository folder. The contents of a
commit's `.diff` and `.msg` files are parameters (`diffOf`, `msgOf`):
functions of the commit number.

## Model

| member | source | states |
|---|---|---|
| CommitNodes.CommitNode.constructor | src/CommitTree.h:62-65 | a new node has the given key and payload, height 1, no children and no records in use |
| CommitNodes.LastVisible | src/CommitTree.h:70-105 | the record a read selects, if any, is a position of the log |
| CommitNodes.LastVisibleSpec | src/CommitTree.h:70-105 | the selected record is for the field and has version <= V, and no later record is; with none selected, no record is visible, so the base value stands |
| CommitNodes.LastVisibleAppend | src/CommitTree.h:73-77 | one more loop round: a visible appended record decides the read, an invisible one leaves it as it was |
| CommitNodes.LastVisibleStable | src/CommitTree.h:70-105 | records whose versions lie outside (v1, v2] make reads at v1 and v2 agree: records newer than V never affect the read |
| CommitNodes.LastVisibleBeyond | src/CommitTree.h:70-105 | once every record's version is at most w, a read at any version from w on selects the same record as at w |
| CommitNodes.MirrorsLater | src/CommitTree.h:70-105 | when no record in use is newer than v, every node reads at any later version exactly as at v, and still has no newer record: the tree one insertion leaves is the tree the next, later insertion starts from |
| CommitNodes.AppendedRecord | src/CommitTree.h:121-168 | an appended record decides its field at every version from its own on, and at earlier versions all three fields read as before |
| CommitNodes.GetLeft | src/CommitTree.h:70-79 | null for null; otherwise the base left child overridden by the last visible LEFT record, without changing the node |
| CommitNodes.GetRight | src/CommitTree.h:83-92 | the same for the right child |
| CommitNodes.GetHeight | src/CommitTree.h:96-105 | 0 for null; otherwise the base height overridden by the last visible HEIGHT record |
| CommitNodes.CopyFullNode | src/CommitTree.h:109-117 | null for null; otherwise a fresh node with the same key and payload, an empty log, and base fields equal to the original's effective fields at V |
| CommitNodes.AppendRecord | src/CommitTree.h:125-126 | the in-place branch of an update: the record becomes the last one in use, the count grows by one and the base fields stay |
| CommitNodes.UpdateLeft | src/CommitTree.h:121-134 | null for null. With room: the record goes to slot modCount, modCount grows by one, base fields stay and the same node is returned. When full: the node is untouched and a fresh node with an empty log, the new left child and the other effective fields is returned. Either way the result reads newLeft and keeps the other fields at V, and a node with no record newer than V still has none |
| CommitNodes.UpdateRight | src/CommitTree.h:138-151 | the same for the right child |
| CommitNodes.UpdateHeight | src/CommitTree.h:155-168 | the same for the height |
| CommitTree.SetChild | src/CommitTree.h:121-151 | a child update on a node above a closed subtree: the node (or its snapshot) denotes the old node with the new child on that side |
| CommitTree.FixHeight | src/CommitTree.h:176-180 | the height refresh stores 1 + max of the children's effective heights and leaves the children |
| CommitTree.Relink | src/CommitTree.h:174-176 | child update then height refresh denote `AvlSpec.Reattach` of the old node; only the node itself may change state |
| CommitTree.Copy | src/CommitTree.h:109-117 | a snapshot is a fresh node that reads exactly as the original at V |
| CommitTree.Lift | src/CommitTree.h:172-176 | first half of a rotation: the pivot child is copied, the top takes over the copy's inner subtree with its height refreshed, and the outer subtrees are unchanged |
| CommitTree.Pivot | src/CommitTree.h:172-196 | a rotation with its pivot present ends in a fresh root denoting the two reattachments; only the top node may change among existing nodes |
| CommitTree.RightRotate | src/CommitTree.h:171-183 | the result denotes `AvlSpec.RotateRight` of the tree read at V (null when there is no left child); only `y` may change state |
| CommitTree.LeftRotate | src/CommitTree.h:185-196 | the result denotes `AvlSpec.RotateLeft` of the tree read at V |
| CommitTree.DoubleRight | src/CommitTree.h:227-232 | left-right case: the result denotes a right rotation of the node whose left child was rotated left, with no height refresh in between |
| CommitTree.DoubleLeft | src/CommitTree.h:233-238 | right-left case, the mirror image |
| CommitTree.RebalanceNode | src/CommitTree.h:219-239 | the four balance tests in the code's order; the result is never null and denotes `AvlSpec.Rebalance` of the node's tree |
| CommitTree.RebalanceDouble | src/CommitTree.h:227-239 | the last two tests, once neither single rotation applies: a double rotation or the node unchanged, again denoting `AvlSpec.Rebalance` |
| CommitTree.NewLeaf | src/CommitTree.h:203-204 | inserting into an empty tree gives a fresh single node of height 1 with no children |
| CommitTree.Descend | src/CommitTree.h:206-215 | the root is copied at V, and keys below its key go left, the rest right |
| CommitTree.Attach | src/CommitTree.h:209-239 | the copied node takes the new subtree, gets its height refreshed and is rebalanced; the result denotes `AvlSpec.Insert` of the node's tree |
| CommitTree.InsertNode | src/CommitTree.h:199-240 | on a tree read at V = the key that is AVL with exact heights: the result is a fresh node denoting `AvlSpec.Insert`, and no node that existed before changes state (no modifies clause); if no record was newer than V before, none is after, so the result reads the same at every later version |
| CommitTree.SearchCommit | src/CommitTree.h:243-251 | returns null exactly when `AvlSpec.Search` misses on the tree read at V, and otherwise the node whose key and payload that search finds |
| CommitTree.GetSuccessor | src/CommitTree.h:254-267 | on an ordered tree read at V: null only when no key is above the argument; otherwise a node with the least key above it |
| CommitTree.GetPredecessor | src/CommitTree.h:270-283 | on an ordered tree read at V: null only when no key is below the argument; otherwise a node with the greatest key below it |
| AvlSpec.RotateRight | src/CommitTree.h:172-182 | the new root carries the former left child's key, and positive stored heights stay positive |
| AvlSpec.RotateLeft | src/CommitTree.h:186-196 | the new root carries the former right child's key, and positive stored heights stay positive |
| AvlSpec.RotateRightEntries | src/CommitTree.h:172-182 | a right rotation with its pivot keeps the in-order sequence of entries |
| AvlSpec.RotateLeftEntries | src/CommitTree.h:186-196 | a left rotation with its pivot keeps the in-order sequence of entries |
| AvlSpec.RotateRightBalances | src/CommitTree.h:222-223 | left-left case: the rotated tree is AVL with exact heights, two above the right sibling |
| AvlSpec.RotateLeftBalances | src/CommitTree.h:225-226 | right-right case, the mirror image |
| AvlSpec.DoubleRightBalances | src/CommitTree.h:228-232 | left-right case: the grandchild exists and the double rotation gives an AVL tree of the right height |
| AvlSpec.DoubleLeftBalances | src/CommitTree.h:234-238 | right-left case, the mirror image |
| AvlSpec.Rebalance | src/CommitTree.h:219-239 | the four tests in code order keep stored heights positive |
| AvlSpec.Insert | src/CommitTree.h:199-240 | insertion keeps stored heights positive |
| AvlSpec.InsertBalanced | src/CommitTree.h:199-240 | insertion into an AVL tree with exact heights gives a non-empty AVL tree with exact heights at most one taller; when it grows, the root stays and leans to the side the key went |
| AvlSpec.ReattachLeans | src/CommitTree.h:208-219 | before the balance tests, the node can only be too heavy on the side the key went down |
| AvlSpec.InsertPivots | src/CommitTree.h:222-238 | on an AVL tree, whenever a balance test holds, the child it dereferences and the grandchild a double rotation pivots on are present |
| AvlSpec.ReattachEntries | src/CommitTree.h:208-215 | putting the child's insertion back gives the node's entries with the new entry in sorted position |
| AvlSpec.RebalanceEntries | src/CommitTree.h:219-239 | rebalancing keeps the in-order entries when the pivots are present |
| AvlSpec.InsertEntries | src/CommitTree.h:199-240 | the in-order entries after insertion are the old ones with the new entry in sorted position (after equal keys) |
| AvlSpec.InsertKeepsInvariant | src/CommitTree.h:199-240 | insertion keeps AVL balance, exact heights and search order, and adds exactly the new entry (multiset) |
| AvlSpec.Search | src/CommitTree.h:243-251 | a found entry is in the tree and has the target key |
| AvlSpec.SearchComplete | src/CommitTree.h:243-251 | on an ordered tree the search misses exactly when no entry has the key |
| Plugin.NatToString | src/PluginDefinition.cpp:709 | the decimal text of a count is a non-empty run of digits without a leading zero |
| Plugin.IntToString | src/PluginDefinition.cpp:430 | std::to_wstring of an int is non-empty and holds only digits and a minus sign |
| Plugin.LeadingDigits | src/PluginDefinition.cpp:732 | the longest digit prefix of the text: a prefix made of digits, not followed by a digit |
| Plugin.SkipSpaces | src/PluginDefinition.cpp:732 | a suffix of the text that does not start with white space |
| Plugin.Atoi | src/PluginDefinition.cpp:732 | _wtoi skips white space and one optional sign and reads the digits that follow: no digits there reads as 0, a negative number only after '-', a positive one only from digits |
| Plugin.IntRoundTrip | src/PluginDefinition.cpp:732 | _wtoi reads back what std::to_wstring wrote, for every int |
| Plugin.LineEnd | src/PluginDefinition.cpp:698 | the position of the first line break, or the end of the text |
| Plugin.Lines | src/PluginDefinition.cpp:692-698 | the lines std::getline delivers; there are none exactly when the text is empty |
| Plugin.LinesOfUnlines | src/PluginDefinition.cpp:698 | splitting lines joined with breaks gives them back |
| Plugin.GetLine | src/PluginDefinition.cpp:698 | fails exactly at the end of the text; otherwise delivers the first remaining line and moves past its break |
| Plugin.Differing | src/PluginDefinition.cpp:699-702 | the number of differing aligned pairs is at most either line count |
| Plugin.CountRest | src/PluginDefinition.cpp:705-706 | a draining loop counts exactly the lines left in its stream |
| Plugin.CompareAligned | src/PluginDefinition.cpp:698-703 | the paired loop counts the differing aligned pairs; after it, the old stream holds its lines beyond the new count minus the one lost to the short-circuit, or nothing |
| Plugin.ComputeDiffSummary | src/PluginDefinition.cpp:691-711 | "Added: " + (differing pairs + surplus new lines) + ", Removed: " + (differing pairs + surplus old lines - 1 when the old text is longer) |
| Plugin.IdenticalTextsSummary | src/PluginDefinition.cpp:691-711 | two identical texts give "Added: 0, Removed: 0" |
| Plugin.AcceptedNumberText | src/PluginDefinition.cpp:725-731 | a taken name is "commit_" + a non-empty text + ".txt", and the number text is that text |
| Plugin.AcceptedNameForm | src/PluginDefinition.cpp:725-731 | every name "commit_" + non-empty text + ".txt" is taken with that text (the converse) |
| Plugin.CommitFileNameAccepted | src/PluginDefinition.cpp:725-732 | the name the plugin writes for commit n is taken and reads back as n |
| Plugin.Find | src/PluginDefinition.cpp:493-495 | std::wstring::find gives the first occurrence at or after the start, or none when there is none |
| Plugin.ViewedNumberText | src/PluginDefinition.cpp:493-497 | a text is cut out exactly when "commit_" occurs and a ".txt" occurs at or after its first occurrence; the text is what lies between the first "commit_" and the first ".txt" from there |
| Plugin.NoSuffixInPrefix | src/PluginDefinition.cpp:495-497 | the ".txt" found from a "commit_" lies after it, so the length `pos2 - (pos1 + 7)` never wraps around |
| Plugin.ViewedText | src/PluginDefinition.cpp:493-497 | a path made of a folder without "commit_", then "commit_", a text without '.', and ".txt" yields exactly that text |
| Plugin.ViewedCommitFile | src/PluginDefinition.cpp:493-498 | the path of commit n's file in such a folder leads the dialog to commit n |
| Plugin.ReplayStep | src/PluginDefinition.cpp:724-745 | one loop round keeps stored heights positive |
| Plugin.ReplayTree | src/PluginDefinition.cpp:722-750 | the replayed tree keeps stored heights positive |
| Replay.InitializeCommitTree | src/PluginDefinition.cpp:715-753 | with the numbers in listing order never going down, and none below the versions of the tree already loaded: the loop calls insertNode for every taken name, the counter becomes the largest number read (from 0) plus 1, and the tree read at the counter's version (or the loaded tree's, if later) is the replay of the listing into the loaded tree; no existing node changes |
| Plugin.MaxOr0Bounds | src/PluginDefinition.cpp:719-748 | maxCommit ends at least 0, at least every number read, and equal to 0 or to one of them |
| Plugin.ReplayCounterBounds | src/PluginDefinition.cpp:747-752 | after replay the counter is 1, or one more than a number read, and above every number read |
| Plugin.ReplayKeepsInvariant | src/PluginDefinition.cpp:722-750 | replay into an AVL ordered tree keeps it AVL and ordered, and adds exactly the entries of the taken names |
| Plugin.ReplayStepKeeps | src/PluginDefinition.cpp:745 | one round keeps the tree AVL and ordered and adds its name's entry |
| Plugin.SurvivingMembers | src/PluginDefinition.cpp:429-432 | a name survives the deletion loop exactly when it was listed and is not the name of a commit strictly between the bounds |
| Plugin.DeletedCommitFile | src/PluginDefinition.cpp:429-430 | the name of commit n is deleted exactly when rollbackCommit < n < counter |
| Plugin.DeletedStep | src/PluginDefinition.cpp:429-432 | one more round deletes exactly the name of commit i in addition |
| Plugin.RemoveNext | src/PluginDefinition.cpp:429-432 | removing the name of commit i from the survivors widens the deleted range by one |
| Plugin.SurvivingAll | src/PluginDefinition.cpp:429 | with no number between the bounds, nothing is deleted |
| Plugin.DeleteNewerCommits | src/PluginDefinition.cpp:429-441 | the deletion loop leaves exactly the surviving names, in listing order |
| Plugin.RollbackAsWritten | src/PluginDefinition.cpp:423-447 | deletes the newer names, sets the counter to rollbackCommit + 1, then replays the survivors into the tree still loaded, which sets the counter again |
| Replay.SurvivingAscending | src/PluginDefinition.cpp:429-441 | deleting names keeps the remaining numbers in listing order |
| Replay.Rollback | src/PluginDefinition.cpp:584-585 | the corrected rollback, for a listing whose numbers never go down: deletes the newer names, and the heap tree rebuilt from empty, read at the new counter's version, is the replay of the surviving names alone |
| Plugin.RollbackCounter | src/PluginDefinition.cpp:444-452 | in a folder the plugin wrote that still holds the viewed commit, the replay's counter equals the rollbackCommit + 1 the code sets before it |
| Plugin.RollbackLoadsSurvivors | src/PluginDefinition.cpp:446 | the corrected rollback's tree holds exactly the survivors' entries, and in a folder the plugin wrote no key above the viewed commit |
| Plugin.StaleCommitAfterRollback | src/PluginDefinition.cpp:423-447 | commits 1 to 3 rolled back to 1: commit 2's entry is still in the tree, though no surviving name reads as 2 |

## Left out

- User interface: the dialogs, list views, message boxes and editor calls around these functions are not modelled.
- File-system work is not modelled: reading and writing files, `_wremove`, and the configuration file. The folder is the sequence of `.txt` names that `GetTextFiles` would return. Deleting a commit removes its `.txt` name from that sequence. The `.diff` and `.msg` deletions are not modelled, because a later replay never lists those files.
- The contents of a commit's `.diff` and `.msg` files are the parameters `diffOf` and `msgOf`. `ReadFileAsString` and the narrow-to-wide string conversions are not modelled.
- `computeDiffSummary` reads narrow `std::string` texts. Here they are sequences of characters, because the comparison only tests equality.
- `shared_ptr` reference counting and deallocation are not modelled. Nodes are ordinary heap objects.
- CommitNodes.CommitNode: the modification block `mods[MAX_MODS]` is a field of type `seq` that always has length MAX_MODS, not an `array`. In C++ the block is stored inside the node, so it can never be shared or aliased. A field with a value type models that.
- CommitTree.InsertNode: proved only for a tree that, read at the insertion's version, is AVL with exact stored heights. Every tree that insertNode builds from empty with versions that never go down is (AvlSpec.InsertKeepsInvariant, Replay.InitializeCommitTree). On other trees a balance test can hold on the side the key did not go down. The left-right and right-left cases (src/CommitTree.h:228-238) then rotate an old child that was never copied. updateLeft and updateRight (src/CommitTree.h:121-168) append records to that old node in place. Reads below the insertion's version stay as they were (CommitNodes.AppendedRecord), but a root built before the insertion then reads differently at the insertion's version and later, so earlier roots no longer keep their trees. When that child lacks the pivot, the rotation returns null and the subtree is lost. None of this is modelled.
- CommitTree.InsertNode: its contract states that the returned root is fresh and that the set N of nodes it creates is disjoint from the nodes it was given. It does not state that every member of N is fresh.
- CommitTree.SearchCommit, CommitTree.GetSuccessor, CommitTree.GetPredecessor: they are stated for the tree read at the query's version. The ghost map M must record every reachable node's fields at that version. Reading an older version from the latest root is not modelled, because the plugin queries only at `g_commitCounter - 1`.
- Replay.InitializeCommitTree: requires that the numbers read never go down in listing order, and that none lies below the versions of the tree already loaded. insertNode stamps every record with the commit number as version (src/CommitTree.h:202) and copies the root as of that version (src/CommitTree.h:207), so a smaller number inserted after a larger one copies nodes without the newer records. `GetTextFiles` (src/PluginDefinition.cpp:153-172) lists the folder in the order `FindFirstFile` and `FindNextFile` return, which is usually name order: commit_10.txt comes before commit_2.txt. On such listings the program loses commits: with commits 1 to 10, commit 10 is not reachable at version 10. What the program then builds is not modelled.
- Replay.Rollback: requires that the numbers of the listing never go down, for the same reason as Replay.InitializeCommitTree.
- Plugin.ReplayStep: one round on the value `Tree`, with no versions. It is what the program's insertion does when versions do not go down (Replay.InitializeCommitTree proves the heap loop equal to its fold), and not otherwise.
- Plugin.ReplayTree: the replay specification on `Tree` values. It equals the program's tree read at the counter's version only under the order condition of Replay.InitializeCommitTree.
- Plugin.ReplayKeepsInvariant: a fact about the replay specification. It holds of the program's tree through Replay.InitializeCommitTree, whose precondition requires the numbers not to go down; for other listings the program's tree can miss entries.
- Plugin.ReplayStepKeeps: the same limit as Plugin.ReplayKeepsInvariant, for one round.
- Plugin.RollbackLoadsSurvivors: a fact about the replay specification from an empty tree. It holds of the program's tree through Replay.Rollback, whose precondition requires the listing's numbers not to go down.
- Plugin.RollbackAsWritten: the tree still loaded is replayed into as a `Tree` value. The program re-inserts commits 1 to rollbackCommit at versions below the records the loaded tree already has, and each root copy (src/CommitTree.h:207) hides those newer records. So the program's tree differs from this value: with commits 1 and 2 rolled back to 1, read at version 1, it holds commit 1 twice and commit 2 is not reachable. The model claims only Plugin.StaleCommitAfterRollback about this path.
- Plugin.Atoi: `_wtoi`'s 32-bit overflow behaviour is not modelled, and neither is `std::to_wstring`'s `int` range. Numbers are unbounded.
- Plugin.DeleteNewerCommits: the 32-bit wrap-around of `i` and of `rollbackCommit + 1` is not modelled.

## Findings

| source | as written | input that shows it | evidently intended | confidence | as-written member | corrected member |
|---|---|---|---|---|---|---|
| src/PluginDefinition.cpp:444-447 | the rollback replays the folder into the `g_commitTree` that is still loaded. The tree is not reset, so deleted commits can stay reachable while older records are hidden | folder with commit_1.txt, commit_2.txt and commit_3.txt; view commit 1 and roll back. Commit 2 is still in the tree, so getSuccessor(1) at version 1 (line 405) still leads to the deleted commit 2 | the comment at line 446 says only the remaining commits will be loaded. The tree should be emptied first, as `setRepoLocation` does at lines 584-585 | not executed | Plugin.RollbackAsWritten, Plugin.StaleCommitAfterRollback | Replay.Rollback, Plugin.RollbackLoadsSurvivors |
