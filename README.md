# Red-dot manager, modelled in Dafny

The red-dot manager is the badge system of a Unity game client. It keeps two
dictionaries:

- `m_nodes` is the store of notification nodes. Each node sits under the hash
  of its slash-delimited path (`"bag/items/sword"`). A node is created lazily,
  together with every missing ancestor, root first. A path whose last `/` is
  at index 0 cannot be created.
- `m_opMap` is the observer registry. It maps the instance ID of a bound UI
  object to that object's observer record. It also maps a node hash to the
  head of the chain of records observing that node. The chains are intrusive
  linked lists (`ListLinker`).

The public operations are:

- node operations: `Set`, `Clear`, `Erase`, `IsVisible`, `SetAlwaysHide`;
- registry operations: `RegisterObject`, `RemoveObject`, `RemoveObjects`,
  `ClearObjects`, `UpdateObjects`;
- `Reset`, and the node callback `OnNotification`.

The project is split into six modules:

- `Wrappers` (wrappers.dfy) holds the `Option` type, which stands for a
  nullable value.
- `PathIndex` (path_index.dfy) holds the path helpers: last separator, parent
  and ancestry. It also holds `PathKey`, an injective stand-in for the path
  hash.
- `NodeStore` (node_store.dfy) specifies lazy creation on values. `Build`
  gives the paths a creation inserts, or failure. It proves when creation
  fails and that creation keeps the store well formed.
- `OpChains` (op_chains.dfy) models observer chains as sequences and the
  dictionary as a `Table` of heads plus chains. It holds the unlink, add and
  remove operations on one node hash.
- `Registry` (registry.dfy) models the whole of `m_opMap` as a value, with its
  invariant `Ok`. Registering, unregistering and dropping a node's observers
  are functions here, each proved to keep the invariant.
- `RedDot` (red_dot.dfy) is the manager itself. It is a class with fields
  `nodes`, `opMap` and `chains`, and one method per C# method. The registry
  methods are proved against the `Registry` and `OpChains` functions. For
  example, `RemoveObjects` ends in the state
  `DropHash(old(RegState()), PathKey(path))`. The node methods are proved
  against `NodeStore`: they state which paths a call inserts (`Extends`,
  `Declared`), and which nodes keep their fields. Every node method keeps
  the node tree linked (`TreeLinked`): a node whose path has a parent path
  points to that path's node and is among its children, and a node without
  one has no parent. The creating methods (`AddNodeInternal`, `CreateNode`,
  `LinkParent`, `StoreNode`, `GetNode`, `AddNode`) compare a snapshot of
  every stored node before and after (`Views`): each keeps its count,
  visibility, parent and `NotifyParent` (but for the node being declared)
  and only gains children, at the end (`Grown`). The methods that change a
  node's count or visibility (`Set`, `IncreaseNotificationCount`,
  `ShowNotification` and the others) state the same of the links only
  (`Relinked`) and leave counts and visibility free, because what a node
  does with its own count is not part of this model.

## Model

| member | source | states |
|---|---|---|
| RedDot.CallerName | Assets/Scripts/RedDotManager/RedDotManager.cs:615-618 | a present, non-empty caller name is kept; a missing or empty one becomes `__DEFAULT_CALLER__`; the result is never empty |
| RedDot.DisplaySerial.Next | Assets/Scripts/RedDotManager/RedDotManager.cs:544-547 | the serial is pre-incremented: the call returns the old value plus one, and that is the new value |
| RedDot.RedDotManager.constructor | Assets/Scripts/RedDotManager/RedDotManager.cs:37-40 | a new manager has no nodes and no observers, and satisfies the invariant |
| RedDot.RedDotManager.GetNodeByHash | Assets/Scripts/RedDotManager/RedDotManager.cs:300-308 | the result is non-null exactly when the hash is stored, and is then the stored node |
| RedDot.RedDotManager.StoredPath | Assets/Scripts/RedDotManager/RedDotManager.cs:573-582 | the node found under a path's hash has that very path, which does not start with `/`, and all its ancestors are stored |
| RedDot.RedDotManager.AddNodeInternal | Assets/Scripts/RedDotManager/RedDotManager.cs:573-613 | null exactly for a path starting with `/`, and then nothing changes; an existing node is returned with only `NotifyParent` changed (set when the argument is >= 0), and every other node is unchanged; otherwise the missing ancestry is inserted root first (`Extends`), the new node is fresh, is stored under the path's hash, has its parent's node as `Parent` and is among that node's children; the store stays well formed and only grows; every node stored before keeps its count, visibility and parent, only gains children, and keeps `NotifyParent` unless it is the path's own node (`Grown`); the node tree stays linked |
| RedDot.RedDotManager.Renotify | Assets/Scripts/RedDotManager/RedDotManager.cs:575-582 | the existing node's `NotifyParent` is set when the argument is >= 0 and kept otherwise; every stored node keeps its count, visibility and parent and loses no children, every other node keeps its `NotifyParent`, and the node tree stays linked |
| RedDot.RedDotManager.CreateNode | Assets/Scripts/RedDotManager/RedDotManager.cs:585-612 | for an absent path: fails exactly when the path starts with `/`, storing nothing; otherwise the parent chain is created first, and a fresh node holding the path, with the `NotifyParent` asked for, is linked under its parent (both directions) and stored; every node stored before keeps its count, visibility, parent and `NotifyParent` and only gains children; the node tree stays linked |
| RedDot.RedDotManager.NewNode | Assets/Scripts/RedDotManager/RedDotManager.cs:590-594 | the node is fresh, holds the path, has no parent and no children, and has `NotifyParent` set when the argument is >= 0 |
| RedDot.RedDotManager.LinkParent | Assets/Scripts/RedDotManager/RedDotManager.cs:596-607 | the parent is null exactly for a path starting with `/`, and then nothing changes; otherwise the parent's node is stored with its ancestry (`Extends`), and the child points to it and is among its children; the child keeps its `NotifyParent`; every node stored before keeps its count, visibility, parent and `NotifyParent` and only gains children; the node tree stays linked |
| RedDot.RedDotManager.AdoptChild | Assets/Scripts/RedDotManager/RedDotManager.cs:600-602 | `parent.AddChild(node)` for a stored parent and the new node: the child is appended to the parent's children and points to it; every node of the caller's earlier store keeps its count, visibility, parent and `NotifyParent` and only gains children, and the node tree stays linked |
| RedDot.RedDotManager.Unstored | Assets/Scripts/RedDotManager/RedDotManager.cs:590 | the node just made for an absent path is none of the stored nodes |
| RedDot.RedDotManager.StoreNode | Assets/Scripts/RedDotManager/RedDotManager.cs:609 | the node, linked under its parent, is added under its path's hash; the store stays well formed, its paths are the earlier ones extended by the path's ancestry, and no node's fields change; the node tree stays linked |
| RedDot.StoreKeepsTree | Assets/Scripts/RedDotManager/RedDotManager.cs:609 | adding a node linked under its stored parent keeps every stored node linked |
| RedDot.RedDotManager.GetNode | Assets/Scripts/RedDotManager/RedDotManager.cs:285-293 | without autoCreate it is a lookup that changes nothing; with autoCreate it returns null only for a path starting with `/` (and changes nothing), and otherwise the node with its whole ancestry stored; every node stored before keeps its count, visibility, parent and `NotifyParent` and only gains children; the manager's invariant holds; the node tree stays linked |
| RedDot.RedDotManager.Apply | Assets/Scripts/RedDotManager/RedDotManager.cs:358-408 | the call the manager makes on a stored node keeps the manager's invariant and the node tree, and every stored node keeps its links |
| RedDot.RedDotManager.AddNode | Assets/Scripts/RedDotManager/RedDotManager.cs:274-277 | null exactly for a path starting with `/`, and then nothing changes; otherwise the node of the path, with `NotifyParent` set to 1 or 0; an existing node leaves the store and every other node as they were; every other node stored before keeps its count, visibility, parent and `NotifyParent` and only gains children; the node tree stays linked |
| RedDot.RedDotManager.IncreaseNotificationCount | Assets/Scripts/RedDotManager/RedDotManager.cs:358-366 | the node and its ancestry are created when missing (`Declared`), and no stored node is replaced; a path starting with `/` changes nothing; every stored node keeps its parent and `NotifyParent` and only gains children (`Relinked`); the node tree stays linked |
| RedDot.RedDotManager.DecreaseNotificationCount | Assets/Scripts/RedDotManager/RedDotManager.cs:373-381 | may change only the counts and visibility of stored nodes (its frame), so every node keeps its parent, children and `NotifyParent` (`Relinked`) and the node tree stays linked; never creates a node; a path without a node changes nothing |
| RedDot.RedDotManager.Set | Assets/Scripts/RedDotManager/RedDotManager.cs:54-68 | an invalid path, or one starting with `/`, changes nothing; hiding never creates a node, and hiding a path without a node changes nothing; showing a valid path declares its node and ancestry; every stored node keeps its parent and `NotifyParent` and only gains children (`Relinked`); the node tree stays linked |
| RedDot.RedDotManager.ClearNotificationCount | Assets/Scripts/RedDotManager/RedDotManager.cs:388-395 | may change only the counts and visibility of stored nodes (its frame), so every node keeps its parent, children and `NotifyParent` (`Relinked`) and the node tree stays linked; never creates a node; a path without a node changes nothing |
| RedDot.RedDotManager.Clear | Assets/Scripts/RedDotManager/RedDotManager.cs:75-78 | may change only the counts and visibility of stored nodes (its frame), so every node keeps its parent, children and `NotifyParent` (`Relinked`) and the node tree stays linked; never creates a node; a path without a node changes nothing |
| RedDot.RedDotManager.EraseNotificationDisplay | Assets/Scripts/RedDotManager/RedDotManager.cs:401-408 | may change only the counts and visibility of stored nodes (its frame), so every node keeps its parent, children and `NotifyParent` (`Relinked`) and the node tree stays linked; never creates a node; a path without a node changes nothing |
| RedDot.RedDotManager.Erase | Assets/Scripts/RedDotManager/RedDotManager.cs:86-89 | may change only the counts and visibility of stored nodes (its frame), so every node keeps its parent, children and `NotifyParent` (`Relinked`) and the node tree stays linked; never creates a node; a path without a node changes nothing |
| RedDot.RedDotManager.IsVisible | Assets/Scripts/RedDotManager/RedDotManager.cs:96-100 | true exactly when the path's node exists and its badge is visible |
| RedDot.RedDotManager.SetNodeAlwaysHide | Assets/Scripts/RedDotManager/RedDotManager.cs:339-349 | an invalid path, or one starting with `/`, changes nothing; a valid one declares its node and ancestry; every stored node keeps its parent and `NotifyParent` and only gains children (`Relinked`); the node tree stays linked |
| RedDot.RedDotManager.SetAlwaysHide | Assets/Scripts/RedDotManager/RedDotManager.cs:107-110 | an invalid path, or one starting with `/`, changes nothing; a valid one declares its node and ancestry; every stored node keeps its parent and `NotifyParent` and only gains children (`Relinked`); the node tree stays linked |
| RedDot.RedDotManager.ShowNotification | Assets/Scripts/RedDotManager/RedDotManager.cs:316-332 | the node and its ancestry are created when missing, and the store stays well formed; a path starting with `/` changes nothing; every stored node keeps its parent and `NotifyParent` and only gains children (`Relinked`); the node tree stays linked |
| RedDot.RedDotManager.GetNotificationCount | Assets/Scripts/RedDotManager/RedDotManager.cs:415-423 | the count of the path's node, and 0 when there is no node |
| RedDot.RedDotManager.GetNotificationCountByNodeHash | Assets/Scripts/RedDotManager/RedDotManager.cs:430-438 | the count of the node under the hash, and 0 when there is none |
| RedDot.RedDotManager.Reset | Assets/Scripts/RedDotManager/RedDotManager.cs:247-262 | the store ends empty and well formed (clearing and resetting each node is a call to the node, whose internals are not modelled) |
| RedDot.RedDotManager.AddNotificationOPByNodeHash | Assets/Scripts/RedDotManager/RedDotManager.cs:457-483 | the table becomes `AddEntry`: the record heads a new chain, or is appended to an existing one; it then gets exactly one delivery, with the node's path, hash and visibility, or (none, 0, false) when there is no node |
| RedDot.RedDotManager.AddNotificationOP | Assets/Scripts/RedDotManager/RedDotManager.cs:446-449 | the same as AddNotificationOPByNodeHash, under the hash of the path |
| RedDot.RedDotManager.RemoveNotificationOPByNodeHash | Assets/Scripts/RedDotManager/RedDotManager.cs:500-520 | false with nothing changed when the hash has no entry; otherwise the new table is `RemoveEntry`: the record is unlinked, the entry follows the new head, and the key goes only with an empty chain (see Findings) |
| RedDot.RedDotManager.RemoveNotificationOP | Assets/Scripts/RedDotManager/RedDotManager.cs:490-493 | the same as RemoveNotificationOPByNodeHash, under the hash of the path |
| RedDot.RedDotManager.GetNotificationOP | Assets/Scripts/RedDotManager/RedDotManager.cs:527-535 | non-null exactly when the node hash has observers, and then the first record of its chain |
| RedDot.RedDotManager.RegisterObject | Assets/Scripts/RedDotManager/RedDotManager.cs:119-152 | a null object or an invalid path changes nothing; an object already bound to the path's node changes nothing and gets no delivery; otherwise the registry becomes `Register(...)`: the object keeps its record or gets a fresh one, the record carries the new hash and path, it is linked at the end of the node's chain, it gets the node's state, and the invariant holds |
| RedDot.RedDotManager.Retarget | Assets/Scripts/RedDotManager/RedDotManager.cs:136-137 | the record now carries the node hash and path it is moved to |
| RedDot.RedDotManager.Enroll | Assets/Scripts/RedDotManager/RedDotManager.cs:150-151 | the instance ID maps to the record, the record is appended to the chain of the hash, and it gets the node's state |
| RedDot.RedDotManager.Unregister | Assets/Scripts/RedDotManager/RedDotManager.cs:134-135 | the registry becomes `Detach`: the instance ID's key is gone and its record is unlinked from its chain, with the corrected removal (see Findings) |
| RedDot.RedDotManager.RemoveObject | Assets/Scripts/RedDotManager/RedDotManager.cs:195-211 | the object is unregistered exactly when it is non-null, the path is valid and its record is bound to the path's node; otherwise nothing changes; the invariant holds |
| RedDot.RedDotManager.RemoveObjects | Assets/Scripts/RedDotManager/RedDotManager.cs:158-188 | an invalid path changes nothing; otherwise the registry becomes `DropHash`: every object bound to the node is unregistered, the node's key is gone, and the invariant holds |
| RedDot.RedDotManager.DropObjects | Assets/Scripts/RedDotManager/RedDotManager.cs:163-187 | the two walks together leave exactly `DropHash` of the old registry |
| RedDot.RedDotManager.BoundRecordsHold | Assets/Scripts/RedDotManager/RedDotManager.cs:165-176 | in a valid registry, the entries whose record carries the hash, and the records of its chain, are exactly the records of the instance IDs bound to the hash |
| RedDot.RedDotManager.UnlinkBound | Assets/Scripts/RedDotManager/RedDotManager.cs:165-181 | the first walk removes the node's chain and key and nothing else, and collects records whose instance IDs are exactly the bound ones |
| RedDot.RedDotManager.SelectBound | Assets/Scripts/RedDotManager/RedDotManager.cs:165-169 | the walk selects only records bound to the hash, and the record of every entry that carries the hash |
| RedDot.RedDotManager.UnlinkEach | Assets/Scripts/RedDotManager/RedDotManager.cs:167-169 | unlinking the selected records one by one leaves the chain `Without` them, and every other key as it was |
| RedDot.RedDotManager.ForgetIds | Assets/Scripts/RedDotManager/RedDotManager.cs:183-187 | the second walk removes exactly the collected records' instance-ID keys |
| RedDot.RedDotManager.ClearObjects | Assets/Scripts/RedDotManager/RedDotManager.cs:216-227 | the dictionary, its chains and its instance IDs end empty, and the invariant holds |
| RedDot.RedDotManager.UnlinkEntries | Assets/Scripts/RedDotManager/RedDotManager.cs:219-225 | unlinking each entry's record from its node's chain keeps the keys consistent |
| RedDot.RedDotManager.UpdateObjects | Assets/Scripts/RedDotManager/RedDotManager.cs:232-242 | every key of the dictionary is visited exactly once, and each visit gives its record a delivery with the record's own path and hash, visible exactly when that node's count is positive |
| RedDot.RedDotManager.OnNotification | Assets/Scripts/RedDotManager/RedDotManager.cs:550-571 | a null node reaches nobody; otherwise every record of the node's chain, head first, gets one delivery with the node's path, hash and the given flag |
| RedDot.Node.AddChild | Assets/Scripts/RedDotManager/RedDotManager.cs:600 | the child is appended to the node's children, and its parent is the node |
| RedDot.Node.IncreaseNotificationCount | Assets/Scripts/RedDotManager/RedDotManager.cs:364 | the node call may change only this node's count and visibility: the store passed in keeps its tree and every node's links |
| RedDot.Node.DecreaseNotificationCount | Assets/Scripts/RedDotManager/RedDotManager.cs:379 | the same, for the decrease |
| RedDot.Node.ClearNotificationCount | Assets/Scripts/RedDotManager/RedDotManager.cs:393 | the same, for clearing the count |
| RedDot.Node.EraseDisplay | Assets/Scripts/RedDotManager/RedDotManager.cs:406 | the same, changing only this node's visibility |
| RedDot.Node.SetAlwaysHide | Assets/Scripts/RedDotManager/RedDotManager.cs:347 | the same, changing only this node's visibility |
| RedDot.Node.Reset | Assets/Scripts/RedDotManager/RedDotManager.cs:256-257 | the same, for a node's reset |
| RedDot.Op.constructor | Assets/Scripts/RedDotManager/RedDotManager.cs:147 | a new record carries the object's instance ID and the node hash |
| PathIndex.LastSlash | Assets/Scripts/RedDotManager/RedDotManager.cs:585 | `LastIndexOf('/')`: -1 when there is no separator, otherwise the index of a `/` with no `/` after it |
| PathIndex.ParentPath | Assets/Scripts/RedDotManager/RedDotManager.cs:597 | the parent path is the prefix before the last separator |
| PathIndex.Ancestry | Assets/Scripts/RedDotManager/RedDotManager.cs:585-606 | the paths the recursive creation visits, root first, ending with the path itself |
| PathIndex.ParentKeepsLeadingSlash | Assets/Scripts/RedDotManager/RedDotManager.cs:585-606 | a parent starts with `/` exactly when its child does |
| PathIndex.PathKey | Assets/Scripts/RedDotManager/RedDotManager.cs:538-541 | stand-in for `GetNodeHash`: the key of a path; collision-freedom is `PathKeyInjective`; the 32-bit hash is not modelled (see Left out) |
| PathIndex.PathKeyInjective | Assets/Scripts/RedDotManager/RedDotManager.cs:538-541 | two different paths never share a node hash |
| PathIndex.AncestorsArePrefixes | Assets/Scripts/RedDotManager/RedDotManager.cs:597 | every ancestor is a prefix of the path and is followed in it by a separator |
| PathIndex.SlashPrefixIsAncestor | Assets/Scripts/RedDotManager/RedDotManager.cs:585-606 | every prefix that ends just before a `/` is an ancestor (for a path without a leading `/`) |
| NodeStore.Build | Assets/Scripts/RedDotManager/RedDotManager.cs:573-613 | the paths one creation inserts: none when the path is stored, otherwise new paths no longer than it, ending with it |
| NodeStore.BuildFailsIffLeadingSlash | Assets/Scripts/RedDotManager/RedDotManager.cs:585-605 | in a well-formed store, creation fails exactly on a path starting with `/` |
| NodeStore.BuildKeepsStore | Assets/Scripts/RedDotManager/RedDotManager.cs:595-612 | a successful creation keeps the store well formed, stores the path under its hash, and keeps every earlier entry |
| NodeStore.BuildStep | Assets/Scripts/RedDotManager/RedDotManager.cs:595-612 | creating the parent and then adding the path under a free hash is the whole creation |
| NodeStore.NoLongerStored | Assets/Scripts/RedDotManager/RedDotManager.cs:595-599 | creating the parent chain of a path stores no path longer than the parent, so the child's own hash stays free |
| NodeStore.AncestorsStored | Assets/Scripts/RedDotManager/RedDotManager.cs:595-612 | in a well-formed store, a stored path has its whole ancestry stored |
| NodeStore.BuildThreeLevels | Assets/Scripts/RedDotManager/RedDotManager.cs:573-613 | creating `a/b/c` in an empty store inserts `a`, `a/b`, `a/b/c` in that order |
| NodeStore.BuildRejectsRootedPath | Assets/Scripts/RedDotManager/RedDotManager.cs:590-593 | creating `/a/b` fails at `/a` and inserts nothing |
| OpChains.Unlink | Assets/Scripts/RedDotManager/RedDotManager.cs:505 | `ListLinker.Remove`: an absent record changes nothing; unlinking the head leaves the rest and returns the second record (if any); unlinking another record keeps the head |
| OpChains.UnlinkTakesOne | Assets/Scripts/RedDotManager/RedDotManager.cs:505 | unlinking a linked record removes exactly one occurrence (as multisets) |
| OpChains.UnlinkNoDup | Assets/Scripts/RedDotManager/RedDotManager.cs:505 | a chain without duplicates stays so, no longer holds the record, and keeps only records it had |
| OpChains.UnlinkKeeps | Assets/Scripts/RedDotManager/RedDotManager.cs:505 | every other record stays linked |
| OpChains.UnlinkSuccessorOfTail | Assets/Scripts/RedDotManager/RedDotManager.cs:505-511 | in a chain without duplicates, there is no successor exactly when the record is the last one |
| OpChains.UnlinkWithout | Assets/Scripts/RedDotManager/RedDotManager.cs:167-169 | unlinking one more record from a chain already without some records leaves the chain without both |
| OpChains.AddEntry | Assets/Scripts/RedDotManager/RedDotManager.cs:457-469 | a missing key gets a one-record chain; an existing key keeps its head and the record goes at the end; other keys are untouched |
| OpChains.RemoveEntry | Assets/Scripts/RedDotManager/RedDotManager.cs:500-520 | no entry: not found and unchanged; otherwise the record leaves the chain, the head entry follows the chain, and the key goes exactly when the chain empties |
| OpChains.RemoveEntryAsWritten | Assets/Scripts/RedDotManager/RedDotManager.cs:500-520 | the same, except that the key goes whenever the unlinked record had no successor |
| OpChains.AsWrittenAgreesOffTheTail | Assets/Scripts/RedDotManager/RedDotManager.cs:505-515 | when the removed record is in its duplicate-free chain and is not the tail of a longer chain, the written condition and the intended one give the same table |
| OpChains.AsWrittenLosesSurvivor | Assets/Scripts/RedDotManager/RedDotManager.cs:505-511 | chain [1, 2] under key 7, removing 2: the written condition drops key 7 although 1 is still linked |
| OpChains.AsWrittenDropsTailRemoval | Assets/Scripts/RedDotManager/RedDotManager.cs:505-511 | for every duplicate-free chain of two or more records, removing the tail drops the key as written, while the corrected removal keeps the former head as the entry |
| Registry.Detach | Assets/Scripts/RedDotManager/RedDotManager.cs:206-209 | unregistering removes the instance ID from the keys and IDs, and keeps the bindings; the record leaves its chain through the corrected removal (see Findings) |
| Registry.Attach | Assets/Scripts/RedDotManager/RedDotManager.cs:150-151 | registering maps the ID to the record, binds it, and appends it to the chain of the hash |
| Registry.Register | Assets/Scripts/RedDotManager/RedDotManager.cs:119-152 | the ID is registered afterwards, with its old record when it had one and the new record otherwise |
| Registry.DetachOk | Assets/Scripts/RedDotManager/RedDotManager.cs:195-211 | unregistering keeps the registry invariant, and the record is left in no chain |
| Registry.AttachOk | Assets/Scripts/RedDotManager/RedDotManager.cs:146-151 | registering a free record under a spare ID, bound to its path's hash, keeps the invariant |
| Registry.RegisterOk | Assets/Scripts/RedDotManager/RedDotManager.cs:119-152 | RegisterObject keeps the registry invariant in all three cases |
| Registry.DropHashOk | Assets/Scripts/RedDotManager/RedDotManager.cs:158-188 | RemoveObjects keeps the invariant, and afterwards nothing is bound to the hash and the hash has no key |
| Registry.EntryBound | Assets/Scripts/RedDotManager/RedDotManager.cs:39-40 | each value of `m_opMap`, under an instance ID or a node hash, is the registered record of an ID bound to the record's hash, linked in that hash's chain |
| Registry.HeadTwice | Assets/Scripts/RedDotManager/RedDotManager.cs:232-242 | a chain head is the value of two different keys, the node hash and its object's ID, so every walk over the dictionary meets it twice |

## Left out

- The internals of the notification node (`UINotificationNode`: counting per caller, visibility, propagation to parents, always-hide) are not part of this model. The stand-in node calls change only that node's own count and visibility. The real node also changes its ancestors (propagation of counts, and `Erase` with `NotifyParent` 2 at Assets/Scripts/RedDotManager/RedDotManager.cs:81-82) and its descendants (`clearChildren`, at Assets/Scripts/RedDotManager/RedDotManager.cs:74 and 256). So the contracts of `Set`, `Clear`, `Erase`, `SetAlwaysHide`, `ShowNotification`, `IncreaseNotificationCount`, `DecreaseNotificationCount`, `ClearNotificationCount`, `EraseNotificationDisplay` and `Reset` let the count and visibility of any stored node change, and state only what the call does to the store and the node links.
- `ListLinker` is not part of this model. A chain is the sequence of its records, head first. `Remove` returns the successor of the record removed, and `AddNext` appends at the end and always succeeds.
- AddNotificationOPByNodeHash: `ret` is always true, because the model's `AddNext` cannot fail, so the no-delivery branch of a failed link is not modelled.
- PathIndex.PathKey: `Animator.StringToHash` is a 32-bit hash and can collide. The model uses an injective key of the path instead, the collision-free hash the manager relies on.
- `GameUtils.IsValidString` is not part of this model. It is a function given to the manager's constructor.
- RedDot.RedDotManager.RegisterObject, RemoveObject, RemoveObjects, AddNotificationOPByNodeHash, AddNotificationOP, RemoveNotificationOPByNodeHash, RemoveNotificationOP, GetNotificationOP, OnNotification, DropObjects, UnlinkBound, UnlinkEach, UnlinkEntries: each requires that instance IDs and node hashes never coincide as keys of `m_opMap`, either as a node hash that is no instance ID or as a key that is a chain head exactly when it is a node hash with a chain. The source shares one dictionary between both kinds of key and does not handle a clash (`Add` would throw).
- RedDot.RedDotManager.RemoveObjects: the source walks `m_opMap` with an enumerator while the walk itself changes the dictionary, and it re-links the removed records through `ListLinker.AddNext`. The model takes the walk over a snapshot of the entries, as a selection followed by unlinking. It collects the removed records in a sequence, so a chain head met under two keys is listed twice and removed twice, which is harmless. What the enumerator does when its dictionary changes, and the re-linking, are not modelled.
- RedDot.RedDotManager.ClearObjects: the source walks `m_opMap` with an enumerator while `RemoveNotificationOPByNodeHash` changes that dictionary (removing or re-pointing a hash entry). On a runtime whose enumerator fails once its dictionary changes, the next `MoveNext` throws and `m_opMap.Clear()` is never reached. The model walks a snapshot of the entries, so every record is unlinked and the dictionary always ends empty. The runtime exception is not modelled.
- RedDot.RedDotManager.ClearObjects and UpdateObjects: the walk order of the dictionary is left open. Any order of the entries is allowed.
- RedDot.RedDotManager.UnlinkEntries: states only that the keys stay consistent. ClearObjects empties the dictionary right after, so the chains it leaves are not described.
- RedDot.DisplaySerial.Next: the `long` counter's overflow is not modelled.
- RedDot.RedDotManager.Unregister, RegisterObject, RemoveObject and Registry.Detach: a record leaves its chain through the corrected `RemoveEntry` (see Findings), which drops the node's key only when the chain empties; the source's own condition, which drops it whenever the record removed was the tail, is modelled by `RemoveEntryAsWritten` only.
- RedDot.RedDotManager.RegisterObject: a new record gets its path through the same `Retarget` step a moved record takes. The constructor already set the same hash.
- `UINotificationNode.ClearNotificationCount` is called without `notify` by ClearNotificationCount and ShowNotification. Its default is not visible here, and it is passed as `None`.
- RedDot.RedDotManager.OnNotification: the branch that drops a record which is not an `IUINotificationOP` is unreachable, because every linked record is an observer record.
- UI callbacks (`op.OnNotification(...)`) are returned as `Delivery` values instead of being called.
- The lookups without creation, `GetNode(path)`, are modelled by `GetNodeByHash(PathKey(path))`. This is what `GetNode` does when `autoCreate` is false.
- Node.AddChild: the rest of `UINotificationNode.AddChild` (re-parenting, notification) is not part of this model.

## Findings

| source | as written | input that shows it | evidently intended | confidence | as-written member | corrected member |
|---|---|---|---|---|---|---|
| Assets/Scripts/RedDotManager/RedDotManager.cs:505-511 | `m_opMap.Remove(nodeHash)` runs whenever `ListLinker.Remove(op)` returns null, that is, whenever the record removed has no successor | chain [1, 2] under node hash 7, remove record 2 (the tail): key 7 is dropped, and record 1 is still linked but no longer reachable through hash 7: `OnNotification` for that node reaches nobody, although record 1 stays the value of its own instance-ID key | drop the key only when the chain is left empty, otherwise keep (or move) the head | not executed; rests on `ListLinker.Remove` returning the successor | OpChains.AsWrittenLosesSurvivor | OpChains.RemoveEntry |
