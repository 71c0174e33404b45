/**
 * The badge ("red dot") manager: a store of notification nodes keyed by the
 * hash of their slash-delimited path, created lazily with their ancestors, and
 * one dictionary that maps both an observer object's instance ID to its
 * observer record and a node hash to the head of that node's observer chain.
 *
 * Collaborators the manager does not own are stand-ins: the path hash
 * (`Animator.StringToHash`) is `PathKey`, the path check
 * (`GameUtils.IsValidString`) is a constructor argument, a Unity object is
 * reduced to its instance ID, and a UI callback is returned as a `Delivery`
 * record instead of being called.
 */
module RedDot {
  import opened Wrappers
  import opened PathIndex
  import opened NodeStore
  import opened OpChains
  import opened Registry

  const DefaultCaller: string := "__DEFAULT_CALLER__"

  /** GetCallerName: a missing or empty caller name stands for the default caller. */
  function CallerName(caller: Option<string>): (r: string)
    ensures r != ""
    ensures caller.Some? && caller.value != "" ==> r == caller.value
    ensures caller.None? || caller.value == "" ==> r == DefaultCaller
  {
    if caller.Some? && caller.value != "" then caller.value else DefaultCaller
  }

  /** A node map seen as the map from node hash to path (paths never change). */
  ghost function PathsOf(nodes: map<int, Node>): (r: map<int, string>)
    ensures r.Keys == nodes.Keys
  {
    map h | h in nodes :: nodes[h].Path
  }

  lemma PathsOfUpdate(nodes: map<int, Node>, h: int, n: Node)
    ensures PathsOf(nodes[h := n]) == PathsOf(nodes)[h := n.Path]
  {
  }

  /** What the manager can see of one node: its count, whether its red dot
      is visible, its parent, whether it notifies it, and its children. */
  datatype View = View(count: int, visible: bool, parent: Node?, notifyParent: int, children: seq<Node>)

  /** The view of each stored node. */
  ghost function Views(nodes: map<int, Node>): (r: map<int, View>)
    reads nodes.Values`NotificationCount, nodes.Values`IsRedDotVisible
    reads nodes.Values`Parent, nodes.Values`NotifyParent, nodes.Values`Children
    ensures r.Keys == nodes.Keys
    ensures forall h :: h in r ==>
      r[h] == View(nodes[h].NotificationCount, nodes[h].IsRedDotVisible, nodes[h].Parent, nodes[h].NotifyParent, nodes[h].Children)
  {
    map h | h in nodes ::
      View(nodes[h].NotificationCount, nodes[h].IsRedDotVisible, nodes[h].Parent, nodes[h].NotifyParent, nodes[h].Children)
  }

  /** From `before` to `after` every node kept its count, its visibility and
      its parent, only gained children (at the end), and kept its
      NotifyParent unless its hash is in `renotified`. */
  predicate Grown(before: map<int, View>, after: map<int, View>, renotified: set<int>)
  {
    && before.Keys == after.Keys
    && forall h :: h in before ==>
         && after[h].count == before[h].count
         && after[h].visible == before[h].visible
         && after[h].parent == before[h].parent
         && before[h].children <= after[h].children
         && (h !in renotified ==> after[h].notifyParent == before[h].notifyParent)
  }

  /** Allowing more nodes a new NotifyParent keeps a growth step. */
  lemma GrownWider(a: map<int, View>, b: map<int, View>, s: set<int>, t: set<int>)
    requires Grown(a, b, s) && s <= t
    ensures Grown(a, b, t)
  {
  }

  lemma GrownTrans(a: map<int, View>, b: map<int, View>, c: map<int, View>)
    requires Grown(a, b, {}) && Grown(b, c, {})
    ensures Grown(a, c, {})
  {
  }

  /** The links part of a growth step, for the operations that also change
      counts and visibility: every node of `before` is still there with the
      same parent and NotifyParent, and it only gained children (at the end). */
  predicate Relinked(before: map<int, View>, after: map<int, View>)
  {
    forall h :: h in before ==>
      && h in after
      && after[h].parent == before[h].parent
      && before[h].children <= after[h].children
      && after[h].notifyParent == before[h].notifyParent
  }

  lemma RelinkedTrans(a: map<int, View>, b: map<int, View>, c: map<int, View>)
    requires Relinked(a, b) && Relinked(b, c)
    ensures Relinked(a, c)
  {
  }

  /** A growth step of the old nodes is a links step of the whole grown store. */
  lemma GrownWithin(a: map<int, View>, before: map<int, Node>, after: map<int, Node>)
    requires Grew(before, after) && Grown(a, Views(before), {})
    ensures Relinked(a, Views(after))
  {
    forall h | h in a
      ensures h in Views(after) && Views(after)[h] == Views(before)[h]
    {
    }
  }

  /** `n` is linked in `nodes` as creation links it: a node whose path has no
      separator has no parent, and any other node points to the node of its
      parent path and is among that node's children. */
  ghost predicate LinkedIn(nodes: map<int, Node>, n: Node)
    reads n`Parent, nodes.Values`Children
  {
    && (LastSlash(n.Path) < 0 ==> n.Parent == null)
    && (LastSlash(n.Path) > 0 ==>
          && PathKey(ParentPath(n.Path)) in nodes
          && n.Parent == nodes[PathKey(ParentPath(n.Path))]
          && n in nodes[PathKey(ParentPath(n.Path))].Children)
  }

  /** Every node of `nodes` is linked in it: the node tree. */
  ghost predicate TreeOk(nodes: map<int, Node>)
    reads nodes.Values`Parent, nodes.Values`Children
  {
    forall h :: h in nodes ==> LinkedIn(nodes, nodes[h])
  }

  /** Storing a linked node under a free hash keeps the tree linked. */
  lemma StoreKeepsTree(nodes: map<int, Node>, n: Node)
    requires TreeOk(nodes) && LinkedIn(nodes, n) && PathKey(n.Path) !in nodes
    ensures TreeOk(nodes[PathKey(n.Path) := n])
  {
    var after := nodes[PathKey(n.Path) := n];
    forall h | h in after
      ensures LinkedIn(after, after[h])
    {
      var m := after[h];
      if LastSlash(m.Path) > 0 {
        assert PathKey(ParentPath(m.Path)) in nodes;
      }
    }
  }

  /** The store only grew: every node that was there is still there. */
  predicate Grew(before: map<int, Node>, after: map<int, Node>)
  {
    forall h :: h in before ==> h in after && after[h] == before[h]
  }

  /** The paths are the old ones with the missing part of the ancestry of
      `path` (root first, `path` last) inserted, and nothing else. */
  ghost predicate Extends(before: map<int, string>, after: map<int, string>, path: string)
  {
    Build(before.Keys, path).Some? && after == Insert(before, Build(before.Keys, path).value)
  }

  /** The node of a path is there with all its ancestors, added as creation
      adds them, or nothing changed when the path starts with the separator. */
  ghost predicate Declared(before: map<int, Node>, after: map<int, Node>, path: string)
  {
    && (HasLeadingSlash(path) ==> after == before)
    && (!HasLeadingSlash(path) ==>
          PathKey(path) in after && AllIn(Ancestry(path), after.Keys) && Extends(PathsOf(before), PathsOf(after), path))
  }

  /** A call the manager makes on one node, with the call's own arguments. */
  datatype NodeCall =
    | Increase(caller: string)
    | Decrease(caller: string)
    | ClearCount(clearChildren: bool, notify: Option<bool>)
    | EraseDisplay
    | AlwaysHide(alwaysHide: bool)

  /** A Unity object, as far as the manager uses it: a stable instance ID. */
  class GameObject {
    const InstanceID: int

    constructor (id: int)
      ensures InstanceID == id
    {
      InstanceID := id;
    }
  }

  /**
   * One notification node. Its counting, visibility and propagation rules are
   * not part of this model: the operations that change them are left free to
   * set this node's count and visibility to anything. The real operations also
   * reach the node's ancestors and descendants; these stand-ins change this
   * node only. The ghost `nodes` they are given is the caller's store, whose
   * tree and links they are proved to keep.
   */
  class Node {
    const Path: string
    const NodeHash: int := PathKey(Path)
    var NotifyParent: int
    var Parent: Node?
    var Children: seq<Node>
    var NotificationCount: int
    var IsRedDotVisible: bool

    constructor (path: string)
      ensures Path == path
      ensures Parent == null && Children == []
    {
      Path := path;
      Parent, Children := null, [];
      NotifyParent, NotificationCount, IsRedDotVisible := *, *, *;
    }

    predicate IsRoot()
      reads this
    {
      Parent == null
    }

    /** Links `child` under this node. */
    method AddChild(child: Node)
      modifies this`Children, child`Parent
      ensures Children == old(Children) + [child] && child.Parent == this
    {
      Children := Children + [child];
      child.Parent := this;
    }

    method IncreaseNotificationCount(caller: string, ghost nodes: map<int, Node>)
      modifies this`NotificationCount, this`IsRedDotVisible
      ensures old(TreeOk(nodes)) ==> TreeOk(nodes)
      ensures Relinked(old(Views(nodes)), Views(nodes))
    {
      NotificationCount, IsRedDotVisible := *, *;
    }

    method DecreaseNotificationCount(caller: string, ghost nodes: map<int, Node>)
      modifies this`NotificationCount, this`IsRedDotVisible
      ensures old(TreeOk(nodes)) ==> TreeOk(nodes)
      ensures Relinked(old(Views(nodes)), Views(nodes))
    {
      NotificationCount, IsRedDotVisible := *, *;
    }

    /** `notify` is None where the caller leaves the node's own default. */
    method ClearNotificationCount(clearChildren: bool, notify: Option<bool>, ghost nodes: map<int, Node>)
      modifies this`NotificationCount, this`IsRedDotVisible
      ensures old(TreeOk(nodes)) ==> TreeOk(nodes)
      ensures Relinked(old(Views(nodes)), Views(nodes))
    {
      NotificationCount, IsRedDotVisible := *, *;
    }

    method EraseDisplay(ghost nodes: map<int, Node>)
      modifies this`IsRedDotVisible
      ensures old(TreeOk(nodes)) ==> TreeOk(nodes)
      ensures Relinked(old(Views(nodes)), Views(nodes))
    {
      IsRedDotVisible := *;
    }

    method SetAlwaysHide(alwaysHide: bool, ghost nodes: map<int, Node>)
      modifies this`IsRedDotVisible
      ensures old(TreeOk(nodes)) ==> TreeOk(nodes)
      ensures Relinked(old(Views(nodes)), Views(nodes))
    {
      IsRedDotVisible := *;
    }

    method Reset(ghost nodes: map<int, Node>)
      modifies this`NotificationCount, this`IsRedDotVisible
      ensures old(TreeOk(nodes)) ==> TreeOk(nodes)
      ensures Relinked(old(Views(nodes)), Views(nodes))
    {
      NotificationCount, IsRedDotVisible := *, *;
    }
  }

  /** An observer record (UINotificationOPRedDot): one bound object and the node it targets. */
  class Op {
    const instanceID: int
    var nodeHash: int
    var path: string

    constructor (hash: int, obj: GameObject)
      ensures instanceID == obj.InstanceID && nodeHash == hash && path == ""
    {
      instanceID, nodeHash, path := obj.InstanceID, hash, "";
    }
  }

  /** Some entry of a non-empty set of dictionary entries: the next one a
      walk over the dictionary visits (the order is the dictionary's own). */
  method PickEntry(entries: set<(int, Op)>) returns (e: (int, Op))
    requires entries != {}
    ensures e in entries
  {
    e :| e in entries;
  }

  /** The instance IDs of the records in `s`. */
  function IdsOf(s: seq<Op>): set<int>
  {
    set o | o in s :: o.instanceID
  }

  lemma IdsOfPrefix(s: seq<Op>, j: int)
    requires 0 <= j < |s|
    ensures IdsOf(s[..j + 1]) == IdsOf(s[..j]) + {s[j].instanceID}
  {
    assert s[..j + 1] == s[..j] + [s[j]];
  }

  /** The records in `s`. */
  function Elems(s: seq<Op>): set<Op>
  {
    set o | o in s
  }

  lemma ElemsPrefix(s: seq<Op>, j: int)
    requires 0 <= j < |s|
    ensures Elems(s[..j + 1]) == Elems(s[..j]) + {s[j]}
  {
    assert s[..j + 1] == s[..j] + [s[j]];
  }

  /** One call of an observer's OnNotification(path, nodeHash, visible). */
  datatype Delivery = Delivery(target: Op, path: Option<string>, nodeHash: int, visible: bool)

  /** The static display serial number and GetDisplaySerialNum. */
  class DisplaySerial {
    var last: int

    constructor ()
      ensures last == 0
    {
      last := 0;
    }

    /** Pre-increments the counter: every call returns more than the call before. */
    method Next() returns (n: int)
      modifies this
      ensures n == old(last) + 1 && last == n
    {
      last := last + 1;
      n := last;
    }
  }

  class RedDotManager {
    const IsValidString: string -> bool
    /** m_nodes: node hash to node. */
    var nodes: map<int, Node>
    /** m_opMap: instance ID to observer record, and node hash to chain head. */
    var opMap: map<int, Op>
    /** The observer chain each node-hash key of `opMap` heads, head first. */
    var chains: map<int, seq<Op>>
    /** The keys of `opMap` that are instance IDs. */
    ghost var ids: set<int>
    /** What each observer record the manager has made holds. */
    ghost var info: map<Op, Binding>

    /** The store as a map from node hash to path. */
    ghost function Paths(): map<int, string>
      reads this`nodes
    {
      PathsOf(nodes)
    }

    ghost predicate NodesValid()
      reads this`nodes
    {
      StoreOk(Paths())
    }

    ghost function OpTable(): Table<int, Op>
      reads this`opMap, this`chains
    {
      Table(opMap, chains)
    }

    /** The observer registry as a value. */
    ghost function RegState(): Reg<Op>
      reads this`opMap, this`chains, this`ids, this`info
    {
      Reg(OpTable(), ids, info)
    }

    /** Every record holds what `info` says it holds. */
    ghost predicate Synced()
      reads this`info, info.Keys
    {
      forall o :: o in info ==>
        o.instanceID == info[o].id && o.nodeHash == info[o].hash && o.path == info[o].path
    }

    /** Every stored node is linked to its parent's node (the node tree). */
    ghost predicate TreeLinked()
      reads this`nodes, nodes.Values`Parent, nodes.Values`Children
    {
      TreeOk(nodes)
    }

    ghost predicate OpsValid()
      reads this`opMap, this`chains, this`ids, this`info, info.Keys
    {
      Ok(RegState()) && Synced()
    }

    ghost predicate Valid()
      reads this, info.Keys
    {
      NodesValid() && OpsValid()
    }

    /** An instance ID and a node hash the dictionary can tell apart: the ID is
        no node-hash key, the hash is no instance-ID key, and they differ. */
    ghost predicate Distinct(id: int, h: int)
      reads this`chains, this`ids
    {
      id !in chains && h !in ids && id != h
    }

    twostate predicate OpsUnchanged()
      reads this`opMap, this`chains, this`ids, this`info
    {
      opMap == old(opMap) && chains == old(chains) && ids == old(ids) && info == old(info)
    }

    constructor (isValidString: string -> bool)
      ensures Valid() && IsValidString == isValidString
      ensures nodes == map[] && opMap == map[] && chains == map[]
    {
      IsValidString := isValidString;
      nodes, opMap, chains := map[], map[], map[];
      ids, info := {}, map[];
      new;
      assert Paths() == map[];
    }

    // ----- node store -----

    /** GetNode(int): the stored node under `nodeHash`, or null. */
    function GetNodeByHash(nodeHash: int): (node: Node?)
      reads this
      ensures node != null <==> nodeHash in nodes
      ensures node != null ==> node == nodes[nodeHash]
    {
      if nodeHash in nodes then nodes[nodeHash] else null
    }

    /** A stored hash holds the path it was hashed from, well formed and with
        all its ancestors stored. */
    lemma StoredPath(path: string)
      requires NodesValid() && PathKey(path) in nodes
      ensures nodes[PathKey(path)].Path == path && !HasLeadingSlash(path)
      ensures AllIn(Ancestry(path), nodes.Keys)
    {
      var stored := Paths()[PathKey(path)];
      assert stored == nodes[PathKey(path)].Path;
      PathKeyInjective(stored, path);
      AncestorsStored(Paths(), path);
    }

    /**
     * AddNodeInternal: an existing node only has its NotifyParent updated (when
     * the argument is not negative); any other path is created, unless its last
     * separator is at index 0.
     */
    method AddNodeInternal(path: string, notifyParent: int) returns (node: Node?)
      requires NodesValid() && TreeLinked()
      modifies this`nodes, nodes.Values
      ensures NodesValid() && TreeLinked() && Grew(old(nodes), nodes)
      ensures node == null <==> HasLeadingSlash(path)
      ensures node == null ==> nodes == old(nodes) && unchanged(nodes.Values)
      ensures PathKey(path) in old(nodes) ==> node == old(nodes[PathKey(path)]) && nodes == old(nodes)
      ensures PathKey(path) in old(nodes) ==>
        node.NotifyParent == if notifyParent >= 0 then notifyParent else old(node.NotifyParent)
      ensures PathKey(path) in old(nodes) ==>
        && unchanged(old(nodes.Values) - {node})
        && node.NotificationCount == old(node.NotificationCount) && node.IsRedDotVisible == old(node.IsRedDotVisible)
        && node.Parent == old(node.Parent) && node.Children == old(node.Children)
      ensures node != null ==> PathKey(path) in nodes && nodes[PathKey(path)] == node && node.Path == path
      ensures node != null ==> Extends(old(Paths()), Paths(), path)
      ensures node != null ==> node in old(nodes.Values) || fresh(node)
      ensures PathKey(path) !in old(nodes) && node != null ==>
        && fresh(node)
        && (notifyParent >= 0 ==> node.NotifyParent == notifyParent)
        && (LastSlash(path) < 0 ==> node.Parent == null)
        && (LastSlash(path) > 0 ==> node.Parent == nodes[PathKey(ParentPath(path))] && node in node.Parent.Children)
      ensures Grown(old(Views(nodes)), Views(old(nodes)), if notifyParent >= 0 then {PathKey(path)} else {})
      decreases |path|, 2
    {
      node := GetNodeByHash(PathKey(path));
      if node != null {
        StoredPath(path);
        Renotify(node, PathKey(path), notifyParent);
        return;
      }

      var pos := LastSlash(path);
      if pos == 0 {
        return null;
      }
      node := CreateNode(path, notifyParent);
      GrownWider(old(Views(nodes)), Views(old(nodes)), {}, if notifyParent >= 0 then {PathKey(path)} else {});
    }

    /** The existing-node branch of AddNodeInternal: only `NotifyParent`
        changes, and only when the argument is not negative. */
    method Renotify(node: Node, key: int, notifyParent: int)
      requires NodesValid() && TreeLinked() && key in nodes && nodes[key] == node
      modifies node`NotifyParent
      ensures node.NotifyParent == if notifyParent >= 0 then notifyParent else old(node.NotifyParent)
      ensures TreeLinked() && Grown(old(Views(nodes)), Views(nodes), if notifyParent >= 0 then {key} else {})
    {
      forall h | h in nodes && nodes[h] == node
        ensures h == key
      {
        assert Paths()[h] == nodes[h].Path && Paths()[key] == nodes[key].Path;
      }
      if notifyParent >= 0 {
        node.NotifyParent := notifyParent;
      }
    }

    /**
     * The creating half of AddNodeInternal: a new node for an absent path is
     * made, its parent chain is added root first, it is linked under its
     * parent and stored; when an ancestor to create has its last separator at
     * index 0 nothing is stored.
     */
    method CreateNode(path: string, notifyParent: int) returns (node: Node?)
      requires NodesValid() && TreeLinked() && PathKey(path) !in nodes && LastSlash(path) != 0
      modifies this`nodes, nodes.Values
      ensures NodesValid() && TreeLinked() && Grew(old(nodes), nodes)
      ensures node == null <==> HasLeadingSlash(path)
      ensures node == null ==> nodes == old(nodes) && unchanged(nodes.Values)
      ensures node != null ==> PathKey(path) in nodes && nodes[PathKey(path)] == node && node.Path == path
      ensures node != null ==> Extends(old(Paths()), Paths(), path)
      ensures node != null ==>
        && fresh(node)
        && (notifyParent >= 0 ==> node.NotifyParent == notifyParent)
        && (LastSlash(path) < 0 ==> node.Parent == null)
        && (LastSlash(path) > 0 ==> node.Parent == nodes[PathKey(ParentPath(path))] && node in node.Parent.Children)
      ensures Grown(old(Views(nodes)), Views(old(nodes)), {})
      decreases |path|, 1
    {
      ghost var before, n0 := Paths(), nodes;
      node := NewNode(path, notifyParent);
      var parent: Node? := null;
      if LastSlash(path) > 0 {
        parent := LinkParent(path, node);
        if parent == null {
          return null;
        }
      }
      ghost var n1 := nodes;
      StoreNode(node, before, n0);
      if parent != null {
        PathKeyInjective(path, ParentPath(path));
        assert n1[PathKey(ParentPath(path))] == nodes[PathKey(ParentPath(path))];
      }
    }

    /** The last step of CreateNode: the new node goes into the store under
        its hash, once its parent chain is there. */
    method StoreNode(node: Node, ghost before: map<int, string>, ghost kept: map<int, Node>)
      requires StoreOk(before) && PathKey(node.Path) !in before && LastSlash(node.Path) != 0
      requires TreeLinked() && LinkedIn(nodes, node)
      requires LastSlash(node.Path) < 0 ==> Paths() == before
      requires LastSlash(node.Path) > 0 ==>
        Build(before.Keys, ParentPath(node.Path)).Some? && Paths() == Insert(before, Build(before.Keys, ParentPath(node.Path)).value)
      modifies this`nodes
      ensures nodes == old(nodes)[PathKey(node.Path) := node] && unchanged(nodes.Values)
      ensures Views(kept) == old(Views(kept))
      ensures NodesValid() && TreeLinked() && Extends(before, Paths(), node.Path)
    {
      BuildStep(before, Paths(), node.Path);
      PathsOfUpdate(nodes, node.NodeHash, node);
      StoreKeepsTree(nodes, node);
      nodes := nodes[node.NodeHash := node];
    }

    /** The middle step of CreateNode: the parent of `path` is added (with
        its own missing ancestry) and `child` is linked under it, or creation
        fails and nothing changes. */
    method LinkParent(path: string, child: Node) returns (parent: Node?)
      requires NodesValid() && TreeLinked() && LastSlash(path) > 0 && child.Path == path && PathKey(path) !in nodes
      modifies this`nodes, nodes.Values, child`Parent
      ensures NodesValid() && TreeLinked() && Grew(old(nodes), nodes)
      ensures parent == null <==> HasLeadingSlash(path)
      ensures parent == null ==> nodes == old(nodes) && unchanged(nodes.Values)
      ensures parent != null ==> PathKey(ParentPath(path)) in nodes && parent == nodes[PathKey(ParentPath(path))]
      ensures parent != null ==> Extends(old(Paths()), Paths(), ParentPath(path))
      ensures parent != null ==> child.Parent == parent && child in parent.Children && LinkedIn(nodes, child)
      ensures child.NotifyParent == old(child.NotifyParent)
      ensures Grown(old(Views(nodes)), Views(old(nodes)), {})
      decreases |path|, 0
    {
      Unstored(child);
      parent := AddNodeInternal(ParentPath(path), -1);
      ParentKeepsLeadingSlash(path);
      if parent != null {
        NoLongerStored(old(Paths()), ParentPath(path), path);
        ghost var mid := Views(old(nodes));
        AdoptChild(parent, child, old(nodes));
        GrownTrans(old(Views(nodes)), mid, Views(old(nodes)));
      }
    }

    /** `parent.AddChild(child)` for a stored parent and an unstored child:
        the other links in the store stay as they were. */
    method AdoptChild(parent: Node, child: Node, ghost kept: map<int, Node>)
      requires NodesValid() && TreeLinked() && parent in nodes.Values && PathKey(child.Path) !in nodes
      requires Grew(kept, nodes)
      modifies parent`Children, child`Parent
      ensures TreeLinked()
      ensures parent.Children == old(parent.Children) + [child] && child.Parent == parent
      ensures Grown(old(Views(kept)), Views(kept), {})
    {
      Unstored(child);
      parent.AddChild(child);
    }

    /** A node whose path's hash is not stored is none of the stored nodes. */
    lemma Unstored(n: Node)
      requires NodesValid() && PathKey(n.Path) !in nodes
      ensures n !in nodes.Values
    {
      forall h | h in nodes
        ensures nodes[h] != n
      {
        assert Paths()[h] == nodes[h].Path;
      }
    }

    /** The node CreateNode makes before it looks for the parent: a fresh,
        unlinked node, with `NotifyParent` set when the argument is not
        negative. */
    method NewNode(path: string, notifyParent: int) returns (node: Node)
      ensures fresh(node) && node.Path == path && node.Parent == null && node.Children == []
      ensures notifyParent >= 0 ==> node.NotifyParent == notifyParent
    {
      node := new Node(path);
      if notifyParent >= 0 {
        node.NotifyParent := notifyParent;
      }
    }

    /** Makes `call` on a stored node: the manager stays valid and every
        stored node keeps its links. (The postcondition is asserted in each
        case, where it follows from that call alone.) */
    method Apply(node: Node, call: NodeCall)
      requires Valid() && TreeLinked() && node in nodes.Values
      modifies node`NotificationCount, node`IsRedDotVisible
      ensures Valid() && TreeLinked() && Relinked(old(Views(nodes)), Views(nodes))
    {
      match call {
        case Increase(caller) => {
          node.IncreaseNotificationCount(caller, nodes);
          assert Valid() && TreeLinked() && Relinked(old(Views(nodes)), Views(nodes));
        }
        case Decrease(caller) => {
          node.DecreaseNotificationCount(caller, nodes);
          assert Valid() && TreeLinked() && Relinked(old(Views(nodes)), Views(nodes));
        }
        case ClearCount(clearChildren, notify) => {
          node.ClearNotificationCount(clearChildren, notify, nodes);
          assert Valid() && TreeLinked() && Relinked(old(Views(nodes)), Views(nodes));
        }
        case EraseDisplay => {
          node.EraseDisplay(nodes);
          assert Valid() && TreeLinked() && Relinked(old(Views(nodes)), Views(nodes));
        }
        case AlwaysHide(alwaysHide) => {
          node.SetAlwaysHide(alwaysHide, nodes);
          assert Valid() && TreeLinked() && Relinked(old(Views(nodes)), Views(nodes));
        }
      }
    }

    /** GetNode(path, autoCreate): a lookup that creates the node (with
        NotifyParent left as it is) only when asked to. */
    method GetNode(path: string, autoCreate: bool) returns (node: Node?)
      requires Valid() && TreeLinked()
      modifies this`nodes, nodes.Values
      ensures Valid() && TreeLinked() && Grew(old(nodes), nodes)
      ensures !autoCreate || PathKey(path) in old(nodes) ==> nodes == old(nodes) && unchanged(nodes.Values)
      ensures !autoCreate ==> (node != null <==> PathKey(path) in nodes)
      ensures autoCreate ==> (node == null <==> HasLeadingSlash(path))
      ensures node != null ==> PathKey(path) in nodes && nodes[PathKey(path)] == node
      ensures node == null ==> nodes == old(nodes) && unchanged(nodes.Values)
      ensures node != null ==> node in old(nodes.Values) || fresh(node)
      ensures autoCreate && node != null ==> AllIn(Ancestry(path), nodes.Keys) && Extends(old(Paths()), Paths(), path)
      ensures Grown(old(Views(nodes)), Views(old(nodes)), {})
    {
      node := GetNodeByHash(PathKey(path));
      if node != null {
        StoredPath(path);
        return;
      }
      if !autoCreate {
        return;
      }
      node := AddNodeInternal(path, -1);
      if node != null {
        StoredPath(path);
      }
    }

    /** AddNode: declares a node and fixes whether it notifies its parent. */
    method AddNode(path: string, notifyParent: bool) returns (node: Node?)
      requires Valid() && TreeLinked()
      modifies this`nodes, nodes.Values
      ensures Valid() && TreeLinked() && Grew(old(nodes), nodes)
      ensures node == null <==> HasLeadingSlash(path)
      ensures node != null ==> PathKey(path) in nodes && nodes[PathKey(path)] == node && node.NotifyParent == if notifyParent then 1 else 0
      ensures node == null ==> nodes == old(nodes) && unchanged(nodes.Values)
      ensures PathKey(path) in old(nodes) ==> nodes == old(nodes) && unchanged(old(nodes.Values) - {node})
      ensures Grown(old(Views(nodes)), Views(old(nodes)), {PathKey(path)})
    {
      node := AddNodeInternal(path, if notifyParent then 1 else 0);
    }

    /** IncreaseNotificationCount: the node is created when missing, and is
        counted under the caller's name. */
    method IncreaseNotificationCount(path: string, caller: Option<string>)
      requires Valid() && TreeLinked()
      modifies this`nodes, nodes.Values
      ensures Valid() && TreeLinked() && Grew(old(nodes), nodes) && Declared(old(nodes), nodes, path)
      ensures HasLeadingSlash(path) ==> unchanged(nodes.Values)
      ensures Relinked(old(Views(nodes)), Views(nodes))
    {
      var name := CallerName(caller);
      var node := GetNode(path, true);
      ghost var mid := Views(nodes);
      GrownWithin(old(Views(nodes)), old(nodes), nodes);
      if node != null {
        Apply(node, Increase(name));
        RelinkedTrans(old(Views(nodes)), mid, Views(nodes));
      }
    }

    /** DecreaseNotificationCount: looks the node up without creating it. */
    method DecreaseNotificationCount(path: string, caller: Option<string>)
      requires Valid() && TreeLinked()
      modifies nodes.Values`NotificationCount, nodes.Values`IsRedDotVisible
      ensures Valid() && TreeLinked() && Relinked(old(Views(nodes)), Views(nodes))
      ensures PathKey(path) !in nodes ==> unchanged(nodes.Values)
    {
      var name := CallerName(caller);
      var node := GetNodeByHash(PathKey(path));
      if node != null {
        Apply(node, Decrease(name));
      }
    }

    /** Set: an invalid path changes nothing; otherwise a visible badge counts
        the caller in (creating the node), a hidden one counts it out. */
    method Set(path: string, visible: bool, caller: Option<string>)
      requires Valid() && TreeLinked()
      modifies this`nodes, nodes.Values
      ensures Valid() && TreeLinked() && Grew(old(nodes), nodes)
      ensures !IsValidString(path) ==> nodes == old(nodes) && unchanged(nodes.Values)
      ensures !visible ==> nodes == old(nodes)
      ensures !visible && PathKey(path) !in old(nodes) ==> unchanged(nodes.Values)
      ensures visible && IsValidString(path) ==> Declared(old(nodes), nodes, path)
      ensures HasLeadingSlash(path) ==> nodes == old(nodes) && unchanged(nodes.Values)
      ensures Relinked(old(Views(nodes)), Views(nodes))
    {
      if !IsValidString(path) {
        return;
      }
      if visible {
        IncreaseNotificationCount(path, caller);
      } else {
        if PathKey(path) in nodes {
          StoredPath(path);
        }
        DecreaseNotificationCount(path, caller);
      }
    }

    /** ClearNotificationCount: clears an existing node's count, never creates one. */
    method ClearNotificationCount(path: string, clearChildren: bool)
      requires Valid() && TreeLinked()
      modifies nodes.Values`NotificationCount, nodes.Values`IsRedDotVisible
      ensures Valid() && TreeLinked() && Relinked(old(Views(nodes)), Views(nodes))
      ensures PathKey(path) !in nodes ==> unchanged(nodes.Values)
    {
      var node := GetNodeByHash(PathKey(path));
      if node != null {
        Apply(node, ClearCount(clearChildren, None));
      }
    }

    /** Clear: ClearNotificationCount. */
    method Clear(path: string, clearChildren: bool)
      requires Valid() && TreeLinked()
      modifies nodes.Values`NotificationCount, nodes.Values`IsRedDotVisible
      ensures Valid() && TreeLinked() && Relinked(old(Views(nodes)), Views(nodes))
      ensures PathKey(path) !in nodes ==> unchanged(nodes.Values)
    {
      ClearNotificationCount(path, clearChildren);
    }

    /** EraseNotificationDisplay: hides an existing node's badge, never creates one. */
    method EraseNotificationDisplay(path: string)
      requires Valid() && TreeLinked()
      modifies nodes.Values`NotificationCount, nodes.Values`IsRedDotVisible
      ensures Valid() && TreeLinked() && Relinked(old(Views(nodes)), Views(nodes))
      ensures PathKey(path) !in nodes ==> unchanged(nodes.Values)
    {
      var node := GetNodeByHash(PathKey(path));
      if node != null {
        Apply(node, EraseDisplay);
      }
    }

    /** Erase: EraseNotificationDisplay. */
    method Erase(path: string)
      requires Valid() && TreeLinked()
      modifies nodes.Values`NotificationCount, nodes.Values`IsRedDotVisible
      ensures Valid() && TreeLinked() && Relinked(old(Views(nodes)), Views(nodes))
      ensures PathKey(path) !in nodes ==> unchanged(nodes.Values)
    {
      EraseNotificationDisplay(path);
    }

    /** IsVisible: the node's visibility, and false for a path with no node. */
    method IsVisible(path: string) returns (visible: bool)
      ensures visible <==> PathKey(path) in nodes && nodes[PathKey(path)].IsRedDotVisible
    {
      var node := GetNodeByHash(PathKey(path));
      visible := if node != null then node.IsRedDotVisible else false;
    }

    /** SetNodeAlwaysHide: an invalid path changes nothing; otherwise the node
        is created when missing and its always-hide flag set. */
    method SetNodeAlwaysHide(path: string, alwaysHide: bool)
      requires Valid() && TreeLinked()
      modifies this`nodes, nodes.Values
      ensures Valid() && TreeLinked() && Grew(old(nodes), nodes)
      ensures !IsValidString(path) ==> nodes == old(nodes) && unchanged(nodes.Values)
      ensures IsValidString(path) ==> Declared(old(nodes), nodes, path)
      ensures HasLeadingSlash(path) ==> nodes == old(nodes) && unchanged(nodes.Values)
      ensures Relinked(old(Views(nodes)), Views(nodes))
    {
      if !IsValidString(path) {
        return;
      }
      var node := GetNode(path, true);
      ghost var mid := Views(nodes);
      GrownWithin(old(Views(nodes)), old(nodes), nodes);
      if node != null {
        Apply(node, AlwaysHide(alwaysHide));
        RelinkedTrans(old(Views(nodes)), mid, Views(nodes));
      }
    }

    /** SetAlwaysHide: SetNodeAlwaysHide. */
    method SetAlwaysHide(path: string, alwaysHide: bool)
      requires Valid() && TreeLinked()
      modifies this`nodes, nodes.Values
      ensures Valid() && TreeLinked() && Grew(old(nodes), nodes)
      ensures !IsValidString(path) ==> nodes == old(nodes) && unchanged(nodes.Values)
      ensures IsValidString(path) ==> Declared(old(nodes), nodes, path)
      ensures HasLeadingSlash(path) ==> nodes == old(nodes) && unchanged(nodes.Values)
      ensures Relinked(old(Views(nodes)), Views(nodes))
    {
      SetNodeAlwaysHide(path, alwaysHide);
    }

    /** ShowNotification: the node is created when missing; showing counts the
        default caller in, hiding clears the node's own count. */
    method ShowNotification(path: string, show: bool)
      requires Valid() && TreeLinked()
      modifies this`nodes, nodes.Values
      ensures Valid() && TreeLinked() && Grew(old(nodes), nodes) && Declared(old(nodes), nodes, path)
      ensures HasLeadingSlash(path) ==> unchanged(nodes.Values)
      ensures Relinked(old(Views(nodes)), Views(nodes))
    {
      var node := GetNode(path, true);
      ghost var mid := Views(nodes);
      GrownWithin(old(Views(nodes)), old(nodes), nodes);
      if node == null {
        return;
      }
      Apply(node, if show then Increase(DefaultCaller) else ClearCount(false, None));
      RelinkedTrans(old(Views(nodes)), mid, Views(nodes));
    }

    /** GetNotificationCount: the node's count, and 0 for a path with no node. */
    method GetNotificationCount(path: string) returns (count: int)
      ensures count == if PathKey(path) in nodes then nodes[PathKey(path)].NotificationCount else 0
    {
      var node := GetNodeByHash(PathKey(path));
      count := if node != null then node.NotificationCount else 0;
    }

    /** GetNotificationCountByNodeHash: the count of the node stored under the
        hash, and 0 when there is none. */
    method GetNotificationCountByNodeHash(nodeHash: int) returns (count: int)
      ensures count == if nodeHash in nodes then nodes[nodeHash].NotificationCount else 0
    {
      var node := GetNodeByHash(nodeHash);
      count := if node != null then node.NotificationCount else 0;
    }

    /**
     * Reset: every root node clears its whole subtree's count without
     * notifying, every node is reset, and the store is emptied.
     */
    method Reset()
      requires Valid() && TreeLinked()
      modifies this`nodes, nodes.Values
      ensures Valid() && TreeLinked() && nodes == map[]
    {
      var todo := nodes.Values;
      while todo != {}
        invariant todo <= old(nodes.Values) && nodes == old(nodes)
        decreases todo
      {
        var node :| node in todo;
        if node.IsRoot() {
          node.ClearNotificationCount(true, Some(false), nodes);
        }
        node.Reset(nodes);
        todo := todo - {node};
      }
      nodes := map[];
      assert Paths() == map[];
    }

    // ----- observer chains -----

    /** The delivery AddNotificationOPByNodeHash makes to `op`: the node's path,
        hash and visibility when the node exists, else no path, 0 and false. */
    ghost function Greeting(op: Op, nodeHash: int): Delivery
      reads this`nodes, nodes.Values
    {
      if nodeHash in nodes
      then Delivery(op, Some(nodes[nodeHash].Path), nodes[nodeHash].NodeHash, nodes[nodeHash].IsRedDotVisible)
      else Delivery(op, None, 0, false)
    }

    /**
     * AddNotificationOPByNodeHash: `op` heads the chain of a hash without an
     * entry and is linked at the end of an existing chain otherwise; it is then
     * told the node's state once.
     */
    method AddNotificationOPByNodeHash(nodeHash: int, op: Op) returns (ret: bool, d: Delivery)
      requires HeadsMatch(OpTable()) && (nodeHash in opMap <==> nodeHash in chains)
      modifies this`opMap, this`chains
      ensures ret
      ensures OpTable() == AddEntry(old(OpTable()), nodeHash, op)
      ensures d == Greeting(op, nodeHash)
    {
      if nodeHash in opMap {
        chains := chains[nodeHash := chains[nodeHash] + [op]];
      } else {
        opMap := opMap[nodeHash := op];
        chains := chains[nodeHash := [op]];
      }
      ret := true;
      var node := GetNodeByHash(nodeHash);
      if node != null {
        d := Delivery(op, Some(node.Path), node.NodeHash, node.IsRedDotVisible);
      } else {
        d := Delivery(op, None, 0, false);
      }
    }

    /**
     * RemoveNotificationOPByNodeHash: a hash without an entry reports false;
     * otherwise `op` is unlinked, the entry follows the chain's new head and is
     * dropped once the chain is empty (see `RemoveEntryAsWritten` for the
     * condition as the source writes it).
     */
    method RemoveNotificationOPByNodeHash(nodeHash: int, op: Op) returns (found: bool)
      requires HeadsMatch(OpTable()) && (nodeHash in opMap <==> nodeHash in chains)
      modifies this`opMap, this`chains
      ensures Removal(found, OpTable()) == RemoveEntry(old(OpTable()), nodeHash, op)
    {
      if nodeHash in opMap {
        var root := opMap[nodeHash];
        var u := Unlink(chains[nodeHash], op);
        if u.rest == [] {
          opMap, chains := opMap - {nodeHash}, chains - {nodeHash};
        } else {
          if root == op {
            opMap := opMap[nodeHash := u.next.value];
          }
          chains := chains[nodeHash := u.rest];
        }
        found := true;
      } else {
        found := false;
      }
    }

    /** AddNotificationOP: AddNotificationOPByNodeHash under the hash of `path`. */
    method AddNotificationOP(path: string, op: Op) returns (ret: bool, d: Delivery)
      requires HeadsMatch(OpTable()) && (PathKey(path) in opMap <==> PathKey(path) in chains)
      modifies this`opMap, this`chains
      ensures ret
      ensures OpTable() == AddEntry(old(OpTable()), PathKey(path), op)
      ensures d == Greeting(op, PathKey(path))
    {
      ret, d := AddNotificationOPByNodeHash(PathKey(path), op);
    }

    /** RemoveNotificationOP: RemoveNotificationOPByNodeHash under the hash of `path`. */
    method RemoveNotificationOP(path: string, op: Op) returns (found: bool)
      requires HeadsMatch(OpTable()) && (PathKey(path) in opMap <==> PathKey(path) in chains)
      modifies this`opMap, this`chains
      ensures Removal(found, OpTable()) == RemoveEntry(old(OpTable()), PathKey(path), op)
    {
      found := RemoveNotificationOPByNodeHash(PathKey(path), op);
    }

    /** GetNotificationOP: the head of the chain of `nodeHash`, or null. */
    method GetNotificationOP(nodeHash: int) returns (root: Op?)
      requires Valid() && nodeHash !in ids
      ensures root != null <==> nodeHash in chains
      ensures root != null ==> root == chains[nodeHash][0]
    {
      root := if nodeHash in opMap then opMap[nodeHash] else null;
    }

    // ----- registration -----

    /**
     * RegisterObject: a missing object or an invalid path changes nothing; an
     * object already bound to the path's node changes nothing; otherwise the
     * object's record (the one it has, or a new one) is bound to the node,
     * linked at the end of its chain and told the node's state.
     */
    method RegisterObject(path: string, obj: GameObject?) returns (d: Option<Delivery>)
      requires NodesValid() && OpsValid()
      requires obj != null ==> Distinct(obj.InstanceID, PathKey(path))
      modifies this`opMap, this`chains, this`ids, this`info, opMap.Values
      ensures OpsValid()
      ensures obj == null || !IsValidString(path) ==> OpsUnchanged() && d == None
      ensures obj != null && IsValidString(path) ==>
        var id := obj.InstanceID;
        && id in ids && id in opMap
        && RegState() == Register(old(RegState()), id, PathKey(path), path, opMap[id])
        && (id in old(ids) ==> opMap[id] == old(opMap[id]))
        && (id !in old(ids) ==> fresh(opMap[id]))
        && opMap[id].nodeHash == PathKey(path)
        && (d.Some? ==> opMap[id].path == path)
        && (d.Some? ==> d.value == Greeting(opMap[id], PathKey(path)))
        && (d.None? <==> id in old(ids) && old(opMap[id].nodeHash) == PathKey(path))
    {
      if obj == null || !IsValidString(path) {
        return None;
      }
      var nodeHash := PathKey(path);
      var instanceID := obj.InstanceID;
      ghost var r0 := RegState();
      var op: Op;
      if instanceID in opMap {
        op := opMap[instanceID];
        if op.nodeHash == nodeHash {
          return None;
        }
        DetachOk(r0, instanceID);
        Unregister(instanceID);
      } else {
        op := new Op(nodeHash, obj);
      }
      ghost var r1 := RegState();
      Retarget(op, nodeHash, path);
      var delivery := Enroll(instanceID, op, nodeHash, path);
      d := Some(delivery);
      assert RegState() == Attach(r1, instanceID, op, nodeHash, path);
      RegisterOk(r0, instanceID, nodeHash, path, op);
    }

    /** Points `op` at the node of `path` (its `nodeHash` and `path` fields). */
    method Retarget(op: Op, nodeHash: int, path: string)
      requires Synced()
      modifies op, this`info
      ensures op.nodeHash == nodeHash && op.path == path
      ensures info == old(info)[op := Binding(op.instanceID, nodeHash, path)]
      ensures Synced()
    {
      op.nodeHash, op.path := nodeHash, path;
      info := info[op := Binding(op.instanceID, nodeHash, path)];
    }

    /** The registering step RegisterObject ends with: the instance ID's key
        maps to `op`, which is then linked at the end of the chain of `nodeHash`
        and told the node's state. */
    method Enroll(instanceID: int, op: Op, nodeHash: int, path: string) returns (d: Delivery)
      requires KeysOk(RegState())
      requires instanceID !in opMap && nodeHash !in ids && instanceID != nodeHash
      modifies this`opMap, this`chains, this`ids
      ensures OpTable() == AddEntry(Table(old(opMap)[instanceID := op], old(chains)), nodeHash, op)
      ensures ids == old(ids) + {instanceID}
      ensures d == Greeting(op, nodeHash)
    {
      opMap, ids := opMap[instanceID := op], ids + {instanceID};
      var _, delivery := AddNotificationOPByNodeHash(nodeHash, op);
      d := delivery;
    }

    /** The unregistering step RegisterObject and RemoveObject share: the
        instance ID's key is removed, then its record is unlinked. */
    method Unregister(instanceID: int)
      requires KeysOk(RegState()) && instanceID in ids && Registered(RegState(), instanceID)
      requires opMap[instanceID].nodeHash == info[opMap[instanceID]].hash
      modifies this`opMap, this`chains, this`ids
      ensures RegState() == Detach(old(RegState()), instanceID)
    {
      var op := opMap[instanceID];
      opMap, ids := opMap - {instanceID}, ids - {instanceID};
      var _ := RemoveNotificationOPByNodeHash(op.nodeHash, op);
    }

    /** RemoveObject: the object's record is unregistered only when it is bound
        to the node of `path`; otherwise nothing changes. */
    method RemoveObject(path: string, obj: GameObject?)
      requires Valid()
      requires obj != null ==> obj.InstanceID !in chains
      modifies this`opMap, this`chains, this`ids
      ensures Valid()
      ensures RegState() ==
        if obj != null && IsValidString(path) && obj.InstanceID in old(ids)
          && old(opMap[obj.InstanceID].nodeHash) == PathKey(path)
        then Detach(old(RegState()), obj.InstanceID)
        else old(RegState())
    {
      if obj == null || !IsValidString(path) {
        return;
      }
      var nodeHash := PathKey(path);
      var instanceID := obj.InstanceID;
      if instanceID in opMap && opMap[instanceID].nodeHash == nodeHash {
        DetachOk(RegState(), instanceID);
        Unregister(instanceID);
      }
    }
  
    /**
     * RemoveObjects: an invalid path changes nothing; otherwise every record
     * bound to the path's node is unlinked and unregistered, and the node's
     * entry is gone.
     */
    method RemoveObjects(path: string)
      requires Valid() && PathKey(path) !in ids
      modifies this`opMap, this`chains, this`ids
      ensures Valid()
      ensures RegState() ==
        if IsValidString(path) then DropHash(old(RegState()), PathKey(path)) else old(RegState())
    {
      if !IsValidString(path) {
        return;
      }
      ghost var r0 := RegState();
      DropObjects(PathKey(path));
      DropHashOk(r0, PathKey(path));
    }

    /** The two walks of RemoveObjects: the records bound to `nodeHash` are
        unlinked and collected, then their instance-ID keys are removed. */
    method DropObjects(nodeHash: int)
      requires OpsValid() && nodeHash !in ids
      modifies this`opMap, this`chains, this`ids
      ensures RegState() == DropHash(old(RegState()), nodeHash)
    {
      ghost var r0 := RegState();
      ghost var bound := BoundTo(r0, nodeHash);
      BoundRecordsHold(nodeHash);
      var removed := UnlinkBound(nodeHash, bound);
      ForgetIds(removed);
      assert opMap == r0.table.heads - bound - {nodeHash};
    }

    /** What the first walk of RemoveObjects relies on, for the instance IDs
        `bound` whose records are bound to `nodeHash`: each such ID maps to a
        record carrying it and that hash, every entry whose record carries the
        hash is one of those records, and so is every record in the chain. */
    ghost predicate BoundRecords(nodeHash: int, bound: set<int>)
      reads this`opMap, this`chains, opMap.Values
    {
      && (forall i :: i in bound ==> i in opMap && opMap[i].instanceID == i && opMap[i].nodeHash == nodeHash)
      && (forall k :: k in opMap && opMap[k].nodeHash == nodeHash ==>
            opMap[k].instanceID in bound && opMap[opMap[k].instanceID] == opMap[k])
      && (forall x :: x in ChainAt(OpTable(), nodeHash) ==> x.instanceID in bound && opMap[x.instanceID] == x)
    }

    /** In a valid registry, the instance IDs bound to a node hash are exactly
        the records met under that hash. */
    lemma BoundRecordsHold(nodeHash: int)
      requires OpsValid() && nodeHash !in ids
      ensures BoundRecords(nodeHash, BoundTo(RegState(), nodeHash))
      ensures NoDup(ChainAt(OpTable(), nodeHash))
    {
      var r := RegState();
      forall i | i in BoundTo(r, nodeHash)
        ensures opMap[i].instanceID == i && opMap[i].nodeHash == nodeHash
      {
        assert Registered(r, i);
      }
      forall k | k in opMap && opMap[k].nodeHash == nodeHash
        ensures opMap[k].instanceID in BoundTo(r, nodeHash) && opMap[opMap[k].instanceID] == opMap[k]
      {
        EntryBound(r, k);
      }
      forall x | x in ChainAt(OpTable(), nodeHash)
        ensures x.instanceID in BoundTo(r, nodeHash) && opMap[x.instanceID] == x
      {
        assert Linked(r, nodeHash, x);
      }
    }

    /** The first walk of RemoveObjects: every entry whose record is bound to
        `nodeHash` has that record unlinked, and the records are collected,
        their instance IDs being exactly `bound`. Unlinking never changes which
        records carry the hash, so the walk is taken as a selection followed
        by the unlinking of each record selected. */
    method UnlinkBound(nodeHash: int, ghost bound: set<int>) returns (removed: seq<Op>)
      requires HeadsMatch(OpTable()) && (nodeHash in opMap <==> nodeHash in chains)
      requires NoDup(ChainAt(OpTable(), nodeHash)) && BoundRecords(nodeHash, bound)
      modifies this`opMap, this`chains
      ensures opMap == old(opMap) - {nodeHash} && chains == old(chains) - {nodeHash}
      ensures IdsOf(removed) == bound
    {
      ghost var chain0 := ChainAt(OpTable(), nodeHash);
      ghost var snapshot := opMap;
      removed := SelectBound(nodeHash, bound);
      forall x | x in chain0
        ensures x in removed
      {
        assert snapshot[x.instanceID] == x;
      }
      forall i | i in bound
        ensures i in IdsOf(removed)
      {
        assert snapshot[i] in removed;
      }
      UnlinkEach(nodeHash, removed);
      assert Without(chain0, Elems(removed)) == [];
      assert opMap == snapshot - {nodeHash};
    }

    /** The entries RemoveObjects picks: the record of every entry bound to
        `nodeHash`, in the order of the walk, a record met under two keys
        being listed twice. With `bound` the instance IDs bound to the hash,
        the records picked are the records of exactly those IDs. */
    method SelectBound(nodeHash: int, ghost bound: set<int>) returns (selected: seq<Op>)
      requires BoundRecords(nodeHash, bound)
      ensures forall j :: 0 <= j < |selected| ==> selected[j].nodeHash == nodeHash && selected[j].instanceID in bound
      ensures forall k :: k in opMap && opMap[k].nodeHash == nodeHash ==> opMap[k] in selected
    {
      var todo := opMap.Items;
      selected := [];
      while todo != {}
        invariant todo <= opMap.Items
        invariant forall j :: 0 <= j < |selected| ==> selected[j].nodeHash == nodeHash && selected[j].instanceID in bound
        invariant forall k :: k in opMap && opMap[k].nodeHash == nodeHash && (k, opMap[k]) !in todo ==> opMap[k] in selected
        decreases todo
      {
        var e := PickEntry(todo);
        assert e.0 in opMap && opMap[e.0] == e.1;
        if e.1.nodeHash == nodeHash {
          assert forall k :: k in opMap && opMap[k].nodeHash == nodeHash ==> opMap[k].instanceID in bound;
          selected := selected + [e.1];
        }
        todo := todo - {e};
      }
    }

    /** Each record of `ops` is unlinked from the chain of `nodeHash` in turn:
        the chain loses exactly those records and no other key changes. */
    method UnlinkEach(nodeHash: int, ops: seq<Op>)
      requires HeadsMatch(OpTable()) && (nodeHash in opMap <==> nodeHash in chains)
      requires NoDup(ChainAt(OpTable(), nodeHash))
      modifies this`opMap, this`chains
      ensures HeadsMatch(OpTable()) && (nodeHash in opMap <==> nodeHash in chains)
      ensures opMap - {nodeHash} == old(opMap) - {nodeHash} && chains - {nodeHash} == old(chains) - {nodeHash}
      ensures ChainAt(OpTable(), nodeHash) == Without(old(ChainAt(OpTable(), nodeHash)), Elems(ops))
    {
      ghost var chain0 := ChainAt(OpTable(), nodeHash);
      WithoutNothing(chain0);
      assert Elems(ops[..0]) == {};
      for j := 0 to |ops|
        invariant HeadsMatch(OpTable()) && (nodeHash in opMap <==> nodeHash in chains)
        invariant opMap - {nodeHash} == old(opMap) - {nodeHash} && chains - {nodeHash} == old(chains) - {nodeHash}
        invariant ChainAt(OpTable(), nodeHash) == Without(chain0, Elems(ops[..j]))
      {
        var _ := RemoveNotificationOPByNodeHash(nodeHash, ops[j]);
        UnlinkWithout(chain0, Elems(ops[..j]), ops[j]);
        ElemsPrefix(ops, j);
      }
      assert ops[..|ops|] == ops;
    }

    /** The second walk of RemoveObjects: the instance-ID key of every
        collected record is removed. */
    method ForgetIds(removed: seq<Op>)
      modifies this`opMap, this`ids
      ensures opMap == old(opMap) - IdsOf(removed) && ids == old(ids) - IdsOf(removed)
    {
      for j := 0 to |removed|
        invariant opMap == old(opMap) - IdsOf(removed[..j]) && ids == old(ids) - IdsOf(removed[..j])
      {
        IdsOfPrefix(removed, j);
        opMap, ids := opMap - {removed[j].instanceID}, ids - {removed[j].instanceID};
      }
      assert removed[..|removed|] == removed;
    }

    /** ClearObjects: every entry's record is unlinked from its node's chain,
        then the dictionary is emptied. */
    method ClearObjects()
      requires Valid()
      modifies this`opMap, this`chains, this`ids
      ensures Valid() && opMap == map[] && chains == map[] && ids == {}
    {
      forall e | e in opMap.Items
        ensures e.1.nodeHash !in ids
      {
        EntryBound(RegState(), e.0);
      }
      UnlinkEntries();
      opMap, chains, ids := map[], map[], {};
      assert Ok(RegState());
    }

    /** The walk of ClearObjects: each entry's record is unlinked from the
        chain of the node it is bound to. */
    method UnlinkEntries()
      requires KeysOk(RegState())
      requires forall e :: e in opMap.Items ==> e.1.nodeHash !in ids
      modifies this`opMap, this`chains
      ensures KeysOk(RegState())
    {
      var todo := opMap.Items;
      while todo != {}
        invariant forall e :: e in todo ==> e.1.nodeHash !in ids
        invariant KeysOk(RegState())
        decreases todo
      {
        var e := PickEntry(todo);
        var op := e.1;
        var _ := RemoveNotificationOPByNodeHash(op.nodeHash, op);
        todo := todo - {e};
      }
    }

    /** The refresh UpdateObjects gives a record: its own path and hash, and
        whether its node has a positive count (a missing node counts 0). */
    ghost function Refresh(op: Op): Delivery
      reads this`nodes, nodes.Values, op
    {
      Delivery(op, Some(op.path), op.nodeHash, op.nodeHash in nodes && nodes[op.nodeHash].NotificationCount > 0)
    }

    /**
     * UpdateObjects: every entry of the dictionary, each key once, has its
     * record refreshed; a chain head is the value of two keys (`HeadTwice`)
     * and so is refreshed twice. `keys` is the order the walk took.
     */
    method UpdateObjects() returns (keys: seq<int>, ds: seq<Delivery>)
      ensures NoDup(keys) && (forall k :: k in opMap <==> k in keys)
      ensures forall j :: 0 <= j < |keys| ==> keys[j] in opMap
      ensures |ds| == |keys| && forall j :: 0 <= j < |ds| ==> ds[j] == Refresh(opMap[keys[j]])
    {
      var todo := opMap.Items;
      keys, ds := [], [];
      while todo != {}
        invariant todo <= opMap.Items
        invariant NoDup(keys) && |ds| == |keys|
        invariant forall j :: 0 <= j < |keys| ==> keys[j] in opMap && (keys[j], opMap[keys[j]]) !in todo
        invariant forall k :: k in opMap && (k, opMap[k]) !in todo ==> k in keys
        invariant forall j :: 0 <= j < |ds| ==> ds[j] == Refresh(opMap[keys[j]])
        decreases todo
      {
        var e := PickEntry(todo);
        var op := e.1;
        var count := GetNotificationCountByNodeHash(op.nodeHash);
        ds := ds + [Delivery(op, Some(op.path), op.nodeHash, count > 0)];
        keys := keys + [e.0];
        todo := todo - {e};
      }
    }

    /**
     * OnNotification: a node's change of state is passed to every record in
     * the chain of its hash, head first, with the node's path and hash; a
     * missing node or a hash without observers reaches nobody.
     */
    method OnNotification(node: Node?, show: bool) returns (ds: seq<Delivery>)
      requires HeadsMatch(OpTable())
      requires node != null ==> (node.NodeHash in opMap <==> node.NodeHash in chains)
      ensures node == null ==> ds == []
      ensures node != null ==>
        var chain := ChainAt(OpTable(), node.NodeHash);
        && |ds| == |chain|
        && forall j :: 0 <= j < |ds| ==> ds[j] == Delivery(chain[j], Some(node.Path), node.NodeHash, show)
    {
      ds := [];
      if node == null {
        return;
      }
      if node.NodeHash in opMap {
        var chain := chains[node.NodeHash];
        for j := 0 to |chain|
          invariant |ds| == j
          invariant forall i :: 0 <= i < j ==> ds[i] == Delivery(chain[i], Some(node.Path), node.NodeHash, show)
        {
          ds := ds + [Delivery(chain[j], Some(node.Path), node.NodeHash, show)];
        }
      }
    }
}
}
