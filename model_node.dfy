/**
 * The presentation tree of the NDEF editor, and the queries a node of that
 * tree answers by walking up its chain of parent back-references
 * (NdefRecordModelNode).
 *
 * The tree is an arena: a map from node identities to nodes. A node's
 * `parent` is a non-owning back-reference into the arena, `children` is the
 * ordered child list a parent node owns (empty for a leaf), and `record` is
 * present exactly when the node is a record node, i.e. wraps an NDEF record.
 * The queries read a snapshot `t` of the arena; only `SetParent` changes it.
 */
module ModelNode {
  import opened Ndef

  type NodeId = nat

  datatype Node = Node(record: Option<RecordId>, parent: Option<NodeId>, children: seq<NodeId>)

  type Tree = map<NodeId, Node>

  /** The `instanceof NdefRecordModelRecord` test. */
  predicate IsRecordNode(t: Tree, id: NodeId)
    requires id in t
  {
    t[id].record.Some?
  }

  /** `hasParent`: the parent reference is set. */
  predicate HasParent(t: Tree, id: NodeId)
    requires id in t
  {
    t[id].parent.Some?
  }

  // ---------------------------------------------------------------------------
  // Well-formedness

  /**
   * The strict ancestors of `id`, nearest first, provided the parent chain stays
   * inside the arena and reaches a parentless node within `fuel` steps.
   */
  ghost function AncestorsWithin(t: Tree, id: NodeId, fuel: nat): (a: Option<seq<NodeId>>)
    ensures a.Some? ==> id in t && |a.value| <= fuel && forall x <- a.value :: x in t
    decreases fuel
  {
    if id !in t then None
    else match t[id].parent
      case None => Some([])
      case Some(p) =>
        if fuel == 0 then None
        else match AncestorsWithin(t, p, fuel - 1)
          case None => None
          case Some(a) => Some([p] + a)
  }

  /** A non-root node is listed exactly once among its parent's children. */
  ghost predicate ListedByParent(t: Tree, id: NodeId)
    requires id in t
  {
    match t[id].parent
    case None => true
    case Some(p) => p in t && multiset(t[p].children)[id] == 1
  }

  /**
   * The tree invariant: every node is listed exactly once by its parent, and
   * every parent chain ends at a root (no node is its own ancestor, see
   * `AncestorsAcyclic`).
   */
  ghost predicate Valid(t: Tree) {
    && (forall id | id in t :: ListedByParent(t, id))
    && (forall id | id in t :: AncestorsWithin(t, id, |t|).Some?)
  }

  /** `getParent()` on a node that has one. */
  function Parent(t: Tree, id: NodeId): (p: NodeId)
    requires Valid(t) && id in t && HasParent(t, id)
    ensures p in t && t[id].parent == Some(p)
    ensures id in t[p].children
  {
    assert ListedByParent(t, id);
    t[id].parent.value
  }

  /** Parent, grandparent, ... up to and including the root. */
  ghost function Ancestors(t: Tree, id: NodeId): (a: seq<NodeId>)
    requires Valid(t) && id in t
    ensures forall x <- a :: x in t
  {
    AncestorsWithin(t, id, |t|).value
  }

  /** The node itself followed by its ancestors: the route every query walks. */
  ghost function Path(t: Tree, id: NodeId): (s: seq<NodeId>)
    requires Valid(t) && id in t
    ensures |s| == |Ancestors(t, id)| + 1 && s[0] == id
    ensures forall x <- s :: x in t
  {
    [id] + Ancestors(t, id)
  }

  lemma {:induction false} AncestorsWithinMono(t: Tree, id: NodeId, f: nat, g: nat)
    requires AncestorsWithin(t, id, f).Some? && f <= g
    ensures AncestorsWithin(t, id, g) == AncestorsWithin(t, id, f)
    decreases f
  {
    if t[id].parent.Some? {
      AncestorsWithinMono(t, t[id].parent.value, f - 1, g - 1);
    }
  }

  /** The ancestor chain of a child is its parent followed by the parent's chain. */
  lemma AncestorsStep(t: Tree, id: NodeId)
    requires Valid(t) && id in t && HasParent(t, id)
    ensures Ancestors(t, id) == [Parent(t, id)] + Ancestors(t, Parent(t, id))
  {
    var p := Parent(t, id);
    assert AncestorsWithin(t, id, |t|).Some?;
    AncestorsWithinMono(t, p, |t| - 1, |t|);
  }

  /** A root has no ancestors. */
  lemma AncestorsOfRoot(t: Tree, id: NodeId)
    requires Valid(t) && id in t && !HasParent(t, id)
    ensures Ancestors(t, id) == []
  {
  }

  /**
   * The i-th node on the path is in the arena, its own ancestors are the rest
   * of the chain, and its parent is the next node on the path (none for the last).
   */
  lemma {:induction false} PathAt(t: Tree, id: NodeId, i: nat)
    requires Valid(t) && id in t && i <= |Ancestors(t, id)|
    ensures Path(t, id)[i] in t
    ensures Ancestors(t, Path(t, id)[i]) == Ancestors(t, id)[i..]
    ensures t[Path(t, id)[i]].parent ==
      if i < |Ancestors(t, id)| then Some(Ancestors(t, id)[i]) else None
    decreases i
  {
    if HasParent(t, id) {
      var p := Parent(t, id);
      AncestorsStep(t, id);
      if i > 0 {
        PathAt(t, p, i - 1);
        assert Path(t, p) == Ancestors(t, id);
      }
    } else {
      AncestorsOfRoot(t, id);
    }
  }

  /** The last ancestor is the root of the tree. */
  lemma RootIsLastAncestor(t: Tree, id: NodeId)
    requires Valid(t) && id in t && HasParent(t, id)
    ensures |Ancestors(t, id)| > 0
    ensures !HasParent(t, Ancestors(t, id)[|Ancestors(t, id)| - 1])
  {
    AncestorsStep(t, id);
    PathAt(t, id, |Ancestors(t, id)|);
  }

  /** No node is its own ancestor. */
  lemma AncestorsAcyclic(t: Tree, id: NodeId)
    requires Valid(t) && id in t
    ensures id !in Ancestors(t, id)
  {
    var a := Ancestors(t, id);
    forall k | 0 <= k < |a|
      ensures a[k] != id
    {
      PathAt(t, id, k + 1);
    }
  }

  // ---------------------------------------------------------------------------
  // Child-list lookup (NdefRecordModelParent.indexOf)

  /** `List.indexOf`: the first position of `x`, or -1 when `x` is not listed. */
  function IndexOf(s: seq<NodeId>, x: NodeId): (r: int)
    ensures -1 <= r < |s|
    ensures r == -1 <==> x !in s
    ensures 0 <= r ==> s[r] == x && x !in s[..r]
  {
    if s == [] then -1
    else if s[0] == x then 0
    else
      var k := IndexOf(s[1..], x);
      if k == -1 then -1
      else
        assert s[..k + 1] == [s[0]] + s[1..][..k];
        k + 1
  }

  /** Two different positions holding the same value count it at least twice. */
  lemma {:induction false} TwiceListed(s: seq<NodeId>, i: nat, j: nat)
    requires i < j < |s| && s[i] == s[j]
    ensures multiset(s)[s[i]] >= 2
  {
    assert s == [s[0]] + s[1..];
    if i == 0 {
      assert s[1..][j - 1] == s[j];
    } else {
      TwiceListed(s[1..], i - 1, j - 1);
    }
  }

  /** `getParentIndex`: the node's position in its parent's child list. */
  function ParentIndex(t: Tree, id: NodeId): (r: int)
    requires Valid(t) && id in t && HasParent(t, id)
    ensures 0 <= r < |t[Parent(t, id)].children|
    ensures t[Parent(t, id)].children[r] == id
  {
    IndexOf(t[Parent(t, id)].children, id)
  }

  /** Under the tree invariant the parent index is the only position holding the node. */
  lemma ParentIndexUnique(t: Tree, id: NodeId, j: nat)
    requires Valid(t) && id in t && HasParent(t, id)
    requires j < |t[Parent(t, id)].children| && t[Parent(t, id)].children[j] == id
    ensures j == ParentIndex(t, id)
  {
    var s := t[Parent(t, id)].children;
    var r := ParentIndex(t, id);
    assert ListedByParent(t, id);
    assert forall k :: 0 <= k < r ==> s[..r][k] == s[k];
    if r < j {
      TwiceListed(s, r, j);
    }
  }

  // ---------------------------------------------------------------------------
  // Depth (getLevel)

  /** `getLevel(current)`: `current` plus one for every ancestor. */
  function LevelFrom(t: Tree, id: NodeId, current: int): (r: int)
    requires Valid(t) && id in t
    ensures r == current + |Ancestors(t, id)|
    decreases |Ancestors(t, id)|
  {
    if HasParent(t, id) then
      AncestorsStep(t, id);
      LevelFrom(t, Parent(t, id), current + 1)
    else
      current
  }

  /** A node has a parent exactly when it has at least one ancestor. */
  lemma HasParentIffAncestors(t: Tree, id: NodeId)
    requires Valid(t) && id in t
    ensures HasParent(t, id) <==> |Ancestors(t, id)| > 0
  {
    if HasParent(t, id) {
      AncestorsStep(t, id);
    }
  }

  /** `getLevel()`: the number of ancestors. */
  function Level(t: Tree, id: NodeId): (r: nat)
    requires Valid(t) && id in t
    ensures r == |Ancestors(t, id)|
    ensures r == 0 <==> !HasParent(t, id)
  {
    HasParentIffAncestors(t, id);
    LevelFrom(t, id, 0)
  }

  /** A child sits exactly one level below its parent. */
  lemma LevelOfChild(t: Tree, id: NodeId)
    requires Valid(t) && id in t && HasParent(t, id)
    ensures Level(t, id) == Level(t, Parent(t, id)) + 1
  {
  }

  // ---------------------------------------------------------------------------
  // Nearest record node

  /** Position of the first record node in `s`, or `|s|` when there is none. */
  function FirstRecordAt(t: Tree, s: seq<NodeId>): (k: nat)
    requires forall x <- s :: x in t
    ensures k <= |s|
    ensures forall j :: 0 <= j < k ==> !IsRecordNode(t, s[j])
    ensures k < |s| ==> IsRecordNode(t, s[k])
  {
    if s == [] then 0
    else if IsRecordNode(t, s[0]) then 0
    else 1 + FirstRecordAt(t, s[1..])
  }

  /** `getRecordLevel(level)`: climbs while the parent is not a record node. */
  function RecordLevelFrom(t: Tree, id: NodeId, level: int): (r: int)
    requires Valid(t) && id in t
    ensures var a := Ancestors(t, id); var k := FirstRecordAt(t, a);
      r == if k == |a| then -1 else level + k + 1
    decreases |Ancestors(t, id)|
  {
    if HasParent(t, id) then
      AncestorsStep(t, id);
      if IsRecordNode(t, Parent(t, id)) then level + 1
      else RecordLevelFrom(t, Parent(t, id), level + 1)
    else
      -1
  }

  /**
   * `getRecordLevel()`: the distance to the nearest strict ancestor that is a
   * record node (the root included), or -1 when there is none.
   */
  function RecordLevel(t: Tree, id: NodeId): (r: int)
    requires Valid(t) && id in t
    ensures r == -1 || 1 <= r <= |Ancestors(t, id)|
    ensures r == -1 <==> forall x <- Ancestors(t, id) :: !IsRecordNode(t, x)
    ensures r >= 1 ==> IsRecordNode(t, Ancestors(t, id)[r - 1])
    ensures forall j :: 0 <= j < r - 1 ==> !IsRecordNode(t, Ancestors(t, id)[j])
  {
    RecordLevelFrom(t, id, 0)
  }

  /**
   * The nodes the record searches examine: the node itself and its ancestors,
   * except that a parentless root is examined only when it is the node itself.
   */
  ghost function Searched(t: Tree, id: NodeId): (s: seq<NodeId>)
    requires Valid(t) && id in t
    ensures s != [] && s[0] == id
    ensures forall x <- s :: x in t
  {
    if HasParent(t, id) then Path(t, id)[..|Ancestors(t, id)|] else [id]
  }

  /**
   * The searched nodes are a prefix of the path: all of it but the root, or the
   * root alone. This only unfolds `Searched`; it is stated once so that the
   * search proofs can use it positionally.
   */
  lemma SearchedShape(t: Tree, id: NodeId)
    requires Valid(t) && id in t
    ensures |Searched(t, id)| == if HasParent(t, id) then |Ancestors(t, id)| else 1
    ensures forall j :: 0 <= j < |Searched(t, id)| ==> Searched(t, id)[j] == Path(t, id)[j]
  {
  }

  /** Which nodes are searched, stated without positions. */
  lemma SearchedNodes(t: Tree, id: NodeId, x: NodeId)
    requires Valid(t) && id in t
    ensures x in Searched(t, id) <==> x == id || (x in Ancestors(t, id) && HasParent(t, x))
  {
    var a := Ancestors(t, id);
    var p := Path(t, id);
    if HasParent(t, id) {
      var s := Searched(t, id);
      if x in s && x != id {
        var j :| 0 <= j < |s| && s[j] == x;
        PathAt(t, id, j);
        assert x == a[j - 1];
      }
      if x in a && HasParent(t, x) {
        var k :| 0 <= k < |a| && a[k] == x;
        PathAt(t, id, k + 1);
        assert s[k + 1] == x;
      }
    } else {
      AncestorsOfRoot(t, id);
    }
  }

  /** The first searched record node, if any. */
  ghost function NearestRecordNode(t: Tree, id: NodeId): (n: Option<NodeId>)
    requires Valid(t) && id in t
    ensures n.Some? ==> n.value in Searched(t, id) && IsRecordNode(t, n.value)
    ensures n.None? <==> forall x <- Searched(t, id) :: !IsRecordNode(t, x)
    ensures IsRecordNode(t, id) ==> n == Some(id)
  {
    var s := Searched(t, id);
    var k := FirstRecordAt(t, s);
    if k < |s| then Some(s[k]) else None
  }

  /** The record wrapped by the nearest record node, if any. */
  ghost function NearestRecord(t: Tree, id: NodeId): Option<RecordId>
    requires Valid(t) && id in t
  {
    match NearestRecordNode(t, id)
    case Some(n) => t[n].record
    case None => None
  }

  /**
   * The record searches and `RecordLevel` agree, except on the root: a record
   * node that is the root counts for `RecordLevel`, but is never found by the
   * search from one of its descendants.
   */
  lemma NearestRecordNodeVsRecordLevel(t: Tree, id: NodeId)
    requires Valid(t) && id in t && !IsRecordNode(t, id)
    ensures var a := Ancestors(t, id); var k := RecordLevel(t, id);
      && (1 <= k < |a| ==> NearestRecordNode(t, id) == Some(a[k - 1]))
      && (k == -1 || k == |a| ==> NearestRecordNode(t, id) == None)
  {
    var a := Ancestors(t, id);
    var k := RecordLevel(t, id);
    var s := Searched(t, id);
    if HasParent(t, id) {
      assert forall j :: 1 <= j < |s| ==> s[j] == a[j - 1];
      var f := FirstRecordAt(t, s);
      if 1 <= k < |a| {
        assert s[k] == a[k - 1];
        assert f == k;
      } else if k == -1 || k == |a| {
        assert f == |s|;
      }
    } else {
      AncestorsOfRoot(t, id);
    }
  }

  // ---------------------------------------------------------------------------
  // The loop queries

  /**
   * `getTreeRootIndex`: -1 for the root; otherwise the position, among the
   * root's children, of the node's ancestor-or-self that is a child of the root.
   */
  method TreeRootIndex(t: Tree, id: NodeId) returns (r: int)
    requires Valid(t) && id in t
    ensures !HasParent(t, id) ==> r == -1
    ensures HasParent(t, id) ==>
      var a := Ancestors(t, id); var top := Path(t, id)[|a| - 1];
      && !HasParent(t, a[|a| - 1])
      && t[top].parent == Some(a[|a| - 1])
      && 0 <= r < |t[a[|a| - 1]].children|
      && t[a[|a| - 1]].children[r] == top
  {
    ghost var a := Ancestors(t, id);
    ghost var i := 0;
    PathAt(t, id, 0);
    var p := id;
    while HasParent(t, p) && HasParent(t, t[p].parent.value)
      invariant i <= |a| && p == Path(t, id)[i] && p in t
      invariant t[p].parent == if i < |a| then Some(a[i]) else None
      invariant i > 0 ==> HasParent(t, p)
      decreases |a| - i
    {
      PathAt(t, id, i + 1);
      p := t[p].parent.value;
      i := i + 1;
    }
    if HasParent(t, p) {
      var next := Parent(t, p);
      PathAt(t, id, i + 1);
      r := IndexOf(t[next].children, p);
    } else {
      r := -1;
    }
  }

  /** `FirstRecordAt` is the unique position with no record node before it. */
  lemma FirstRecordAtIs(t: Tree, s: seq<NodeId>, k: nat)
    requires forall x <- s :: x in t
    requires k <= |s| && forall j :: 0 <= j < k ==> !IsRecordNode(t, s[j])
    requires k < |s| ==> IsRecordNode(t, s[k])
    ensures FirstRecordAt(t, s) == k
  {
  }

  /**
   * Where the record searches stop: at the first record node on the path, or,
   * with nothing found, at the root or at the last node below the root.
   */
  lemma {:induction false} SearchStopsAt(t: Tree, id: NodeId, i: nat)
    requires Valid(t) && id in t
    requires i == 0 || i < |Ancestors(t, id)|
    requires forall j :: 0 <= j < i ==> !IsRecordNode(t, Path(t, id)[j])
    requires var p := Path(t, id)[i];
      IsRecordNode(t, p) || !HasParent(t, p) || !HasParent(t, Parent(t, p))
    ensures var p := Path(t, id)[i];
      NearestRecordNode(t, id) == if IsRecordNode(t, p) then Some(p) else None
  {
    var path := Path(t, id);
    var s := Searched(t, id);
    SearchedShape(t, id);
    PathAt(t, id, i);
    if HasParent(t, path[i]) {
      PathAt(t, id, i + 1);
    }
    if IsRecordNode(t, path[i]) {
      FirstRecordAtIs(t, s, i);
    } else {
      assert |s| == i + 1;
      forall j | 0 <= j < |s|
        ensures !IsRecordNode(t, s[j])
      {
        assert s[j] == path[j];
      }
      FirstRecordAtIs(t, s, |s|);
    }
  }

  /**
   * `getRecord(p)`: the record of the first record node met while climbing from
   * `start`; the climb stops before a parentless root unless it starts there.
   * `getRecord()` is this search started at the node itself.
   */
  method RecordFrom(t: Tree, start: NodeId) returns (r: Option<RecordId>)
    requires Valid(t) && start in t
    ensures r == NearestRecord(t, start)
    ensures IsRecordNode(t, start) ==> r == t[start].record
  {
    ghost var a := Ancestors(t, start);
    ghost var path := Path(t, start);
    ghost var i := 0;
    PathAt(t, start, 0);
    var p := start;
    while !IsRecordNode(t, p) && HasParent(t, p) && HasParent(t, t[p].parent.value)
      invariant i <= |a| && p == path[i] && p in t
      invariant i == 0 || i < |a|
      invariant t[p].parent == if i < |a| then Some(a[i]) else None
      invariant forall j :: 0 <= j < i ==> !IsRecordNode(t, path[j])
      decreases |a| - i
    {
      PathAt(t, start, i + 1);
      p := t[p].parent.value;
      i := i + 1;
    }
    SearchStopsAt(t, start, i);
    r := t[p].record;
  }

  /** `getParentRecord`: none without a parent, else the search from the parent. */
  method ParentRecord(t: Tree, id: NodeId) returns (r: Option<RecordId>)
    requires Valid(t) && id in t
    ensures !HasParent(t, id) ==> r == None
    ensures HasParent(t, id) ==> r == NearestRecord(t, Parent(t, id))
  {
    if HasParent(t, id) {
      r := RecordFrom(t, t[id].parent.value);
    } else {
      r := None;
    }
  }

  /**
   * `getRecordBranchIndex`: the parent index of the first node on the path
   * whose parent is a record node, or -1. It dereferences a null parent when
   * called on the root, hence the precondition.
   */
  method RecordBranchIndex(t: Tree, id: NodeId) returns (r: int)
    requires Valid(t) && id in t && HasParent(t, id)
    ensures IsRecordNode(t, Parent(t, id)) ==> r == ParentIndex(t, id)
    ensures RecordLevel(t, id) == -1 ==> r == -1
    ensures RecordLevel(t, id) >= 1 ==>
      var below := Path(t, id)[RecordLevel(t, id) - 1];
      HasParent(t, below) && r == ParentIndex(t, below)
  {
    ghost var a := Ancestors(t, id);
    ghost var path := Path(t, id);
    ghost var i := 0;
    PathAt(t, id, 0);
    var p := id;
    while !IsRecordNode(t, t[p].parent.value) && HasParent(t, t[p].parent.value)
      invariant i < |a| && p == path[i] && p in t
      invariant t[p].parent == Some(a[i])
      invariant forall j :: 0 <= j < i ==> !IsRecordNode(t, a[j])
      decreases |a| - i
    {
      PathAt(t, id, i + 1);
      p := t[p].parent.value;
      i := i + 1;
    }
    PathAt(t, id, i + 1);
    ghost var level := RecordLevel(t, id);
    if IsRecordNode(t, t[p].parent.value) {
      assert level == i + 1 by {
        FirstRecordAtIs(t, a, i);
      }
      r := ParentIndex(t, p);
    } else {
      assert i + 1 == |a|;
      assert level == -1 by {
        FirstRecordAtIs(t, a, |a|);
      }
      r := -1;
    }
  }

  /**
   * `getRecordNode`: the node itself when it is a record node, else the first
   * record-node ancestor below the root, else none. On a parentless node that
   * is not a record node it dereferences a null parent, hence the precondition.
   */
  method EnclosingRecordNode(t: Tree, id: NodeId) returns (r: Option<NodeId>)
    requires Valid(t) && id in t
    requires HasParent(t, id) || IsRecordNode(t, id)
    ensures r == NearestRecordNode(t, id)
    ensures r.Some? ==> r.value in t && t[r.value].record == NearestRecord(t, id)
  {
    ghost var a := Ancestors(t, id);
    ghost var path := Path(t, id);
    ghost var i := 0;
    PathAt(t, id, 0);
    var p := id;
    while !IsRecordNode(t, p) && HasParent(t, t[p].parent.value)
      invariant i <= |a| && p == path[i] && p in t
      invariant i == 0 || i < |a|
      invariant !IsRecordNode(t, p) ==> HasParent(t, p)
      invariant t[p].parent == if i < |a| then Some(a[i]) else None
      invariant forall j :: 0 <= j < i ==> !IsRecordNode(t, path[j])
      decreases |a| - i
    {
      PathAt(t, id, i + 1);
      p := t[p].parent.value;
      i := i + 1;
    }
    SearchStopsAt(t, id, i);
    r := if IsRecordNode(t, p) then Some(p) else None;
  }

  // ---------------------------------------------------------------------------
  // The one mutator

  /** The arena the nodes live in; `setParent` overwrites one back-reference. */
  class NodeArena {
    var nodes: Tree

    constructor (nodes: Tree)
      ensures this.nodes == nodes
    {
      this.nodes := nodes;
    }

    /** `setParent`: replaces the node's parent reference and nothing else. */
    method SetParent(id: NodeId, parent: Option<NodeId>)
      requires id in nodes
      modifies this
      ensures nodes == old(nodes)[id := old(nodes)[id].(parent := parent)]
      ensures HasParent(nodes, id) <==> parent.Some?
    {
      nodes := nodes[id := nodes[id].(parent := parent)];
    }
  }
}
