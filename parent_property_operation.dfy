/**
 * The reversible set/replace command over a single-valued structural slot of
 * a record (DefaultNdefRecordModelParentPropertyOperation).
 *
 * The command touches two structures: the child list of the slot's tree node
 * (a parent-property node, which holds at most one record node) and the
 * record graph, seen here only as the set of (parent record, child record)
 * connections. `execute` swaps the previous child record for the next one in
 * both; `revoke` swaps them back.
 *
 * The nodes here (`RecordModelNode`) are opaque stand-ins for the record nodes
 * of the tree model in module `ModelNode`: the command only stores, compares
 * and re-inserts them, so their identity is all that is kept.
 */
module ParentPropertyOperation {
  import opened Ndef

  /** The record graph holds `child` in one of `parent`'s fields. */
  datatype Link = Link(parent: RecordId, child: RecordId)

  /** A record node built by the node factory; only its identity matters here. */
  class RecordModelNode {
    const record: RecordId

    constructor (record: RecordId)
      ensures this.record == record
    {
      this.record := record;
    }
  }

  /** The node factory: every call yields a new node wrapping `record`. */
  method GetNode(record: RecordId) returns (node: RecordModelNode)
    ensures fresh(node) && node.record == record
  {
    node := new RecordModelNode(record);
  }

  /** The slot's tree node: its ordered child list and the list operations the command uses. */
  class ParentProperty {
    var children: seq<RecordModelNode>

    constructor (children: seq<RecordModelNode>)
      ensures this.children == children
    {
      this.children := children;
    }

    predicate HasChildren()
      reads this
    {
      |children| > 0
    }

    method RemoveAllChildren()
      modifies this
      ensures children == []
    {
      children := [];
    }

    /** `add(child)` appends. */
    method Add(node: RecordModelNode)
      modifies this
      ensures children == old(children) + [node]
    {
      children := children + [node];
    }
  }

  /** The record graph adapter, reduced to the connections it maintains. */
  class RecordGraph {
    var links: set<Link>

    constructor (links: set<Link>)
      ensures this.links == links
    {
      this.links := links;
    }

    method Connect(parent: RecordId, child: RecordId)
      modifies this
      ensures links == old(links) + {Link(parent, child)}
    {
      links := links + {Link(parent, child)};
    }

    method Disconnect(parent: RecordId, child: RecordId)
      modifies this
      ensures links == old(links) - {Link(parent, child)}
    {
      links := links - {Link(parent, child)};
    }
  }

  // ---------------------------------------------------------------------------
  // The command's effect, as functions of the state it acts on

  /** What the command acts on: the slot's children and the graph's connections. */
  datatype SlotState = SlotState(children: seq<RecordModelNode>, links: set<Link>)

  /**
   * What a constructed command holds: the owning record, the record it evicts
   * (if any), the record it installs, the node built for that record, and the
   * node it captured from the slot to put back on revoke (null if none).
   */
  datatype Intent = Intent(
    record: RecordId,
    previous: Option<RecordId>,
    next: RecordId,
    recordNode: RecordModelNode,
    restore: RecordModelNode?)

  /** The only connections the command may change. */
  predicate Touches(i: Intent, l: Link) {
    l == Link(i.record, i.next) || (i.previous.Some? && l == Link(i.record, i.previous.value))
  }

  /** The slot contents `revoke` reinstates. */
  function Restored(i: Intent): (c: seq<RecordModelNode>)
    ensures |c| <= 1
  {
    if i.restore != null then [i.restore] else []
  }

  /** The state after `execute`. */
  function Executed(i: Intent, s: SlotState): (r: SlotState)
    ensures r.children == [i.recordNode]
    ensures Link(i.record, i.next) in r.links
    ensures i.previous.Some? && i.previous.value != i.next ==>
      Link(i.record, i.previous.value) !in r.links
    ensures i.previous.None? ==> s.links <= r.links
    ensures forall l :: !Touches(i, l) ==> (l in r.links <==> l in s.links)
  {
    var kept := if i.previous.Some? then s.links - {Link(i.record, i.previous.value)} else s.links;
    SlotState([i.recordNode], kept + {Link(i.record, i.next)})
  }

  /** The state after `revoke`. */
  function Revoked(i: Intent, s: SlotState): (r: SlotState)
    ensures r.children == Restored(i)
    ensures i.previous.Some? ==> Link(i.record, i.previous.value) in r.links
    ensures i.previous.None? || i.previous.value != i.next ==> Link(i.record, i.next) !in r.links
    ensures i.previous.None? ==> r.links <= s.links
    ensures forall l :: !Touches(i, l) ==> (l in r.links <==> l in s.links)
  {
    var kept := s.links - {Link(i.record, i.next)};
    SlotState(Restored(i), if i.previous.Some? then kept + {Link(i.record, i.previous.value)} else kept)
  }

  /**
   * `execute` then `revoke` gives back the state the command was built on,
   * provided the slot still holds what was captured, the previous record was
   * connected, and the next one was not.
   */
  lemma ExecuteThenRevoke(i: Intent, s: SlotState)
    requires s.children == Restored(i)
    requires i.previous.Some? ==> Link(i.record, i.previous.value) in s.links
    requires Link(i.record, i.next) !in s.links
    ensures Revoked(i, Executed(i, s)) == s
  {
  }

  /** `revoke` and a second `execute` reproduce the first `execute` exactly. */
  lemma ExecuteRevokeExecute(i: Intent, s: SlotState)
    ensures Executed(i, Revoked(i, Executed(i, s))) == Executed(i, s)
  {
  }

  // ---------------------------------------------------------------------------
  // The command object

  class Operation {
    const record: RecordId
    const property: ParentProperty
    const graph: RecordGraph
    const previous: Option<RecordId>
    const next: RecordId
    /** The node installed by `execute`; built by `Initialize`. */
    var recordNode: RecordModelNode?
    /** The slot's first child when `Initialize` last found one; put back by `revoke`. */
    var restore: RecordModelNode?

    /** Holds once `Initialize` has run, hence for every constructed command. */
    predicate Valid()
      reads this
    {
      recordNode != null
    }

    function Plan(): Intent
      reads this
      requires Valid()
    {
      Intent(record, previous, next, recordNode, restore)
    }

    ghost function State(): SlotState
      reads property, graph
    {
      SlotState(property.children, graph.links)
    }

    /** Captures the slot's current child and builds the new record node once. */
    constructor (record: RecordId, property: ParentProperty, graph: RecordGraph,
                 previous: Option<RecordId>, next: RecordId)
      ensures Valid()
      ensures this.record == record && this.property == property && this.graph == graph
      ensures this.previous == previous && this.next == next
      ensures restore == if property.children != [] then property.children[0] else null
      ensures fresh(recordNode) && recordNode.record == next
      ensures property.children == old(property.children) && graph.links == old(graph.links)
      ensures |property.children| <= 1 ==> property.children == Restored(Plan())
    {
      this.record := record;
      this.property := property;
      this.graph := graph;
      this.previous := previous;
      this.next := next;
      recordNode := null;
      restore := null;
      new;
      Initialize();
    }

    /**
     * `initialize`: captures the slot's first child, keeping the earlier capture
     * when the slot is empty, and builds a fresh node for the next record.
     */
    method Initialize()
      modifies this`restore, this`recordNode
      ensures Valid()
      ensures restore == if property.HasChildren() then property.children[0] else old(restore)
      ensures fresh(recordNode) && recordNode.record == next
    {
      if property.HasChildren() {
        restore := property.children[0];
      }
      recordNode := GetNode(next);
    }

    /**
     * `execute`: disconnects the previous record if there is one, empties the
     * slot, connects the next record and inserts its node.
     */
    method Execute()
      requires Valid()
      modifies property, graph
      ensures State() == Executed(Plan(), old(State()))
    {
      if previous.Some? {
        graph.Disconnect(record, previous.value);
      }
      property.RemoveAllChildren();
      graph.Connect(record, next);
      property.Add(recordNode);
    }

    /**
     * `revoke`: disconnects the next record, empties the slot, reconnects the
     * previous record if there is one and puts the captured node back if there is one.
     */
    method Revoke()
      requires Valid()
      modifies property, graph
      ensures State() == Revoked(Plan(), old(State()))
    {
      graph.Disconnect(record, next);
      property.RemoveAllChildren();
      if previous.Some? {
        graph.Connect(record, previous.value);
      }
      if restore != null {
        property.Add(restore);
      }
    }
  }

  // ---------------------------------------------------------------------------
  // Undo and redo as an undo stack issues them

  /**
   * `execute` followed by `revoke` on a command whose slot and connections are
   * as they were when it was built leaves both as they were.
   */
  method UndoAfterExecute(op: Operation)
    requires op.Valid()
    requires op.property.children == Restored(op.Plan())
    requires op.previous.Some? ==> Link(op.record, op.previous.value) in op.graph.links
    requires Link(op.record, op.next) !in op.graph.links
    modifies op.property, op.graph
    ensures op.State() == old(op.State())
  {
    ghost var before := op.State();
    op.Execute();
    op.Revoke();
    ExecuteThenRevoke(op.Plan(), before);
  }

  /** `execute`, `revoke`, `execute` ends where a single `execute` ends. */
  method RedoAfterUndo(op: Operation)
    requires op.Valid()
    modifies op.property, op.graph
    ensures op.State() == Executed(op.Plan(), old(op.State()))
  {
    ghost var before := op.State();
    op.Execute();
    op.Revoke();
    op.Execute();
    ExecuteRevokeExecute(op.Plan(), before);
  }
}
