/**
 * Conversation: a loaded node graph with a cursor (the current node) and the cached nodes its
 * edges lead to (NextNodes).
 */
module Conversations {
  import opened Wrappers
  import opened ConversationNodes
  import opened ConversationEngine
  import opened ConversationRules
  import ListExtensions

  /** Every node in the lookup is stored under its own id, and each of its edges leads to a key. */
  predicate LookupClosed(lookup: map<NodeId, ConversationNode>) {
    forall id :: id in lookup ==> lookup[id].id == id && forall j :: 0 <= j < |lookup[id].nextNodes| ==> lookup[id].nextNodes[j].nextId in lookup
  }

  /** `list` holds, edge by edge, the node each edge leads to. */
  predicate Resolves(edges: seq<NextNodeModel>, list: seq<ConversationNode>, lookup: map<NodeId, ConversationNode>) {
    |list| == |edges| && forall i :: 0 <= i < |edges| ==> edges[i].nextId in lookup && list[i] == lookup[edges[i].nextId]
  }

  /** The index of the first node with this id (FirstOrDefault), or -1. */
  function FirstWithId(list: seq<ConversationNode>, id: NodeId): (r: int)
    ensures -1 <= r < |list|
    ensures r == -1 <==> forall i :: 0 <= i < |list| ==> list[i].id != id
    ensures r >= 0 ==> list[r].id == id && forall i :: 0 <= i < r ==> list[i].id != id
    decreases |list|
  {
    if |list| == 0 then -1
    else if list[0].id == id then 0
    else
      var k := FirstWithId(list[1..], id);
      if k == -1 then -1 else k + 1
  }

  /** The index of the first node marked initial (FirstOrDefault), or -1. */
  function FirstInitial(list: seq<ConversationNode>): (r: int)
    ensures -1 <= r < |list|
    ensures r == -1 <==> forall i :: 0 <= i < |list| ==> !list[i].initial
    ensures r >= 0 ==> list[r].initial && forall i :: 0 <= i < r ==> !list[i].initial
    decreases |list|
  {
    if |list| == 0 then -1
    else if list[0].initial then 0
    else
      var k := FirstInitial(list[1..]);
      if k == -1 then -1 else k + 1
  }

  /** The ids among the targets of `edges` whose node's required checks all pass. */
  function EligibleIds(edges: seq<NextNodeModel>, lookup: map<NodeId, ConversationNode>, checks: CheckRegistry): set<NodeId> {
    set i | 0 <= i < |edges| && edges[i].nextId in lookup && ConditionsMet(lookup[edges[i].nextId].requiredChecks, checks) :: edges[i].nextId
  }

  /** The nodes of `list` whose required checks all pass, in list order (the Where of GetNextBestNode). */
  function EligibleNodes(list: seq<ConversationNode>, checks: CheckRegistry): (r: seq<ConversationNode>)
    ensures |r| <= |list|
    ensures forall i :: 0 <= i < |r| ==> r[i] in list && ConditionsMet(r[i].requiredChecks, checks)
    ensures forall i :: 0 <= i < |list| && ConditionsMet(list[i].requiredChecks, checks) ==> list[i] in r
  {
    if |list| == 0 then []
    else
      var last := list[|list| - 1];
      EligibleNodes(list[..|list| - 1], checks) + (if ConditionsMet(last.requiredChecks, checks) then [last] else [])
  }

  /**
   * When `list` resolves `edges`, the eligible nodes are, one for one and in order, the nodes the
   * candidate edges lead to.
   */
  lemma {:induction false} EligibleMatchesCandidates(edges: seq<NextNodeModel>, list: seq<ConversationNode>,
                                                     lookup: map<NodeId, ConversationNode>, checks: CheckRegistry, eligibleIds: set<NodeId>)
    requires Resolves(edges, list, lookup)
    requires forall i :: 0 <= i < |edges| ==> (edges[i].nextId in eligibleIds <==> ConditionsMet(list[i].requiredChecks, checks))
    ensures |EligibleNodes(list, checks)| == |Candidates(edges, eligibleIds)|
    ensures forall i :: 0 <= i < |EligibleNodes(list, checks)| ==>
      Candidates(edges, eligibleIds)[i].nextId in lookup && EligibleNodes(list, checks)[i] == lookup[Candidates(edges, eligibleIds)[i].nextId]
    decreases |edges|
  {
    if |edges| > 0 {
      var n := |edges| - 1;
      var edges', list' := edges[..n], list[..n];
      assert forall i :: 0 <= i < n ==> edges'[i] == edges[i] && list'[i] == list[i];
      EligibleMatchesCandidates(edges', list', lookup, checks, eligibleIds);
      EligibleNodesSnoc(list, checks);
      CandidatesSnoc(edges, eligibleIds);
      PairedSnoc(EligibleNodes(list', checks), Candidates(edges', eligibleIds), lookup,
                 edges[n].nextId in eligibleIds, list[n], edges[n]);
    }
  }

  /** Nodes and edges correspond one for one through `lookup`. */
  predicate Paired(nodes: seq<ConversationNode>, edges: seq<NextNodeModel>, lookup: map<NodeId, ConversationNode>) {
    |nodes| == |edges| && forall i :: 0 <= i < |nodes| ==> edges[i].nextId in lookup && nodes[i] == lookup[edges[i].nextId]
  }

  /** Extending two paired sequences by a corresponding node and edge (or by nothing) keeps them paired. */
  lemma PairedSnoc(nodes: seq<ConversationNode>, edges: seq<NextNodeModel>, lookup: map<NodeId, ConversationNode>,
                   keep: bool, node: ConversationNode, edge: NextNodeModel)
    requires Paired(nodes, edges, lookup)
    requires keep ==> edge.nextId in lookup && node == lookup[edge.nextId]
    ensures Paired(nodes + (if keep then [node] else []), edges + (if keep then [edge] else []), lookup)
  {
    if !keep {
      assert nodes + [] == nodes && edges + [] == edges;
    }
  }

  /** EligibleNodes keeps the last node after those of the prefix exactly when it passes. */
  lemma EligibleNodesSnoc(list: seq<ConversationNode>, checks: CheckRegistry)
    requires |list| > 0
    ensures EligibleNodes(list, checks) == EligibleNodes(list[..|list| - 1], checks)
      + (if ConditionsMet(list[|list| - 1].requiredChecks, checks) then [list[|list| - 1]] else [])
  {
  }

  /** A target's id is eligible exactly when the node that edge resolves to passes its checks. */
  lemma EligibleIdsOfResolved(edges: seq<NextNodeModel>, list: seq<ConversationNode>,
                              lookup: map<NodeId, ConversationNode>, checks: CheckRegistry)
    requires Resolves(edges, list, lookup)
    ensures forall i :: 0 <= i < |edges| ==>
      (edges[i].nextId in EligibleIds(edges, lookup, checks) <==> ConditionsMet(list[i].requiredChecks, checks))
  {
  }

  /**
   * The Where(x => AreConditionsMet(x, true)) of GetNextBestNode: each node's eligibility is
   * calculated and recorded, and the eligible ones are kept in list order.
   */
  method EvaluateAll(list: seq<ConversationNode>, checks: CheckRegistry) returns (eligibleNodes: seq<ConversationNode>)
    modifies set i | 0 <= i < |list| :: list[i]
    ensures forall k :: 0 <= k < |list| ==> list[k].isEnabled == Some(ConditionsMet(list[k].requiredChecks, checks))
    ensures eligibleNodes == EligibleNodes(list, checks)
  {
    eligibleNodes := [];
    for i := 0 to |list|
      invariant forall k :: 0 <= k < i ==> list[k].isEnabled == Some(ConditionsMet(list[k].requiredChecks, checks))
      invariant eligibleNodes == EligibleNodes(list[..i], checks)
    {
      assert list[..i + 1][..i] == list[..i];
      var met, invoked := AreConditionsMet(list[i], checks, true);
      if met {
        eligibleNodes := eligibleNodes + [list[i]];
      }
    }
    assert list[..|list|] == list;
  }

  /** Whatever the decision picks is an eligible node of the lookup, recorded enabled. */
  lemma ChosenIsEnabled(edges: seq<NextNodeModel>, list: seq<ConversationNode>, lookup: map<NodeId, ConversationNode>,
                        checks: CheckRegistry, nextNodeId: Option<NodeId>, best: ConversationNode?)
    requires LookupClosed(lookup) && Resolves(edges, list, lookup)
    requires forall k :: 0 <= k < |list| ==> list[k].isEnabled == Some(ConditionsMet(list[k].requiredChecks, checks))
    requires var choice := SelectNext(edges, EligibleIds(edges, lookup, checks), nextNodeId);
      && (best == null <==> choice.NoNode?)
      && (choice.Exactly? ==> choice.id in lookup && best == lookup[choice.id])
      && (choice.OneOf? ==> best != null && best.id in choice.group && best.id in lookup && best == lookup[best.id])
    ensures best != null ==> (best.id in EligibleIds(edges, lookup, checks) && best.id in lookup && lookup[best.id] == best
      && best.isEnabled == Some(true))
  {
    var eligibleIds := EligibleIds(edges, lookup, checks);
    ChoiceIsEligible(edges, eligibleIds, nextNodeId);
    var choice := SelectNext(edges, eligibleIds, nextNodeId);
    if choice.Exactly? {
      CachedEnabled(edges, list, lookup, checks, choice.id);
    } else if choice.OneOf? {
      CachedEnabled(edges, list, lookup, checks, best.id);
    }
  }

  /** A node some edge leads to, once evaluated, is recorded enabled exactly when its id is eligible. */
  lemma CachedEnabled(edges: seq<NextNodeModel>, list: seq<ConversationNode>, lookup: map<NodeId, ConversationNode>,
                      checks: CheckRegistry, id: NodeId)
    requires Resolves(edges, list, lookup) && id in Targets(edges)
    requires forall k :: 0 <= k < |list| ==> list[k].isEnabled == Some(ConditionsMet(list[k].requiredChecks, checks))
    ensures id in lookup && (lookup[id].isEnabled == Some(true) <==> id in EligibleIds(edges, lookup, checks))
  {
    var k :| 0 <= k < |edges| && Targets(edges)[k] == id;
    assert list[k] == lookup[id];
    EligibleIdsOfResolved(edges, list, lookup, checks);
  }

  /**
   * The choice part of GetNextBestNode, once every cached next node carries its eligibility;
   * it is SelectNext's decision for the current node's edges.
   */
  method ChooseNext(edges: seq<NextNodeModel>, list: seq<ConversationNode>, lookup: map<NodeId, ConversationNode>,
                    eligibleNodes: seq<ConversationNode>, nextNodeId: Option<NodeId>, checks: CheckRegistry)
    returns (best: ConversationNode?)
    requires LookupClosed(lookup) && Resolves(edges, list, lookup)
    requires forall k :: 0 <= k < |list| ==> list[k].isEnabled == Some(ConditionsMet(list[k].requiredChecks, checks))
    requires eligibleNodes == EligibleNodes(list, checks)
    ensures var choice := SelectNext(edges, EligibleIds(edges, lookup, checks), nextNodeId);
      && (best == null <==> choice.NoNode?)
      && (choice.Exactly? ==> choice.id in lookup && best == lookup[choice.id])
      && (choice.OneOf? ==> best != null && best.id in choice.group && best.id in lookup && best == lookup[best.id])
    ensures best != null ==> (best.id in EligibleIds(edges, lookup, checks) && best.id in lookup && lookup[best.id] == best
      && best.isEnabled == Some(true))
  {
    best := SelectAmong(edges, list, lookup, eligibleNodes, nextNodeId, checks);
    ChosenIsEnabled(edges, list, lookup, checks, nextNodeId, best);
  }

  /** The decision of ChooseNext, branch by branch as GetNextBestNode takes them. */
  method SelectAmong(edges: seq<NextNodeModel>, list: seq<ConversationNode>, lookup: map<NodeId, ConversationNode>,
                     eligibleNodes: seq<ConversationNode>, nextNodeId: Option<NodeId>, checks: CheckRegistry)
    returns (best: ConversationNode?)
    requires LookupClosed(lookup) && Resolves(edges, list, lookup)
    requires forall k :: 0 <= k < |list| ==> list[k].isEnabled == Some(ConditionsMet(list[k].requiredChecks, checks))
    requires eligibleNodes == EligibleNodes(list, checks)
    ensures var choice := SelectNext(edges, EligibleIds(edges, lookup, checks), nextNodeId);
      && (best == null <==> choice.NoNode?)
      && (choice.Exactly? ==> choice.id in lookup && best == lookup[choice.id])
      && (choice.OneOf? ==> best != null && best.id in choice.group && best.id in lookup && best == lookup[best.id])
  {
    var eligibleIds := EligibleIds(edges, lookup, checks);
    EligibleIdsOfResolved(edges, list, lookup, checks);
    EligibleMatchesCandidates(edges, list, lookup, checks, eligibleIds);
    var candidates := Candidates(edges, eligibleIds);
    ChoiceIsEligible(edges, eligibleIds, nextNodeId);

    if |eligibleNodes| == 0 {
      return null;
    }

    if nextNodeId.Some? {
      var k := FirstWithId(list, nextNodeId.value);
      if k >= 0 {
        assert Targets(edges)[k] == nextNodeId.value;
        var selectedNode := list[k];
        return if selectedNode.isEnabled == Some(true) then selectedNode else null;
      }
      assert nextNodeId.value !in Targets(edges) by {
        forall j | 0 <= j < |edges|
          ensures Targets(edges)[j] != nextNodeId.value
        {
          assert list[j].id == edges[j].nextId;
        }
      }
    }

    if |eligibleNodes| == 1 {
      return eligibleNodes[0];
    }

    var nextNodeSet := TopGroup(candidates);
    TopGroupNonEmpty(candidates);
    FilterMembers(candidates, BestPriority(candidates));
    assert nextNodeSet[0] in candidates;
    if |nextNodeSet| == 1 {
      return lookup[nextNodeSet[0].nextId];
    }
    var pick := ListExtensions.GetRandomEntry(nextNodeSet);
    TargetOfMember(nextNodeSet, pick.value);
    assert pick.value in candidates;
    return lookup[pick.value.nextId];
  }

  class Conversation {
    var name: Option<string>
    var nodes: Option<seq<ConversationNode>>
    var nextNodes: Option<seq<ConversationNode>>
    var currentNode: ConversationNode?
    var nodeLookup: map<NodeId, ConversationNode>

    /**
     * The lookup is closed, every listed node is in it, the cursor is in it, and NextNodes, when
     * present, resolves the cursor's edges.
     */
    ghost predicate Valid()
      reads this
    {
      && LookupClosed(nodeLookup)
      && (nodes.Some? ==> forall i :: 0 <= i < |nodes.value| ==> nodes.value[i].id in nodeLookup && nodeLookup[nodes.value[i].id] == nodes.value[i])
      && (currentNode != null ==> currentNode.id in nodeLookup && nodeLookup[currentNode.id] == currentNode)
      && (nextNodes.Some? ==> currentNode != null && Resolves(currentNode.nextNodes, nextNodes.value, nodeLookup))
    }

    /** A new conversation has an empty node list and no cursor. */
    constructor ()
      ensures Valid()
      ensures name == None && nodes == Some([]) && nextNodes == None && currentNode == null && nodeLookup == map[]
    {
      name := None;
      nodes := Some([]);
      nextNodes := None;
      currentNode := null;
      nodeLookup := map[];
    }

    /**
     * SetNodeAsCurrent: moves the cursor and rebuilds NextNodes, one lookup per edge of the node,
     * in edge order (empty when the node has no edges).
     */
    method SetNodeAsCurrent(convoNode: ConversationNode)
      requires LookupClosed(nodeLookup) && convoNode.id in nodeLookup && nodeLookup[convoNode.id] == convoNode
      modifies this
      ensures currentNode == convoNode
      ensures nextNodes.Some? && Resolves(convoNode.nextNodes, nextNodes.value, nodeLookup)
      ensures forall i :: 0 <= i < |convoNode.nextNodes| ==> nextNodes.value[i].id == convoNode.nextNodes[i].nextId
      ensures name == old(name) && nodes == old(nodes) && nodeLookup == old(nodeLookup)
    {
      currentNode := convoNode;
      var list: seq<ConversationNode> := [];
      var edges := convoNode.nextNodes;
      for i := 0 to |edges|
        invariant |list| == i
        invariant forall k :: 0 <= k < i ==> edges[k].nextId in nodeLookup && list[k] == nodeLookup[edges[k].nextId]
      {
        list := list + [nodeLookup[edges[i].nextId]];
      }
      nextNodes := Some(list);
    }

    /** The CurrentNode setter: a null value is ignored. */
    method SetCurrentNode(value: ConversationNode?)
      requires Valid()
      requires value != null ==> value.id in nodeLookup && nodeLookup[value.id] == value
      modifies this
      ensures Valid()
      ensures value == null ==> currentNode == old(currentNode) && nextNodes == old(nextNodes)
      ensures value != null ==> currentNode == value && nextNodes.Some? && Resolves(value.nextNodes, nextNodes.value, nodeLookup)
      ensures name == old(name) && nodes == old(nodes) && nodeLookup == old(nodeLookup)
    {
      if value != null {
        SetNodeAsCurrent(value);
      }
    }

    /**
     * JumpToNode: moves the cursor to the node with this id without evaluating its checks or
     * performing its actions (no node is modified); an unknown id changes nothing.
     */
    method JumpToNode(nodeID: NodeId)
      requires Valid() && nodes.Some?
      modifies this
      ensures Valid()
      ensures name == old(name) && nodes == old(nodes) && nodeLookup == old(nodeLookup)
      ensures (forall i :: 0 <= i < |nodes.value| ==> nodes.value[i].id != nodeID) ==>
        currentNode == old(currentNode) && nextNodes == old(nextNodes)
      ensures (exists i :: 0 <= i < |nodes.value| && nodes.value[i].id == nodeID) ==>
        currentNode != null && currentNode.id == nodeID && currentNode in nodes.value
        && nextNodes.Some? && Resolves(currentNode.nextNodes, nextNodes.value, nodeLookup)
    {
      var k := FirstWithId(nodes.value, nodeID);
      if k >= 0 {
        SetCurrentNode(nodes.value[k]);
      }
    }

    /**
     * GetNextBestNode: evaluates and records the eligibility of every cached next node, then
     * chooses as SelectNext decides: the requested node if an edge leads to it (null when it is
     * not eligible), the only eligible node, or a node of the top-ranked group of eligible edges,
     * drawn at random when the group has several.
     */
    method GetNextBestNode(nextNodeId: Option<NodeId>, checks: CheckRegistry) returns (best: ConversationNode?)
      requires Valid() && nextNodes.Some?
      modifies set i | 0 <= i < |nextNodes.value| :: nextNodes.value[i]
      ensures forall i :: 0 <= i < |nextNodes.value| ==>
        nextNodes.value[i].isEnabled == Some(ConditionsMet(nextNodes.value[i].requiredChecks, checks))
      ensures currentNode != null
      ensures var choice := SelectNext(currentNode.nextNodes, EligibleIds(currentNode.nextNodes, nodeLookup, checks), nextNodeId);
        && (best == null <==> choice.NoNode?)
        && (choice.Exactly? ==> choice.id in nodeLookup && best == nodeLookup[choice.id])
        && (choice.OneOf? ==> best != null && best.id in choice.group && best.id in nodeLookup && best == nodeLookup[best.id])
      ensures best != null ==> (best.id in EligibleIds(currentNode.nextNodes, nodeLookup, checks) && best.id in nodeLookup
        && nodeLookup[best.id] == best && best.isEnabled == Some(true))
    {
      var eligibleNodes := EvaluateAll(nextNodes.value, checks);
      best := ChooseNext(currentNode.nextNodes, nextNodes.value, nodeLookup, eligibleNodes, nextNodeId, checks);
    }

    /**
     * MoveToNextNode: chooses the next best node; when there is one, activates it (its actions
     * are performed, in order, when it is enabled) and makes it the current node. Otherwise the
     * cursor stays where it is.
     */
    method MoveToNextNode(nextNodeId: Option<NodeId>, checks: CheckRegistry, actions: ActionRegistry)
      returns (moved: bool, trace: seq<DialogueCheck>)
      requires Valid() && nextNodes.Some?
      modifies this, set i | 0 <= i < |nextNodes.value| :: nextNodes.value[i]
      ensures Valid()
      ensures name == old(name) && nodes == old(nodes) && nodeLookup == old(nodeLookup)
      ensures old(currentNode) != null
      ensures forall i :: 0 <= i < |old(nextNodes).value| ==>
        old(nextNodes).value[i].isEnabled == Some(ConditionsMet(old(nextNodes).value[i].requiredChecks, checks))
      ensures var choice := SelectNext(old(currentNode).nextNodes, EligibleIds(old(currentNode).nextNodes, nodeLookup, checks), nextNodeId);
        && (moved <==> !choice.NoNode?)
        && (choice.Exactly? ==> currentNode != null && currentNode.id == choice.id)
        && (choice.OneOf? ==> currentNode != null && currentNode.id in choice.group)
      ensures !moved ==> currentNode == old(currentNode) && nextNodes == old(nextNodes) && trace == []
      ensures moved ==> (currentNode != null && currentNode.id in EligibleIds(old(currentNode).nextNodes, nodeLookup, checks)
        && currentNode.isEnabled == Some(true) && trace == Performed(currentNode.dialogueActions, actions)
        && nextNodes.Some? && Resolves(currentNode.nextNodes, nextNodes.value, nodeLookup))
    {
      var bestNode := GetNextBestNode(nextNodeId, checks);
      if bestNode == null {
        return false, [];
      }
      trace := Advance(bestNode, checks, actions);
      return true, trace;
    }

    /**
     * The move itself, for an enabled node of the lookup: ActivateNode performs its actions and
     * SetNodeAsCurrent moves the cursor. The node's recorded eligibility is kept.
     */
    method Advance(bestNode: ConversationNode, checks: CheckRegistry, actions: ActionRegistry) returns (trace: seq<DialogueCheck>)
      requires Valid() && bestNode.id in nodeLookup && nodeLookup[bestNode.id] == bestNode
      requires bestNode.isEnabled == Some(true)
      modifies this, bestNode
      ensures Valid() && bestNode.isEnabled == Some(true)
      ensures name == old(name) && nodes == old(nodes) && nodeLookup == old(nodeLookup)
      ensures currentNode == bestNode && trace == Performed(bestNode.dialogueActions, actions)
      ensures nextNodes.Some? && Resolves(bestNode.nextNodes, nextNodes.value, nodeLookup)
    {
      trace := ConversationEngine.ActivateNode(bestNode, checks, actions);
      SetNodeAsCurrent(bestNode);
    }

    /**
     * The accepted half of LoadConversation: the lookup is built from the new nodes, and the
     * cursor moves to the initial node through the CurrentNode setter.
     */
    method Install(list: seq<NodeRecord>, created: seq<ConversationNode>)
      requires WellFormed(list) && |created| == |list|
      requires forall k :: 0 <= k < |list| ==> created[k].Record() == list[k]
      requires nodes == Some(created)
      modifies this
      ensures Valid()
      ensures name == old(name) && nodes == old(nodes)
      ensures nodeLookup.Keys == Elements(Ids(list))
      ensures currentNode != null && currentNode.initial && currentNode in created
      ensures nextNodes.Some? && Resolves(currentNode.nextNodes, nextNodes.value, nodeLookup)
    {
      nodeLookup := ToLookup(list, created);
      HasInitial(list, created);
      var initial := FirstInitial(created);
      SetNodeAsCurrent(created[initial]);
    }

    /**
     * LoadConversation: takes the conversation's name and node list and validates it. A refused
     * list clears Name, Nodes and NextNodes and returns false; the cursor and the lookup, which
     * clearing does not reach, are kept. An accepted list builds the id lookup and moves the
     * cursor to the initial node.
     */
    method LoadConversation(convoName: Option<string>, records: Option<seq<NodeRecord>>) returns (ok: bool)
      requires Valid()
      modifies this
      ensures Valid()
      ensures ok <==> ValidateConversation(records) == Verdict.Valid
      ensures !ok ==> name == None && nodes == None && nextNodes == None
      ensures !ok ==> currentNode == old(currentNode) && nodeLookup == old(nodeLookup)
      ensures ok ==> name == convoName && nodes.Some? && records.Some? && |nodes.value| == |records.value|
      ensures ok ==> forall i :: 0 <= i < |records.value| ==> fresh(nodes.value[i]) && nodes.value[i].Record() == records.value[i]
      ensures ok ==> nodeLookup.Keys == Elements(Ids(records.value))
      ensures ok ==> currentNode != null && currentNode.initial && currentNode in nodes.value
      ensures ok ==> nextNodes.Some? && Resolves(currentNode.nextNodes, nextNodes.value, nodeLookup)
    {
      var list := if records.Some? then records.value else [];
      var created := CreateNodes(list);
      name := convoName;
      nodes := if records.Some? then Some(created) else None;
      nextNodes := None;

      if ValidateConversation(records) != Verdict.Valid {
        // ClearProperties: every public property with a setter that accepts null.
        name := None;
        nodes := None;
        nextNodes := None;
        return false;
      }

      ValidIffWellFormed(records);
      Install(list, created);
      return true;
    }
  }

  /** The JSON load: one new, not yet evaluated node per record, in list order. */
  method CreateNodes(list: seq<NodeRecord>) returns (created: seq<ConversationNode>)
    ensures |created| == |list|
    ensures forall k :: 0 <= k < |list| ==> fresh(created[k]) && created[k].Record() == list[k] && created[k].isEnabled == None
  {
    created := [];
    for i := 0 to |list|
      invariant |created| == i
      invariant forall k :: 0 <= k < i ==> fresh(created[k]) && created[k].Record() == list[k] && created[k].isEnabled == None
    {
      var node := new ConversationNode(list[i]);
      created := created + [node];
    }
  }

  /** Nodes.ToDictionary(x => x.Id): for a well-formed list, each node under its id, closed under edges. */
  method ToLookup(list: seq<NodeRecord>, created: seq<ConversationNode>) returns (lookup: map<NodeId, ConversationNode>)
    requires WellFormed(list) && |created| == |list|
    requires forall k :: 0 <= k < |list| ==> created[k].Record() == list[k]
    ensures lookup.Keys == Elements(Ids(list))
    ensures forall k :: 0 <= k < |list| ==> created[k].id in lookup && lookup[created[k].id] == created[k]
    ensures LookupClosed(lookup)
  {
    assert forall k :: 0 <= k < |list| ==> created[k].id == list[k].id;
    lookup := map[];
    for i := 0 to |created|
      invariant lookup.Keys == set k | 0 <= k < i :: list[k].id
      invariant forall k :: 0 <= k < i ==> created[k].id in lookup && lookup[created[k].id] == created[k]
    {
      lookup := lookup[created[i].id := created[i]];
    }
    forall x
      ensures x in lookup <==> x in Elements(Ids(list))
    {
      IdSetMembers(list, x);
    }
    LookupOfValidList(list, created, lookup);
  }

  /** An accepted list has an initial node, so the load always finds one. */
  lemma HasInitial(list: seq<NodeRecord>, created: seq<ConversationNode>)
    requires WellFormed(list) && |created| == |list|
    requires forall k :: 0 <= k < |list| ==> created[k].Record() == list[k]
    ensures FirstInitial(created) >= 0
  {
    var j :| 0 <= j < |list| && list[j].initial;
    assert created[j].initial;
  }

  /** The lookup built from a well-formed list is closed under its edges. */
  lemma LookupOfValidList(list: seq<NodeRecord>, created: seq<ConversationNode>, lookup: map<NodeId, ConversationNode>)
    requires WellFormed(list) && |created| == |list|
    requires forall k :: 0 <= k < |list| ==> created[k].Record() == list[k]
    requires lookup.Keys == Elements(Ids(list))
    requires forall k :: 0 <= k < |list| ==> created[k].id in lookup && lookup[created[k].id] == created[k]
    ensures LookupClosed(lookup)
  {
    forall id | id in lookup
      ensures lookup[id].id == id
      ensures forall j :: 0 <= j < |lookup[id].nextNodes| ==> lookup[id].nextNodes[j].nextId in lookup
    {
      IdSetMembers(list, id);
      var k :| 0 <= k < |list| && list[k].id == id;
      assert created[k].id == id;
      forall j | 0 <= j < |lookup[id].nextNodes|
        ensures lookup[id].nextNodes[j].nextId in lookup
      {
        var target := list[k].nextNodes[j].nextId;
        var m :| 0 <= m < |list| && list[m].id == target;
        IdSetMembers(list, target);
      }
    }
  }
}
