/** Whole conversations run through Conversation: loading, refusing and moving along. */
module ConversationScenarios {
  import opened Wrappers
  import opened ConversationNodes
  import opened ConversationEngine
  import opened ConversationRules
  import opened Conversations

  /** Node 1 (initial) leads to node 2 with priority 1 and to node 3 with priority 2. */
  function Simple(): seq<NodeRecord> {
    [ NodeRecord(1, "Hello.", true, [], [], [NextNodeModel(2, Some(1)), NextNodeModel(3, Some(2))]),
      NodeRecord(2, "First choice.", false, [], [DialogueCheck("wave", map[])], []),
      NodeRecord(3, "Second choice.", false, [], [], []) ]
  }

  lemma SimpleIsWellFormed()
    ensures WellFormed(Simple())
  {
    var r := Simple();
    assert |r| == 3 && r[0].initial && !r[1].initial && !r[2].initial;
    assert r[0].id == 1 && r[1].id == 2 && r[2].id == 3;
    assert r[0].nextNodes == [NextNodeModel(2, Some(1)), NextNodeModel(3, Some(2))] && r[1].nextNodes == [] && r[2].nextNodes == [];
    assert ExactlyOneInitial(r) by {
      assert forall j :: 0 <= j < |r| && r[j].initial ==> j == 0;
    }
    assert EdgesClosed(r) by {
      forall i, j | 0 <= i < |r| && 0 <= j < |r[i].nextNodes|
        ensures exists k :: 0 <= k < |r| && r[k].id == r[i].nextNodes[j].nextId
      {
        assert i == 0;
        if j == 0 {
          assert r[1].id == r[i].nextNodes[j].nextId;
        } else {
          assert r[2].id == r[i].nextNodes[j].nextId;
        }
      }
    }
  }

  /** The simple conversation passes validation. */
  lemma SimpleIsValid()
    ensures ValidateConversation(Some(Simple())) == Verdict.Valid
  {
    SimpleIsWellFormed();
    ValidIffWellFormed(Some(Simple()));
  }

  /** After the simple conversation is loaded, every node is stored under its id. */
  lemma LoadedLookup(convo: Conversation)
    requires convo.Valid() && convo.nodes.Some? && |convo.nodes.value| == 3
    requires forall i :: 0 <= i < 3 ==> convo.nodes.value[i].Record() == Simple()[i]
    ensures 1 in convo.nodeLookup && convo.nodeLookup[1] == convo.nodes.value[0]
    ensures 2 in convo.nodeLookup && convo.nodeLookup[2] == convo.nodes.value[1]
    ensures 3 in convo.nodeLookup && convo.nodeLookup[3] == convo.nodes.value[2]
  {
    assert convo.nodes.value[0].id == 1 && convo.nodes.value[1].id == 2 && convo.nodes.value[2].id == 3;
  }

  /** Loads the simple conversation into a new Conversation, checking where the cursor lands. */
  method LoadSimple(records: seq<NodeRecord>) returns (convo: Conversation, loaded: bool)
    requires records == Simple()
    ensures loaded
    ensures convo.Valid() && convo.name == Some("Simple") && convo.nodes.Some? && |convo.nodes.value| == 3
    ensures forall i :: 0 <= i < 3 ==> convo.nodes.value[i].Record() == Simple()[i]
    ensures convo.currentNode == convo.nodes.value[0] && convo.nextNodes == Some([convo.nodes.value[1], convo.nodes.value[2]])
    ensures fresh(convo) && forall i :: 0 <= i < 3 ==> fresh(convo.nodes.value[i])
  {
    convo := new Conversation();
    SimpleIsValid();
    loaded := convo.LoadConversation(Some("Simple"), Some(records));
    SimpleCursor(convo);
    SimpleNextNodes(convo);
  }

  /** The only initial node of the simple conversation is its first. */
  lemma SimpleCursor(convo: Conversation)
    requires convo.nodes.Some? && |convo.nodes.value| == 3
    requires forall i :: 0 <= i < 3 ==> convo.nodes.value[i].Record() == Simple()[i]
    requires convo.currentNode != null && convo.currentNode.initial && convo.currentNode in convo.nodes.value
    ensures convo.currentNode == convo.nodes.value[0]
  {
    var i :| 0 <= i < 3 && convo.nodes.value[i] == convo.currentNode;
    assert convo.currentNode.Record() == Simple()[i];
  }

  /** At the initial node of the simple conversation, the cached next nodes are nodes 2 and 3. */
  lemma SimpleNextNodes(convo: Conversation)
    requires convo.Valid() && convo.nodes.Some? && |convo.nodes.value| == 3
    requires forall i :: 0 <= i < 3 ==> convo.nodes.value[i].Record() == Simple()[i]
    requires convo.currentNode == convo.nodes.value[0] && convo.nextNodes.Some?
    ensures convo.nextNodes.value == [convo.nodes.value[1], convo.nodes.value[2]]
  {
    LoadedLookup(convo);
    var edges := convo.currentNode.nextNodes;
    assert edges == [NextNodeModel(2, Some(1)), NextNodeModel(3, Some(2))];
    assert convo.nextNodes.value[0] == convo.nodeLookup[2];
    assert convo.nextNodes.value[1] == convo.nodeLookup[3];
  }

  /** A valid conversation loads under its name, with the cursor on its initial node. */
  method LoadScenario() returns (loaded: bool, name: Option<string>, currentId: NodeId)
    ensures loaded && name == Some("Simple") && currentId == 1
  {
    var convo;
    convo, loaded := LoadSimple(Simple());
    assert convo.nodes.value[0].Record() == Simple()[0];
    name, currentId := convo.name, convo.currentNode.id;
  }

  /** A list with two initial nodes is refused, and the name is cleared. */
  method RefusedLoadScenario() returns (loaded: bool, name: Option<string>)
    ensures !loaded && name == None
  {
    var twoInitial := [NodeRecord(1, "A", true, [], [], []), NodeRecord(2, "B", true, [], [], [])];
    assert !ExactlyOneInitial(twoInitial) by {
      forall i | 0 <= i < 2 && twoInitial[i].initial
        ensures exists j :: 0 <= j < 2 && twoInitial[j].initial && j != i
      {
        assert twoInitial[1 - i].initial;
      }
    }
    ValidIffWellFormed(Some(twoInitial));
    var convo := new Conversation();
    loaded := convo.LoadConversation(Some("Twice"), Some(twoInitial));
    name := convo.name;
  }

  /** At the start of the simple conversation, with no checks required, both choices are eligible. */
  lemma BothEligible(convo: Conversation)
    requires convo.Valid() && convo.nodes.Some? && |convo.nodes.value| == 3
    requires forall i :: 0 <= i < 3 ==> convo.nodes.value[i].Record() == Simple()[i]
    ensures EligibleIds(Simple()[0].nextNodes, convo.nodeLookup, map[]) == {2, 3}
  {
    LoadedLookup(convo);
    var edges := Simple()[0].nextNodes;
    assert edges[0].nextId == 2 && edges[1].nextId == 3;
  }

  /**
   * From the initial node, with both choices eligible and no request, the conversation moves to
   * node 2, the better priority, and performs its registered action.
   */
  method PriorityMoveScenario() returns (moved: bool, currentId: NodeId, trace: seq<DialogueCheck>)
    ensures moved && currentId == 2 && trace == [DialogueCheck("wave", map[])]
  {
    var convo, loaded := LoadSimple(Simple());
    BothEligible(convo);
    LoadedLookup(convo);
    assert fresh(convo.nodes.value[1]) && fresh(convo.nodes.value[2]);
    moved, trace := MoveFromStart(convo);
    currentId := convo.currentNode.id;
  }

  /** The move of the priority scenario, from any conversation standing where it starts. */
  method MoveFromStart(convo: Conversation) returns (moved: bool, trace: seq<DialogueCheck>)
    requires convo.Valid() && convo.nextNodes.Some? && convo.currentNode != null
    requires convo.currentNode.nextNodes == [NextNodeModel(2, Some(1)), NextNodeModel(3, Some(2))]
    requires EligibleIds(convo.currentNode.nextNodes, convo.nodeLookup, map[]) == {2, 3}
    requires 2 in convo.nodeLookup && convo.nodeLookup[2].dialogueActions == [DialogueCheck("wave", map[])]
    modifies convo, set i | 0 <= i < |convo.nextNodes.value| :: convo.nextNodes.value[i]
    ensures moved && convo.currentNode != null && convo.currentNode.id == 2 && trace == [DialogueCheck("wave", map[])]
  {
    TwoPrioritiesScenario();
    WavePerformed();
    moved, trace := convo.MoveToNextNode(None, map[], {"wave"});
  }

  /** The registered action "wave" is performed. */
  lemma WavePerformed()
    ensures Performed([DialogueCheck("wave", map[])], {"wave"}) == [DialogueCheck("wave", map[])]
  {
    assert [DialogueCheck("wave", map[])][..0] == [];
  }

  /** From the initial node, a request for node 3, which is eligible, moves there. */
  method RequestedMoveScenario() returns (moved: bool, currentId: NodeId)
    ensures moved && currentId == 3
  {
    var convo, loaded := LoadSimple(Simple());
    BothEligible(convo);
    assert fresh(convo.nodes.value[1]) && fresh(convo.nodes.value[2]);
    var edges := Simple()[0].nextNodes;
    assert Targets(edges)[1] == 3;
    RequestedAmongTargets(edges, {2, 3}, 3);
    var trace;
    moved, trace := convo.MoveToNextNode(Some(3), map[], {});
    currentId := convo.currentNode.id;
  }
}
