/** ConversationNode and the records it is loaded from: one thing said in a conversation. */
module ConversationNodes {
  import opened Wrappers

  /** A node's Guid, as a number. */
  type NodeId = int

  /** The parameters a check or an action is given. */
  type Params = map<string, string>

  /** DialogueCheck: the key of a check or action, and its parameters. */
  datatype DialogueCheck = DialogueCheck(key: string, params: Params)

  /** NextNodeModel: an edge to another node, with an optional priority (lower goes first). */
  datatype NextNodeModel = NextNodeModel(nextId: NodeId, priority: Option<int>)

  /**
   * A node as the conversation file describes it. A list the file leaves out (null) is the
   * empty list here: every use treats the two alike.
   */
  datatype NodeRecord = NodeRecord(
    id: NodeId,
    dialogue: string,
    initial: bool,
    requiredChecks: seq<DialogueCheck>,
    dialogueActions: seq<DialogueCheck>,
    nextNodes: seq<NextNodeModel>)

  /**
   * A node of a loaded conversation. Its description is fixed once loaded; only the
   * tri-state IsEnabled (None: not yet calculated) changes, and only through SetEnabled.
   */
  class ConversationNode {
    const id: NodeId
    const dialogue: string
    const initial: bool
    const requiredChecks: seq<DialogueCheck>
    const dialogueActions: seq<DialogueCheck>
    const nextNodes: seq<NextNodeModel>
    var isEnabled: Option<bool>

    /** A node built from its record has not had its eligibility calculated. */
    constructor (record: NodeRecord)
      ensures Record() == record
      ensures isEnabled == None
    {
      id := record.id;
      dialogue := record.dialogue;
      initial := record.initial;
      requiredChecks := record.requiredChecks;
      dialogueActions := record.dialogueActions;
      nextNodes := record.nextNodes;
      isEnabled := None;
    }

    /** The node's description. */
    function Record(): NodeRecord {
      NodeRecord(id, dialogue, initial, requiredChecks, dialogueActions, nextNodes)
    }

    /** SetEnabled: records the calculated eligibility (true when no value is given). */
    method SetEnabled(value: bool := true)
      modifies this
      ensures isEnabled == Some(value)
    {
      isEnabled := Some(value);
    }
  }
}
