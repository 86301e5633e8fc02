/**
 * ConversationEngine: evaluates a node's required checks and performs its actions. The check
 * and action implementations found by plugin discovery are given as registries keyed by name.
 */
module ConversationEngine {
  import opened Wrappers
  import opened ConversationNodes

  /** The registered checks: each decides, from its parameters, whether a node may execute. */
  type CheckRegistry = map<string, Params -> bool>

  /** The names of the registered actions; performing one is recorded in a trace. */
  type ActionRegistry = set<string>

  /** A required check passes when it is registered and its implementation returns true. */
  predicate Passes(check: DialogueCheck, checks: CheckRegistry) {
    check.key in checks && checks[check.key](check.params)
  }

  /** Whether a node with these required checks may execute: every one of them passes. */
  predicate ConditionsMet(requiredChecks: seq<DialogueCheck>, checks: CheckRegistry) {
    forall i :: 0 <= i < |requiredChecks| ==> Passes(requiredChecks[i], checks)
  }

  /** The entries of `list` whose key is in `keys`, in list order. */
  function Registered(list: seq<DialogueCheck>, keys: set<string>): (r: seq<DialogueCheck>)
    ensures |r| <= |list|
  {
    if |list| == 0 then []
    else Registered(list[..|list| - 1], keys) + (if list[|list| - 1].key in keys then [list[|list| - 1]] else [])
  }

  /** The index of the first required check that does not pass, or the length when all pass. */
  function FirstFailure(requiredChecks: seq<DialogueCheck>, checks: CheckRegistry): (r: nat)
    ensures r <= |requiredChecks|
    ensures forall i :: 0 <= i < r ==> Passes(requiredChecks[i], checks)
    ensures r < |requiredChecks| ==> !Passes(requiredChecks[r], checks)
    decreases |requiredChecks|
  {
    if |requiredChecks| == 0 || !Passes(requiredChecks[0], checks) then 0
    else 1 + FirstFailure(requiredChecks[1..], checks)
  }

  /** How many required checks are looked at: all of them up to and including the first failure. */
  function Examined(requiredChecks: seq<DialogueCheck>, checks: CheckRegistry): (r: nat)
    ensures r <= |requiredChecks|
  {
    var f := FirstFailure(requiredChecks, checks);
    if f < |requiredChecks| then f + 1 else f
  }

  /** The checks whose implementation is called: the registered ones among those looked at. */
  function Invoked(requiredChecks: seq<DialogueCheck>, checks: CheckRegistry): seq<DialogueCheck> {
    Registered(requiredChecks[..Examined(requiredChecks, checks)], checks.Keys)
  }

  /** The actions performed for a node's action list: the registered ones, in list order. */
  function Performed(dialogueActions: seq<DialogueCheck>, actions: ActionRegistry): seq<DialogueCheck> {
    Registered(dialogueActions, actions)
  }

  /**
   * AreConditionsMet: runs the required checks in order, stopping at the first that fails (an
   * unregistered key fails); with `isAttempt` the result is recorded in the node.
   * `invoked` is the list of checks whose implementation was called.
   */
  method AreConditionsMet(convoNode: ConversationNode, checks: CheckRegistry, isAttempt: bool := false)
    returns (checkSuccessful: bool, invoked: seq<DialogueCheck>)
    modifies convoNode
    ensures checkSuccessful == ConditionsMet(convoNode.requiredChecks, checks)
    ensures invoked == Invoked(convoNode.requiredChecks, checks)
    ensures isAttempt ==> convoNode.isEnabled == Some(checkSuccessful)
    ensures !isAttempt ==> convoNode.isEnabled == old(convoNode.isEnabled)
  {
    checkSuccessful, invoked := RunChecks(convoNode.requiredChecks, checks);
    if isAttempt {
      convoNode.SetEnabled(checkSuccessful);
    }
  }

  /** The loop of AreConditionsMet over the node's required checks. */
  method RunChecks(requiredChecks: seq<DialogueCheck>, checks: CheckRegistry)
    returns (checkSuccessful: bool, invoked: seq<DialogueCheck>)
    ensures checkSuccessful == ConditionsMet(requiredChecks, checks)
    ensures invoked == Invoked(requiredChecks, checks)
  {
    checkSuccessful := true;
    invoked := [];
    for i := 0 to |requiredChecks|
      invariant checkSuccessful <==> FirstFailure(requiredChecks, checks) >= i
      invariant invoked == Registered(requiredChecks[..if checkSuccessful then i else Examined(requiredChecks, checks)], checks.Keys)
    {
      if !checkSuccessful {
        continue;
      }
      assert requiredChecks[..i + 1][..i] == requiredChecks[..i];
      var x := requiredChecks[i];
      if x.key in checks {
        checkSuccessful := checks[x.key](x.params);
        invoked := invoked + [x];
      } else {
        checkSuccessful := false;
      }
    }
    if checkSuccessful {
      assert requiredChecks[..|requiredChecks|] == requiredChecks;
    }
  }

  /**
   * ActivateNode: a node not yet evaluated is evaluated and its result recorded; a node that is
   * not enabled performs nothing; otherwise its registered actions are performed in list order.
   */
  method ActivateNode(convoNode: ConversationNode, checks: CheckRegistry, actions: ActionRegistry)
    returns (trace: seq<DialogueCheck>)
    modifies convoNode
    ensures old(convoNode.isEnabled).Some? ==> convoNode.isEnabled == old(convoNode.isEnabled)
    ensures old(convoNode.isEnabled).None? ==> convoNode.isEnabled == Some(ConditionsMet(convoNode.requiredChecks, checks))
    ensures convoNode.isEnabled.Some?
    ensures trace == if convoNode.isEnabled.value then Performed(convoNode.dialogueActions, actions) else []
  {
    if convoNode.isEnabled.None? {
      var met, invoked := AreConditionsMet(convoNode, checks, true);
    }
    if !convoNode.isEnabled.value {
      return [];
    }
    var dialogueActions := convoNode.dialogueActions;
    trace := [];
    for i := 0 to |dialogueActions|
      invariant trace == Performed(dialogueActions[..i], actions)
    {
      assert dialogueActions[..i + 1][..i] == dialogueActions[..i];
      if dialogueActions[i].key in actions {
        trace := trace + [dialogueActions[i]];
      }
    }
    assert dialogueActions[..|dialogueActions|] == dialogueActions;
  }

  /** Only entries of the list are kept. */
  lemma {:induction false} RegisteredSubset(list: seq<DialogueCheck>, keys: set<string>)
    ensures forall x :: x in Registered(list, keys) ==> x in list && x.key in keys
    decreases |list|
  {
    if |list| > 0 {
      RegisteredSubset(list[..|list| - 1], keys);
    }
  }

  /** When every key is registered, the whole list is kept. */
  lemma {:induction false} RegisteredAll(list: seq<DialogueCheck>, keys: set<string>)
    requires forall i :: 0 <= i < |list| ==> list[i].key in keys
    ensures Registered(list, keys) == list
    decreases |list|
  {
    if |list| > 0 {
      RegisteredAll(list[..|list| - 1], keys);
      assert list[..|list| - 1] + [list[|list| - 1]] == list;
    }
  }

  /** Filtering a concatenation filters each part. */
  lemma {:induction false} RegisteredAppend(a: seq<DialogueCheck>, b: seq<DialogueCheck>, keys: set<string>)
    ensures Registered(a + b, keys) == Registered(a, keys) + Registered(b, keys)
    decreases |b|
  {
    if |b| == 0 {
      assert a + b == a;
    } else {
      var q := b[..|b| - 1];
      assert (a + b)[..|a + b| - 1] == a + q;
      RegisteredAppend(a, q, keys);
    }
  }

  /** No required checks (a null or empty list): the conditions are met and nothing is invoked. */
  lemma NoChecksMet(checks: CheckRegistry)
    ensures ConditionsMet([], checks) && Invoked([], checks) == []
  {
    assert FirstFailure([], checks) == 0;
  }

  /** An unregistered check key makes the node ineligible, whatever the other checks return. */
  lemma UnregisteredCheckFails(requiredChecks: seq<DialogueCheck>, checks: CheckRegistry, i: nat)
    requires i < |requiredChecks| && requiredChecks[i].key !in checks
    ensures !ConditionsMet(requiredChecks, checks)
    ensures FirstFailure(requiredChecks, checks) <= i
  {
  }

  /** Short-circuit: once check `j` fails, no check after it is invoked. */
  lemma NothingInvokedAfterFailure(requiredChecks: seq<DialogueCheck>, checks: CheckRegistry, j: nat)
    requires j < |requiredChecks| && !Passes(requiredChecks[j], checks)
    ensures |Invoked(requiredChecks, checks)| <= j + 1
    ensures forall x :: x in Invoked(requiredChecks, checks) ==> x in requiredChecks[..j + 1]
  {
    var n := Examined(requiredChecks, checks);
    assert n <= j + 1;
    RegisteredSubset(requiredChecks[..n], checks.Keys);
    forall x | x in Invoked(requiredChecks, checks)
      ensures x in requiredChecks[..j + 1]
    {
      var k :| 0 <= k < n && requiredChecks[..n][k] == x;
      assert requiredChecks[..j + 1][k] == x;
    }
  }

  /** When the conditions are met, every required check was invoked, in order. */
  lemma AllInvokedWhenMet(requiredChecks: seq<DialogueCheck>, checks: CheckRegistry)
    requires ConditionsMet(requiredChecks, checks)
    ensures Invoked(requiredChecks, checks) == requiredChecks
  {
    assert requiredChecks[..|requiredChecks|] == requiredChecks;
    RegisteredAll(requiredChecks, checks.Keys);
  }

  /** Actions run in list order: performing two lists one after the other. */
  lemma PerformedAppend(a: seq<DialogueCheck>, b: seq<DialogueCheck>, actions: ActionRegistry)
    ensures Performed(a + b, actions) == Performed(a, actions) + Performed(b, actions)
  {
    RegisteredAppend(a, b, actions);
  }

  /** An unregistered action is skipped and the actions after it still run. */
  lemma UnregisteredActionSkipped(a: seq<DialogueCheck>, x: DialogueCheck, b: seq<DialogueCheck>, actions: ActionRegistry)
    requires x.key !in actions
    ensures Performed(a + [x] + b, actions) == Performed(a + b, actions)
  {
    RegisteredAppend(a + [x], b, actions);
    RegisteredAppend(a, [x], actions);
    RegisteredAppend(a, b, actions);
    assert [x][..0] == [];
  }

  /** Every performed action comes from the node's list and is registered. */
  lemma PerformedAreRegistered(dialogueActions: seq<DialogueCheck>, actions: ActionRegistry)
    ensures forall x :: x in Performed(dialogueActions, actions) ==> x in dialogueActions && x.key in actions
  {
    RegisteredSubset(dialogueActions, actions);
  }
}
