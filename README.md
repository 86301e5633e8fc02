# Hans framework core, modelled in Dafny

Hans is a C# utility framework. This project models four parts of it:

- **The dialogue engine.** A conversation is a graph of nodes. Each node has some dialogue, the
  checks that must pass before it may be entered, the actions performed when it is entered, and
  edges to other nodes. An edge may carry a priority, and a lower value ranks first.
  - A `Conversation` loads and validates a node list and builds an id lookup. It keeps a cursor
    (the current node) and the nodes the cursor's edges lead to (`NextNodes`).
  - `MoveToNextNode` chooses the next node. It takes the requested node, or else the single
    eligible node, or else the best-ranked eligible edge, drawn at random among ties. It then
    activates that node.
  - The `ConversationEngine` runs a node's checks, stopping at the first check that fails. It
    records the result on the node and performs the node's actions. The check and action
    implementations are given to it as registries.
- **The inventory.** This is an array of categories. Each category maps an item to the quantity
  stored there. Items are added and removed per category, and a per-item profile reports where
  the item is stored and its total quantity.
- **The log exporter.** This is the gate that decides whether a log is handed to an exporter:
  the exporter must be enabled, and the log's level must reach the exporter's minimum.
- **Small utilities.** These are a cyclic-rotation test on lists, a random list entry, a digit
  parser with unchecked 32-bit accumulation, a bit-flag test on enumeration values, a
  heterogeneous array concatenation, and the flattening of a Redis argument dictionary.

Files and modules:

- `wrappers.dfy` holds `Option` and `Result`.
- `int32.dfy` holds C#'s unchecked `int` wrap-around.
- The other files hold one module each, one per source file:
  - `ListExtensions`, `IntegerExtensions`, `EnumExtensions`, `ArrayExtensions`,
    `RedisExtensions`, `LogExporter`;
  - `InventoryItemProfile`, `InventoryCore`;
  - `ConversationNodes`, `ConversationEngine`, `Conversations`.
- Three more modules complete the dialogue engine:
  - `ConversationRules` holds validation and the next-node decision as pure functions.
  - `Conversations` holds the classes and methods that use them.
  - `ConversationScenarios` replays the source's conversation tests.

Modelling choices:

- **Identifiers.** Guids are integers.
- **Null lists.** A node's null lists (checks, actions, edges) are empty sequences, because every
  use in the source treats null and empty alike.
- **Registries.** The check registry maps a key to a predicate on the parameters. The action
  registry is a set of keys. Performing an action appends it to a returned trace.
- **Randomness.** `System.Random` is an arbitrary choice, so every property holds for any draw.

## Model

| member | source | states |
|---|---|---|
| ListExtensions.IndexOf | Hans/Hans.Extensions.Standard/ListExtensions.cs:36 | the first position of the value, or -1 exactly when it is absent |
| ListExtensions.IsSameCycle | Hans/Hans.Extensions.Standard/ListExtensions.cs:20-58 | the answer is the comparison at the first occurrence's offset only; true implies the lists are rotations of each other; lists of different lengths are never the same cycle |
| ListExtensions.TryOffset | Hans/Hans.Extensions.Standard/ListExtensions.cs:37-49 | true exactly when `other`, read from the offset and wrapping around, equals `list` |
| ListExtensions.IndexOfMissesLaterRotation | Hans/Hans.Extensions.Standard/ListExtensions.cs:36-49 | [1,2,1,3] is a rotation of [1,3,1,2], yet the first-occurrence offset does not match |
| ListExtensions.IsSameCycleCorrected | Hans/Hans.Extensions.Standard/ListExtensions.cs:20-58 | true exactly when the lists are non-empty and some rotation of `other` equals `list` |
| ListExtensions.SelfIsSameCycle | Hans/Hans.Extensions.Standard/ListExtensions.cs:20-58 | every non-empty list is found to be the same cycle as itself |
| ListExtensions.GetRandomEntry | Hans/Hans.Extensions.Standard/ListExtensions.cs:65-75 | the default for an empty list; otherwise some element of the list |
| Int32.Wrap | Hans/Hans.Extensions/IntegerExtensions.cs:28 | the result is in int range, congruent to the input modulo 2^32, and equal to it when it fits |
| Int32.WrapMulAdd | Hans/Hans.Extensions/IntegerExtensions.cs:27-28 | wrapping each step of `y * 10 + d` gives the wrap of the exact result |
| IntegerExtensions.ParseFromString | Hans/Hans.Extensions/IntegerExtensions.cs:17-32 | succeeds exactly when every character is a digit; on failure intVal is 0; on success intVal is the decimal value wrapped to 32 bits |
| IntegerExtensions.LeadingZeroIgnored | Hans/Hans.Extensions/IntegerExtensions.cs:26-31 | a leading "0" does not change the value |
| IntegerExtensions.SmallValueExact | Hans/Hans.Extensions/IntegerExtensions.cs:26-31 | values up to int.MaxValue are parsed exactly |
| IntegerExtensions.OverflowWraps | Hans/Hans.Extensions/IntegerExtensions.cs:26-31 | "2147483648" parses to int.MinValue |
| IntegerExtensions.ParsesTestValues | Hans/Tests/Hans.Extensions.Test/IntegerExtensionsTest.cs:16-40 | "1", "43" and "204" give positive values; "NotAnInteger" is refused; "" gives 0 |
| EnumExtensions.ToUInt16 | Hans/Hans.Extensions.Standard/EnumExtensions.cs:21-22 | succeeds exactly for values in 0..65535 |
| EnumExtensions.IsFlagSet | Hans/Hans.Extensions.Standard/EnumExtensions.cs:19-32 | the overflow error exactly when a value is out of 16-bit range; the zero-flag error exactly when the flag is 0; otherwise input & flag == flag |
| EnumExtensions.HasFlagMeansEveryBit | Hans/Hans.Extensions.Standard/EnumExtensions.cs:31 | the masking test holds exactly when every bit of the flag is set in the input |
| EnumExtensions.FlagSetInUnion | Hans/Hans.Extensions.Standard/EnumExtensions.cs:31 | setting more input bits never unsets a flag |
| EnumExtensions.FlagEnumTestCases | Hans/Tests/Hans.Extensions.Test/EnumExtensionsTest.cs:20-50 | 6 contains 2, 4 and 6 but not 1 or 8; flag 0 is refused; 65536 overflows |
| ArrayExtensions.Concatenate | Hans/Hans.Extensions/ArrayExtensions.cs:19-46 | the result is the argument-by-argument concatenation, or the error of the first argument refused |
| ArrayExtensions.ConcatStopsAtFailure | Hans/Hans.Extensions/ArrayExtensions.cs:26-42 | the first refused argument decides the error, whatever follows |
| ArrayExtensions.ConcatSucceedsIffAllAccepted | Hans/Hans.Extensions/ArrayExtensions.cs:23-43 | the call succeeds exactly when no argument is refused |
| ArrayExtensions.ConcatLength | Hans/Hans.Extensions/ArrayExtensions.cs:23-45 | the result length is the number of items plus the array lengths |
| ArrayExtensions.ConcatAppend | Hans/Hans.Extensions/ArrayExtensions.cs:23-45 | concatenating two argument lists concatenates their results |
| ArrayExtensions.ForeignBecomesString | Hans/Hans.Extensions/ArrayExtensions.cs:34-38 | when T is string, another object contributes its string form |
| ArrayExtensions.ForeignRejected | Hans/Hans.Extensions/ArrayExtensions.cs:39-42 | when T is not string, another object fails the call with TypeLoad |
| ArrayExtensions.ConcatTestCase | Hans/Tests/Hans.Extensions.Test/ArrayExtensionsTest.cs:16-34 | {3,4,5,6}, 7 and {-1,0,1,2} give {3,4,5,6,7,-1,0,1,2} |
| RedisExtensions.GetArgumentListAsStringArray | Hans/Hans.Redis/Extensions.cs:32-42 | twice as many strings as entries; entry i's key at 2i and its value at 2i+1 |
| RedisExtensions.PairsRoundTrip | Hans/Hans.Redis/Extensions.cs:32-42 | reading the output back in pairs gives the dictionary's entries |
| RedisExtensions.EvenPositionsAreKeys | Hans/Hans.Redis/Extensions.cs:35-38 | the even positions are the keys in order |
| RedisExtensions.EvenPositionsDistinct | Hans/Hans.Redis/Extensions.cs:35-38 | with unique keys, no key appears twice at an even position |
| RedisExtensions.KeyFollowedByItsValue | Hans/Hans.Redis/Extensions.cs:35-38 | each key is followed by the value the dictionary maps it to |
| RedisExtensions.ArgumentsTestCase | Hans/Tests/Hans.Redis.Test/ExtensionsTest.cs:16-37 | the two-entry test dictionary flattens to KEY_ONE, VALUE_ONE, KEY_TWO, VALUE_TWO |
| LogExporter.Rank | Hans/Hans.Logging.Standard/Enums/LogLevel.cs:11-31 | the level values are 0..4, from Debug (0) to Fatal (4) |
| LogExporter.LevelOrder | Hans/Hans.Logging.Standard/Enums/LogLevel.cs:11-31 | Debug < Information < Warning < Error < Fatal |
| LogExporter.LevelOrderTotal | Hans/Hans.Logging.Standard/LogExporters/BaseLogExporter.cs:95 | the `>=` on levels is total and antisymmetric |
| LogExporter.BaseLogExporter.constructor | Hans/Hans.Logging.Standard/LogExporters/BaseLogExporter.cs:19-63 | a new exporter is enabled, has minimum Debug and has no name |
| LogExporter.BaseLogExporter.SetIsEnabled | Hans/Hans.Logging.Standard/LogExporters/BaseLogExporter.cs:33-43 | sets the flag only |
| LogExporter.BaseLogExporter.SetMinLogLevel | Hans/Hans.Logging.Standard/LogExporters/BaseLogExporter.cs:48-58 | sets the minimum only |
| LogExporter.BaseLogExporter.SetName | Hans/Hans.Logging.Standard/LogExporters/BaseLogExporter.cs:63 | sets the name only |
| LogExporter.BaseLogExporter.Copy | Hans/Hans.Logging.Standard/LogExporters/BaseLogExporter.cs:73-76 | a new exporter with the same flag, minimum and name |
| LogExporter.BaseLogExporter.ProcessLog | Hans/Hans.Logging.Standard/LogExporters/BaseLogExporter.cs:91-99 | the log is handed on, unchanged, exactly when the exporter is enabled and the level reaches the minimum |
| LogExporter.DisabledExportsNothing | Hans/Hans.Logging.Standard/LogExporters/BaseLogExporter.cs:94 | a disabled exporter exports nothing |
| LogExporter.BelowMinimumNotExported | Hans/Hans.Logging.Standard/LogExporters/BaseLogExporter.cs:95 | a log below the minimum is dropped |
| LogExporter.DefaultsExportEverything | Hans/Hans.Logging.Standard/LogExporters/BaseLogExporter.cs:19-99 | the default state exports every level |
| LogExporter.HigherLevelStillExported | Hans/Hans.Logging.Standard/LogExporters/BaseLogExporter.cs:94-95 | raising a log's level keeps it exported |
| LogExporter.StricterMinimumExportsLess | Hans/Hans.Logging.Standard/LogExporters/BaseLogExporter.cs:94-95 | raising the minimum never admits a log that was dropped |
| InventoryItemProfile.TotalQuantity | Hans/Hans.Inventory.Core/Models/InventoryItemProfile.cs:25 | the sum of the per-category quantities; InventoryCore.ProfileTotal relates it to the stored contents |
| InventoryItemProfile.SumRemove | Hans/Hans.Inventory.Core/Models/InventoryItemProfile.cs:25 | the sum of the values does not depend on the order the categories are taken in |
| InventoryItemProfile.SumAddNew | Hans/Hans.Inventory.Core/Models/InventoryItemProfile.cs:25 | adding a new category adds its quantity to the total |
| InventoryItemProfile.EmptyTotal | Hans/Hans.Inventory.Core/Models/InventoryItemProfile.cs:25 | an empty profile totals 0 |
| InventoryItemProfile.TotalTestCases | Hans/Tests/Inventory/Hans.Inventory.Core.Testing/InventoryTest.cs:40-56 | {3: 5, 2: 7} totals 12; {0: 3} totals 3 |
| InventoryCore.CalculateCategoryToUseAsWritten | Hans/Hans.Inventory.Core/Inventory.cs:158-174 | no category: an error when there are several categories, else 0; a given category passes exactly when 0 <= c <= count |
| InventoryCore.GuardAdmitsCount | Hans/Hans.Inventory.Core/Inventory.cs:167-168 | with 5 categories, category 5 passes the guard as written |
| InventoryCore.CalculateCategoryToUse | Hans/Hans.Inventory.Core/Inventory.cs:158-174 | as written, except that a given category passes exactly when 0 <= c < count |
| InventoryCore.CorrectedGuardRejectsCount | Hans/Hans.Inventory.Core/Inventory.cs:167-170 | the category equal to the count passes the guard as written and is refused by the corrected guard |
| InventoryCore.CategoryIndex | Hans/Hans.Inventory.Core/Inventory.cs:158-174 | the category touched is always an index; the array access fails with IndexOutOfRange exactly when no category is given and there are none, or the category given equals the count |
| InventoryCore.CorrectedCategoryIndex | Hans/Hans.Inventory.Core/Inventory.cs:158-174 | behind the corrected guard, IndexOutOfRange only when no category is given and there are none |
| InventoryCore.CorrectionOnlyAtCount | Hans/Hans.Inventory.Core/Inventory.cs:167-171 | the two resolutions agree except at the category equal to the count: IndexOutOfRange as written, CategoryOutOfRange corrected |
| InventoryCore.Added | Hans/Hans.Inventory.Core/Inventory.cs:71-76 | the contents after the `+=`; its properties are stated by AddedChangesOnlyTheItem and AddThenRemove |
| InventoryCore.Removed | Hans/Hans.Inventory.Core/Inventory.cs:121-146 | one category after a removal, with the quantity left; its cases are stated by RemovedCases |
| InventoryCore.RemovedFrom | Hans/Hans.Inventory.Core/Inventory.cs:121-141 | the contents after a removal from one category; AddThenRemove states that it undoes Added |
| InventoryCore.AddedKeepsInt32 | Hans/Hans.Inventory.Core/Inventory.cs:76 | adding keeps every stored quantity in int range |
| InventoryCore.RemovedFromKeepsInt32 | Hans/Hans.Inventory.Core/Inventory.cs:123-137 | a successful removal keeps every stored quantity in int range |
| InventoryCore.AddedChangesOnlyTheItem | Hans/Hans.Inventory.Core/Inventory.cs:71-76 | adding touches one category and one item; the item's quantity becomes old + qty when that fits an int |
| InventoryCore.AddOverflowWraps | Hans/Hans.Inventory.Core/Inventory.cs:76 | adding 1 to int.MaxValue stores int.MinValue |
| InventoryCore.RemovedCases | Hans/Hans.Inventory.Core/Inventory.cs:121-146 | for a stored quantity and a request both in 0..int.MaxValue: removal fails exactly when the item is absent or more is asked than stored; removing all of it deletes the entry; removing less leaves the difference |
| InventoryCore.AddThenRemove | Hans/Hans.Inventory.Core/Inventory.cs:65-147 | when the entry was absent or held more than 0, and the quantities fit an int: removing what was just added restores the category and returns the old quantity |
| InventoryCore.ZeroEntryNotRestored | Hans/Hans.Inventory.Core/Inventory.cs:121-132 | an entry holding 0, after adding and removing 3, is deleted rather than restored |
| InventoryCore.NegativeRequestRefused | Hans/Hans.Inventory.Core/Inventory.cs:123-127 | removing -int.MaxValue from a stored 5 wraps the difference negative and is refused with InsufficientInventory |
| InventoryCore.ProfileTotal | Hans/Hans.Inventory.Core/Inventory.cs:85-104 | a profile's TotalQuantity is the quantity stored across all categories |
| InventoryCore.Inventory.constructor | Hans/Hans.Inventory.Core/Inventory.cs:41-50 | that many categories, all empty |
| InventoryCore.Inventory.CreateElementForItem | Hans/Hans.Inventory.Core/Inventory.cs:181-186 | adds a 0 entry only when the item has none; nothing else changes |
| InventoryCore.Inventory.AddItem | Hans/Hans.Inventory.Core/Inventory.cs:65-78 | keeps every quantity an int; a category refused by the guard as written, or failing at the array access, gives its error and changes nothing; otherwise the contents become `Added` and the new quantity is returned |
| InventoryCore.Inventory.RemoveItem | Hans/Hans.Inventory.Core/Inventory.cs:115-147 | keeps every quantity an int; gives the category error (as written, including IndexOutOfRange for the category equal to the count), or the removal error, or the contents after `Removed` and the quantity left; every failure changes nothing |
| InventoryCore.Inventory.GetItemProfile | Hans/Hans.Inventory.Core/Inventory.cs:85-104 | the profile holds exactly the categories storing the item, each with its quantity |
| InventoryCore.OneCategoryScenario | Hans/Tests/Inventory/Hans.Inventory.Core.Testing/InventoryTest.cs:20-33 | adding 3 to a one-category inventory stores {0: 3}, total 3 |
| InventoryCore.AddToTwoCategoriesScenario | Hans/Tests/Inventory/Hans.Inventory.Core.Testing/InventoryTest.cs:40-56 | 5 into category 3 and 7 into category 2 give {3: 5, 2: 7}, total 12 |
| InventoryCore.RemoveAllScenario | Hans/Tests/Inventory/Hans.Inventory.Core.Testing/InventoryTest.cs:94-108 | removing all 5 from category 3 leaves 0, category 3 leaves the profile, and category 2 still holds 7 |
| InventoryCore.RemoveSomeScenario | Hans/Tests/Inventory/Hans.Inventory.Core.Testing/InventoryTest.cs:114-144 | removing 2 of 5 leaves 3, which the profile shows for category 3; a removal without a category, with five categories, is refused |
| InventoryCore.CountCategoryScenario | Hans/Hans.Inventory.Core/Inventory.cs:65-147 | with five categories, adding to or removing from category 5 fails with IndexOutOfRange |
| InventoryCore.RefusalScenario | Hans/Tests/Inventory/Hans.Inventory.Core.Testing/InventoryTest.cs:62-84 | no category or category 22 is refused; removing 4 that are absent, or 4 of 3, fails with InsufficientInventory(4) |
| ConversationNodes.ConversationNode.constructor | Hans.DialogueEngine/Hans.DialogueEngine/Entities/ConversationNode.cs:18-38 | the node carries its record, and its eligibility is not yet calculated |
| ConversationNodes.ConversationNode.SetEnabled | Hans.DialogueEngine/Hans.DialogueEngine/Entities/ConversationNode.cs:49-52 | records the given eligibility |
| ConversationEngine.FirstFailure | Hans.DialogueEngine/Hans.DialogueEngine/ConversationEngine.cs:96-115 | every check before the result passes, and the check at the result (if any) fails |
| ConversationEngine.AreConditionsMet | Hans.DialogueEngine/Hans.DialogueEngine/ConversationEngine.cs:91-124 | true exactly when every required check is registered and passes; the checks invoked are the registered ones up to the first failure; with isAttempt the result is recorded, otherwise the node is unchanged |
| ConversationEngine.RunChecks | Hans.DialogueEngine/Hans.DialogueEngine/ConversationEngine.cs:95-115 | the loop's result and its invoked checks, as for AreConditionsMet |
| ConversationEngine.ActivateNode | Hans.DialogueEngine/Hans.DialogueEngine/ConversationEngine.cs:59-82 | an unevaluated node is evaluated and recorded; a recorded value is kept; the registered actions are performed in order exactly when the node is enabled |
| ConversationEngine.NoChecksMet | Hans.DialogueEngine/Hans.DialogueEngine/ConversationEngine.cs:95-96 | no required checks: met, nothing invoked |
| ConversationEngine.UnregisteredCheckFails | Hans.DialogueEngine/Hans.DialogueEngine/ConversationEngine.cs:110-114 | an unregistered key makes the node ineligible |
| ConversationEngine.NothingInvokedAfterFailure | Hans.DialogueEngine/Hans.DialogueEngine/ConversationEngine.cs:98-102 | no check after the first failure is invoked |
| ConversationEngine.AllInvokedWhenMet | Hans.DialogueEngine/Hans.DialogueEngine/ConversationEngine.cs:96-115 | when the conditions are met, every check was invoked in order |
| ConversationEngine.PerformedAppend | Hans.DialogueEngine/Hans.DialogueEngine/ConversationEngine.cs:74-81 | actions are performed in list order |
| ConversationEngine.UnregisteredActionSkipped | Hans.DialogueEngine/Hans.DialogueEngine/ConversationEngine.cs:77-80 | an unregistered action is skipped, and the rest still run |
| ConversationEngine.PerformedAreRegistered | Hans.DialogueEngine/Hans.DialogueEngine/ConversationEngine.cs:74-81 | only registered actions from the node's list are performed |
| ConversationRules.ValidateConversation | Hans.DialogueEngine/Hans.DialogueEngine/Conversation.cs:228-261 | the verdict of the four rules in checking order; ValidIffWellFormed and VerdictNamesFirstBrokenRule state what it accepts and refuses |
| ConversationRules.InitialCountOne | Hans.DialogueEngine/Hans.DialogueEngine/Conversation.cs:238 | counting initial nodes gives 1 exactly when exactly one node is initial |
| ConversationRules.NoRepeatsIffFullCount | Hans.DialogueEngine/Hans.DialogueEngine/Conversation.cs:245-246 | Count == Distinct().Count exactly when no id is repeated |
| ConversationRules.NoMissingIffClosed | Hans.DialogueEngine/Hans.DialogueEngine/Conversation.cs:253-254 | an empty Except exactly when every edge leads to a node of the list |
| ConversationRules.ValidIffWellFormed | Hans.DialogueEngine/Hans.DialogueEngine/Conversation.cs:228-261 | validation accepts exactly the non-empty lists with one initial node, unique ids and closed edges |
| ConversationRules.VerdictNamesFirstBrokenRule | Hans.DialogueEngine/Hans.DialogueEngine/Conversation.cs:228-261 | each refusal names the first rule broken, in the order checked |
| ConversationRules.SelectNext | Hans.DialogueEngine/Hans.DialogueEngine/Conversation.cs:156-199 | GetNextBestNode's decision; NoNodeIff, ChoiceIsEligible, RequestedAmongTargets and AutomaticChoiceIsTopRanked state its properties |
| ConversationRules.BestPriorityIsBest | Hans.DialogueEngine/Hans.DialogueEngine/Conversation.cs:185-189 | the first group's key belongs to some edge, and no edge ranks before it |
| ConversationRules.TopGroupNonEmpty | Hans.DialogueEngine/Hans.DialogueEngine/Conversation.cs:185-189 | the first group is never empty |
| ConversationRules.NoNodeIff | Hans.DialogueEngine/Hans.DialogueEngine/Conversation.cs:156-199 | no node exactly when none is eligible, or the requested node is a target but not enabled |
| ConversationRules.ChoiceIsEligible | Hans.DialogueEngine/Hans.DialogueEngine/Conversation.cs:156-199 | any chosen id is an eligible edge target; a random pick is among at least two |
| ConversationRules.RequestedAmongTargets | Hans.DialogueEngine/Hans.DialogueEngine/Conversation.cs:168-174 | a requested target is taken when eligible and refused otherwise |
| ConversationRules.RequestNotAmongTargetsFallsThrough | Hans.DialogueEngine/Hans.DialogueEngine/Conversation.cs:169-170 | a request that no edge leads to is ignored |
| ConversationRules.AutomaticChoiceIsTopRanked | Hans.DialogueEngine/Hans.DialogueEngine/Conversation.cs:185-198 | with several eligible edges, the chosen node's edge is ranked by no eligible edge |
| ConversationRules.SingleCandidateChosen | Hans.DialogueEngine/Hans.DialogueEngine/Conversation.cs:176-180 | a single eligible edge is taken |
| ConversationRules.TwoPrioritiesScenario | Hans/Tests/DialogueEngine/Hans.DialogueEngine.Test/ConversationTest.cs:101-115 | priorities 1 and 2, both eligible: priority 1 wins |
| ConversationRules.PresentPriorityBeatsAbsentScenario | Hans.DialogueEngine/Hans.DialogueEngine/Conversation.cs:185-189 | a present priority beats an absent one, and lower beats higher |
| ConversationRules.TiedPrioritiesScenario | Hans.DialogueEngine/Hans.DialogueEngine/Conversation.cs:192-198 | two edges tied on the best priority give a random pick between their targets |
| ConversationRules.RequestedIneligibleScenario | Hans.DialogueEngine/Hans.DialogueEngine/Conversation.cs:170-174 | an ineligible requested target gives no node, even with others eligible |
| Conversations.FirstWithId | Hans.DialogueEngine/Hans.DialogueEngine/Conversation.cs:88 | the first node with the id, or -1 exactly when there is none |
| Conversations.FirstInitial | Hans.DialogueEngine/Hans.DialogueEngine/Conversation.cs:119 | the first initial node, or -1 exactly when there is none |
| Conversations.EligibleNodes | Hans.DialogueEngine/Hans.DialogueEngine/Conversation.cs:159 | exactly the nodes of the list whose checks pass |
| Conversations.EligibleMatchesCandidates | Hans.DialogueEngine/Hans.DialogueEngine/Conversation.cs:159-189 | the eligible cached nodes are, one for one and in order, the nodes the eligible edges lead to |
| Conversations.EvaluateAll | Hans.DialogueEngine/Hans.DialogueEngine/Conversation.cs:159 | every cached next node gets its eligibility recorded; the eligible ones are returned in order |
| Conversations.ChooseNext | Hans.DialogueEngine/Hans.DialogueEngine/Conversation.cs:162-198 | the node SelectNext decides on, and any node returned is eligible and recorded enabled |
| Conversations.SelectAmong | Hans.DialogueEngine/Hans.DialogueEngine/Conversation.cs:162-198 | branch by branch, the node SelectNext decides on |
| Conversations.ToLookup | Hans.DialogueEngine/Hans.DialogueEngine/Conversation.cs:115-116 | for a valid list, its keys are the node ids, each node is under its own id, and every edge leads to a key |
| Conversations.HasInitial | Hans.DialogueEngine/Hans.DialogueEngine/Conversation.cs:119 | an accepted list always has an initial node |
| Conversations.CreateNodes | Hans.DialogueEngine/Hans.DialogueEngine/Conversation.cs:103 | one new, unevaluated node per record, in order |
| Conversations.Conversation.constructor | Hans.DialogueEngine/Hans.DialogueEngine/Conversation.cs:72-75 | an empty node list and no cursor |
| Conversations.Conversation.SetNodeAsCurrent | Hans.DialogueEngine/Hans.DialogueEngine/Conversation.cs:205-218 | the cursor moves, and NextNodes is rebuilt with one lookup per edge, in edge order |
| Conversations.Conversation.SetCurrentNode | Hans.DialogueEngine/Hans.DialogueEngine/Conversation.cs:31-41 | a null value is ignored; otherwise as SetNodeAsCurrent |
| Conversations.Conversation.JumpToNode | Hans.DialogueEngine/Hans.DialogueEngine/Conversation.cs:86-93 | an unknown id changes nothing; a known id moves the cursor there without evaluating or activating anything |
| Conversations.Conversation.GetNextBestNode | Hans.DialogueEngine/Hans.DialogueEngine/Conversation.cs:156-199 | every cached next node's eligibility is recorded; the result is null exactly when SelectNext finds no node, and is otherwise the node it decides on, eligible and enabled |
| Conversations.Conversation.MoveToNextNode | Hans.DialogueEngine/Hans.DialogueEngine/Conversation.cs:128-144 | moves exactly when a node is chosen; the new cursor is that node, its registered actions are performed and NextNodes follows it; otherwise nothing moves and nothing is performed |
| Conversations.Conversation.Advance | Hans.DialogueEngine/Hans.DialogueEngine/Conversation.cs:136-137 | the move itself: the node is activated (its registered actions performed), the cursor moves there and NextNodes follows it |
| Conversations.Conversation.LoadConversation | Hans.DialogueEngine/Hans.DialogueEngine/Conversation.cs:100-121 | the load succeeds exactly when validation accepts the list; a refusal clears Name, Nodes and NextNodes; an acceptance builds the lookup over the node ids and puts the cursor on the initial node |
| Conversations.Conversation.Install | Hans.DialogueEngine/Hans.DialogueEngine/Conversation.cs:115-119 | the accepted half of the load: the lookup holds exactly the node ids, and the cursor is on an initial node with NextNodes following it |
| ConversationScenarios.SimpleIsValid | Hans.DialogueEngine/Hans.DialogueEngine/Conversation.cs:228-261 | the three-node test conversation passes validation |
| ConversationScenarios.LoadScenario | Hans/Tests/DialogueEngine/Hans.DialogueEngine.Test/ConversationTest.cs:125-135 | a valid conversation loads with its name, and the cursor is on the initial node |
| ConversationScenarios.RefusedLoadScenario | Hans/Tests/DialogueEngine/Hans.DialogueEngine.Test/ConversationTest.cs:140-153 | two initial nodes: the load fails and Name is null |
| ConversationScenarios.PriorityMoveScenario | Hans/Tests/DialogueEngine/Hans.DialogueEngine.Test/ConversationTest.cs:101-115 | from the start, with both choices eligible, the move goes to the priority-1 node and performs its action |
| ConversationScenarios.RequestedMoveScenario | Hans/Tests/DialogueEngine/Hans.DialogueEngine.Test/ConversationTest.cs:64-75 | a requested eligible node is moved to |

## Left out

- Plugin discovery (`LoadDialogueComponents`, the MEF bootstrapper) is not modelled. The check and action registries are parameters instead.
- The JSON load (`Load`) is not modelled: the node list it produces is the input. `ClearProperties` is modelled by its effect on Name, Nodes and NextNodes only.
- Logging calls (`log.LogMessage`), the logger threads and the Redis I/O around `GetArgumentListAsStringArray` are not modelled. They do not affect results.
- The `ConversationComplete` event, the geometry helpers, `ClassExtensions`, `TypeExtensions` and the duplicate `Hans/Hans.Extensions/ListExtensions.cs` are outside this model.
- Conversations.Conversation.LoadConversation: a refused load clears only the public properties Name, Nodes and NextNodes. The `CurrentNode` setter ignores null, so the cursor and the lookup are kept and a refused load does not reset the cursor.
- Conversations.Conversation.LoadConversation: its contract does not restate that the new nodes are unevaluated; `Conversations.CreateNodes` states it.
- Conversations.Conversation.MoveToNextNode: a null NextNodes throws in the source. Here it is a precondition, and so is a null Nodes for JumpToNode.
- Conversations.Conversation.GetNextBestNode: it does not report which checks were invoked while the nodes were evaluated. `ConversationEngine.AreConditionsMet` reports that per node.
- LogExporter.BaseLogExporter.ProcessLog: it returns the log handed to `ExportLog`, whose base body throws `NotImplementedException` to mark it abstract.
- InventoryItemProfile.TotalQuantity: the LINQ `Sum` is checked and throws on overflow. The model sums exactly, since dictionary enumeration order is unknown.
- InventoryCore.Inventory.AddItem: like RemoveItem, it follows the guard as written, so the category equal to the count fails at the array access. The intended behaviour is `InventoryCore.CorrectedCategoryIndex`, and `InventoryCore.CorrectionOnlyAtCount` states where the two differ.
- InventoryCore.Inventory: the stored element (item and quantity) is reduced to the quantity. A negative category count, which throws in the array allocation, is excluded by the `nat` parameter.
- IntegerExtensions.ParseFromString: only ASCII digits are accepted. `Char.IsDigit` also accepts other Unicode decimal digits, for which the source adds `c - '0'`, a value greater than 9.
- ArrayExtensions.Concatenate: a null argument, which throws `NullReferenceException`, is not modelled.
- IntegerExtensions.ParseFromString: a null string, for which `All` throws `ArgumentNullException`, is not modelled.
- ListExtensions.IsSameCycle: a null element of the other list, for which `Equals` throws `NullReferenceException`, is not modelled; elements are values.
- InventoryCore.RemovedCases: stated only for a stored quantity and a request in 0..int.MaxValue; outside that range the wrapped difference decides, as `NegativeRequestRefused` shows.
- InventoryCore.AddThenRemove: stated only when the entry was absent or held more than 0 and the sums fit an int; an entry holding 0 is deleted instead, as `ZeroEntryNotRestored` shows.
- ListExtensions.GetRandomEntry: `System.Random` is an arbitrary choice, so the distribution is not modelled.

## Findings

| source | as written | input that shows it | evidently intended | confidence | as-written member | corrected member |
|---|---|---|---|---|---|---|
| Hans/Hans.Extensions.Standard/ListExtensions.cs:36 | the offset tried for each matching element is `other.IndexOf(element)`, always the first occurrence | list [1,2,1,3], other [1,3,1,2]: a rotation by 2, answered false | try the rotation at each position where `list[0]` occurs | high (not executed) | ListExtensions.IsSameCycle, ListExtensions.IndexOfMissesLaterRotation | ListExtensions.IsSameCycleCorrected |
| Hans/Hans.Inventory.Core/Inventory.cs:167-168 | a category is refused when `categoryNum > Length` | 5 categories, category 5: passes the guard, then fails with IndexOutOfRangeException instead of ArgumentOutOfRangeException | refuse `categoryNum >= Length` | high (not executed) | InventoryCore.CalculateCategoryToUseAsWritten, InventoryCore.GuardAdmitsCount, InventoryCore.CountCategoryScenario | InventoryCore.CalculateCategoryToUse, InventoryCore.CorrectedGuardRejectsCount, InventoryCore.CorrectedCategoryIndex, InventoryCore.CorrectionOnlyAtCount |
