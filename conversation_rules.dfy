/**
 * The two queries of Conversation: ValidateConversation, which decides whether a loaded node
 * list may be used, and the choice GetNextBestNode makes among the current node's edges.
 */
module ConversationRules {
  import opened Wrappers
  import opened ConversationNodes

  // ---------------------------------------------------------------------------------------
  // Validation
  // ---------------------------------------------------------------------------------------

  /** The outcome of ValidateConversation, naming the first rule the node list breaks. */
  datatype Verdict = Valid | NoNodes | NotExactlyOneInitial | DuplicateIds | MissingNextNode

  /** The node ids, in list order. */
  function Ids(records: seq<NodeRecord>): (r: seq<NodeId>)
    ensures |r| == |records| && forall i :: 0 <= i < |records| ==> r[i] == records[i].id
  {
    seq(|records|, i requires 0 <= i < |records| => records[i].id)
  }

  /** The distinct values of a sequence. */
  function Elements(s: seq<NodeId>): (r: set<NodeId>)
    ensures forall x :: x in r <==> x in s
  {
    if |s| == 0 then {} else Elements(s[..|s| - 1]) + {s[|s| - 1]}
  }

  /** How many nodes are marked initial. */
  function InitialCount(records: seq<NodeRecord>): nat {
    if |records| == 0 then 0
    else InitialCount(records[..|records| - 1]) + (if records[|records| - 1].initial then 1 else 0)
  }

  /** Every NextID named by an edge of some node. */
  function NextIds(records: seq<NodeRecord>): set<NodeId> {
    set i, j | 0 <= i < |records| && 0 <= j < |records[i].nextNodes| :: records[i].nextNodes[j].nextId
  }

  /**
   * ValidateConversation: the node list must be present and non-empty, have exactly one initial
   * node, use each id once (the id count equals the distinct-id count), and every NextID must be
   * a node id. The rules are checked in that order.
   */
  function ValidateConversation(nodes: Option<seq<NodeRecord>>): (r: Verdict) {
    if nodes.None? || |nodes.value| == 0 then NoNodes
    else if InitialCount(nodes.value) != 1 then NotExactlyOneInitial
    else if |Ids(nodes.value)| != |Elements(Ids(nodes.value))| then DuplicateIds
    else if NextIds(nodes.value) - Elements(Ids(nodes.value)) != {} then MissingNextNode
    else Valid
  }

  /** Exactly one node is initial. */
  ghost predicate ExactlyOneInitial(records: seq<NodeRecord>) {
    exists i :: 0 <= i < |records| && records[i].initial && forall j :: 0 <= j < |records| && records[j].initial ==> j == i
  }

  /** No two nodes share an id. */
  predicate DistinctIds(records: seq<NodeRecord>) {
    forall i, j :: 0 <= i < j < |records| ==> records[i].id != records[j].id
  }

  /** Every edge leads to a node of the list. */
  ghost predicate EdgesClosed(records: seq<NodeRecord>) {
    forall i, j :: 0 <= i < |records| && 0 <= j < |records[i].nextNodes| ==>
      exists k :: 0 <= k < |records| && records[k].id == records[i].nextNodes[j].nextId
  }

  /** A usable conversation, stated rule by rule without counting. */
  ghost predicate WellFormed(records: seq<NodeRecord>) {
    |records| > 0 && ExactlyOneInitial(records) && DistinctIds(records) && EdgesClosed(records)
  }

  lemma {:induction false} NoInitialIffZero(records: seq<NodeRecord>)
    ensures InitialCount(records) == 0 <==> forall j :: 0 <= j < |records| ==> !records[j].initial
    decreases |records|
  {
    if |records| > 0 {
      var p := records[..|records| - 1];
      NoInitialIffZero(p);
      assert forall j :: 0 <= j < |p| ==> p[j] == records[j];
    }
  }

  /** Counting the initial nodes finds one exactly when one node is initial. */
  lemma {:induction false} InitialCountOne(records: seq<NodeRecord>)
    ensures InitialCount(records) == 1 <==> ExactlyOneInitial(records)
    decreases |records|
  {
    if |records| > 0 {
      var n := |records| - 1;
      var p := records[..n];
      InitialCountOne(p);
      NoInitialIffZero(p);
      assert forall j :: 0 <= j < n ==> p[j] == records[j];
      if InitialCount(records) == 1 {
        if records[n].initial {
          assert records[n].initial && forall j :: 0 <= j < |records| && records[j].initial ==> j == n;
        } else {
          var i :| 0 <= i < n && p[i].initial && forall j :: 0 <= j < n && p[j].initial ==> j == i;
          assert records[i].initial && forall j :: 0 <= j < |records| && records[j].initial ==> j == i;
        }
      }
      if ExactlyOneInitial(records) {
        var i :| 0 <= i < |records| && records[i].initial && forall j :: 0 <= j < |records| && records[j].initial ==> j == i;
        if i == n {
          assert forall j :: 0 <= j < n ==> !p[j].initial;
        } else {
          assert !records[n].initial;
          assert p[i].initial && forall j :: 0 <= j < n && p[j].initial ==> j == i;
        }
      }
    }
  }

  /** No value occurs twice. */
  predicate NoRepeats(s: seq<NodeId>) {
    forall i, j :: 0 <= i < j < |s| ==> s[i] != s[j]
  }

  lemma {:induction false} ElementsAtMostLength(s: seq<NodeId>)
    ensures |Elements(s)| <= |s|
    decreases |s|
  {
    if |s| > 0 {
      ElementsAtMostLength(s[..|s| - 1]);
    }
  }

  /** Appending a value keeps the earlier values distinct exactly when it is new. */
  lemma NoRepeatsSnoc(p: seq<NodeId>, x: NodeId)
    ensures NoRepeats(p + [x]) <==> NoRepeats(p) && x !in p
  {
    var s := p + [x];
    if x in p {
      var k :| 0 <= k < |p| && p[k] == x;
      assert s[k] == x && s[|p|] == x;
    }
    assert forall i :: 0 <= i < |p| ==> p[i] == s[i];
    if NoRepeats(p) && x !in p {
      forall i, j | 0 <= i < j < |s|
        ensures s[i] != s[j]
      {
        assert s[i] == p[i];
        if j < |p| {
          assert s[j] == p[j];
        }
      }
    }
  }

  /** A sequence has as many distinct values as elements exactly when no value occurs twice. */
  lemma {:induction false} NoRepeatsIffFullCount(s: seq<NodeId>)
    ensures |Elements(s)| == |s| <==> NoRepeats(s)
    decreases |s|
  {
    if |s| > 0 {
      var n := |s| - 1;
      var p := s[..n];
      assert s == p + [s[n]];
      NoRepeatsIffFullCount(p);
      ElementsAtMostLength(p);
      NoRepeatsSnoc(p, s[n]);
      if s[n] in Elements(p) {
        assert Elements(s) == Elements(p);
      } else {
        assert |Elements(s)| == |Elements(p)| + 1;
      }
    }
  }

  /** The distinct-id set holds exactly the node ids. */
  lemma IdSetMembers(records: seq<NodeRecord>, x: NodeId)
    ensures x in Elements(Ids(records)) <==> exists k :: 0 <= k < |records| && records[k].id == x
  {
    if x in Elements(Ids(records)) {
      var k :| 0 <= k < |records| && Ids(records)[k] == x;
      assert records[k].id == x;
    }
    if exists k :: 0 <= k < |records| && records[k].id == x {
      var k :| 0 <= k < |records| && records[k].id == x;
      assert Ids(records)[k] == x;
    }
  }

  /** No NextID is missing from the node ids exactly when every edge leads to a node. */
  lemma NoMissingIffClosed(records: seq<NodeRecord>)
    ensures NextIds(records) - Elements(Ids(records)) == {} <==> EdgesClosed(records)
  {
    var idSet := Elements(Ids(records));
    if NextIds(records) - idSet == {} {
      forall i, j | 0 <= i < |records| && 0 <= j < |records[i].nextNodes|
        ensures exists k :: 0 <= k < |records| && records[k].id == records[i].nextNodes[j].nextId
      {
        var x := records[i].nextNodes[j].nextId;
        assert x in NextIds(records);
        IdSetMembers(records, x);
      }
    }
    if EdgesClosed(records) {
      forall x | x in NextIds(records)
        ensures x in idSet
      {
        var i, j :| 0 <= i < |records| && 0 <= j < |records[i].nextNodes| && records[i].nextNodes[j].nextId == x;
        IdSetMembers(records, x);
      }
      assert NextIds(records) - idSet == {};
    }
  }

  /** Validation accepts a node list exactly when it is well formed. */
  lemma ValidIffWellFormed(nodes: Option<seq<NodeRecord>>)
    ensures ValidateConversation(nodes) == Valid <==> nodes.Some? && WellFormed(nodes.value)
  {
    if nodes.Some? && |nodes.value| > 0 {
      var records := nodes.value;
      InitialCountOne(records);
      NoRepeatsIffFullCount(Ids(records));
      assert DistinctIds(records) <==> NoRepeats(Ids(records));
      NoMissingIffClosed(records);
    }
  }

  /** Each refusal names the first rule, in checking order, that the node list breaks. */
  lemma VerdictNamesFirstBrokenRule(nodes: Option<seq<NodeRecord>>)
    ensures ValidateConversation(nodes) == NoNodes <==> nodes.None? || |nodes.value| == 0
    ensures ValidateConversation(nodes) == NotExactlyOneInitial <==>
      nodes.Some? && |nodes.value| > 0 && !ExactlyOneInitial(nodes.value)
    ensures ValidateConversation(nodes) == DuplicateIds <==>
      nodes.Some? && |nodes.value| > 0 && ExactlyOneInitial(nodes.value) && !DistinctIds(nodes.value)
    ensures ValidateConversation(nodes) == MissingNextNode <==>
      nodes.Some? && |nodes.value| > 0 && ExactlyOneInitial(nodes.value) && DistinctIds(nodes.value) && !EdgesClosed(nodes.value)
  {
    if nodes.Some? && |nodes.value| > 0 {
      var records := nodes.value;
      InitialCountOne(records);
      NoRepeatsIffFullCount(Ids(records));
      assert DistinctIds(records) <==> NoRepeats(Ids(records));
      NoMissingIffClosed(records);
    }
  }

  // ---------------------------------------------------------------------------------------
  // Choosing the next node
  // ---------------------------------------------------------------------------------------

  /** What GetNextBestNode chooses: no node, one node, or a random one of a top-ranked group. */
  datatype Choice = NoNode | Exactly(id: NodeId) | OneOf(group: seq<NodeId>)

  /** Whether priority `p` ranks strictly before `q`: a present priority beats an absent one, lower values first. */
  predicate RanksBefore(p: Option<int>, q: Option<int>) {
    p.Some? && (q.None? || p.value < q.value)
  }

  /** The targets of some edges, in edge order. */
  function Targets(edges: seq<NextNodeModel>): (r: seq<NodeId>)
    ensures |r| == |edges| && forall i :: 0 <= i < |edges| ==> r[i] == edges[i].nextId
  {
    seq(|edges|, i requires 0 <= i < |edges| => edges[i].nextId)
  }

  /** The target of any of the edges is among their targets. */
  lemma TargetOfMember(edges: seq<NextNodeModel>, e: NextNodeModel)
    requires e in edges
    ensures e.nextId in Targets(edges)
  {
    var k :| 0 <= k < |edges| && edges[k] == e;
    assert Targets(edges)[k] == e.nextId;
  }

  /** The edges that lead to an eligible node, in edge order. */
  function Candidates(edges: seq<NextNodeModel>, eligibleIds: set<NodeId>): (r: seq<NextNodeModel>)
    ensures |r| <= |edges|
  {
    if |edges| == 0 then []
    else
      var last := edges[|edges| - 1];
      Candidates(edges[..|edges| - 1], eligibleIds) + (if last.nextId in eligibleIds then [last] else [])
  }

  /** The candidates are exactly the edges whose target is eligible. */
  lemma {:induction false} CandidatesMembers(edges: seq<NextNodeModel>, eligibleIds: set<NodeId>)
    ensures forall e :: e in Candidates(edges, eligibleIds) <==> e in edges && e.nextId in eligibleIds
    decreases |edges|
  {
    if |edges| > 0 {
      var p := edges[..|edges| - 1];
      CandidatesMembers(p, eligibleIds);
      assert edges == p + [edges[|edges| - 1]];
    }
  }

  /** Candidates keeps the last edge after those of the prefix exactly when its target is eligible. */
  lemma CandidatesSnoc(edges: seq<NextNodeModel>, eligibleIds: set<NodeId>)
    requires |edges| > 0
    ensures Candidates(edges, eligibleIds) == Candidates(edges[..|edges| - 1], eligibleIds)
      + (if edges[|edges| - 1].nextId in eligibleIds then [edges[|edges| - 1]] else [])
  {
  }

  /** The best priority among some edges: the first key after ordering by (present first, then ascending). */
  function BestPriority(edges: seq<NextNodeModel>): (r: Option<int>)
    requires |edges| > 0
  {
    if |edges| == 1 then edges[0].priority
    else
      var rest := BestPriority(edges[..|edges| - 1]);
      if RanksBefore(edges[|edges| - 1].priority, rest) then edges[|edges| - 1].priority else rest
  }

  /** The edges whose priority is the best one, in edge order: the first group of the ordered GroupBy. */
  function TopGroup(edges: seq<NextNodeModel>): (r: seq<NextNodeModel>)
    requires |edges| > 0
  {
    Filter(edges, BestPriority(edges))
  }

  /** The edges with exactly priority `p`, in edge order. */
  function Filter(edges: seq<NextNodeModel>, p: Option<int>): (r: seq<NextNodeModel>)
    ensures |r| <= |edges|
  {
    if |edges| == 0 then []
    else Filter(edges[..|edges| - 1], p) + (if edges[|edges| - 1].priority == p then [edges[|edges| - 1]] else [])
  }

  /** The filtered edges are exactly those with priority `p`. */
  lemma {:induction false} FilterMembers(edges: seq<NextNodeModel>, p: Option<int>)
    ensures forall e :: e in Filter(edges, p) <==> e in edges && e.priority == p
    decreases |edges|
  {
    if |edges| > 0 {
      var q := edges[..|edges| - 1];
      FilterMembers(q, p);
      assert edges == q + [edges[|edges| - 1]];
    }
  }

  /**
   * GetNextBestNode's decision, for the current node's `edges`, the ids whose checks pass, and an
   * optional requested id.
   */
  function SelectNext(edges: seq<NextNodeModel>, eligibleIds: set<NodeId>, requested: Option<NodeId>): Choice {
    var candidates := Candidates(edges, eligibleIds);
    if |candidates| == 0 then NoNode
    else if requested.Some? && requested.value in Targets(edges) then
      (if requested.value in eligibleIds then Exactly(requested.value) else NoNode)
    else if |candidates| == 1 then Exactly(candidates[0].nextId)
    else
      var group := TopGroup(candidates);
      if |group| == 1 then Exactly(group[0].nextId) else OneOf(Targets(group))
  }

  /** The best priority is that of some edge, and no edge ranks before it. */
  lemma {:induction false} BestPriorityIsBest(edges: seq<NextNodeModel>)
    requires |edges| > 0
    ensures exists i :: 0 <= i < |edges| && edges[i].priority == BestPriority(edges)
    ensures forall i :: 0 <= i < |edges| ==> !RanksBefore(edges[i].priority, BestPriority(edges))
    decreases |edges|
  {
    if |edges| == 1 {
      assert edges[0].priority == BestPriority(edges);
    } else {
      var n := |edges| - 1;
      var p := edges[..n];
      BestPriorityIsBest(p);
      assert forall i :: 0 <= i < n ==> p[i] == edges[i];
      var k :| 0 <= k < n && p[k].priority == BestPriority(p);
      if RanksBefore(edges[n].priority, BestPriority(p)) {
        assert edges[n].priority == BestPriority(edges);
      } else {
        assert edges[k].priority == BestPriority(edges);
      }
    }
  }

  /** The top group is never empty. */
  lemma TopGroupNonEmpty(edges: seq<NextNodeModel>)
    requires |edges| > 0
    ensures |TopGroup(edges)| > 0
  {
    BestPriorityIsBest(edges);
    var i :| 0 <= i < |edges| && edges[i].priority == BestPriority(edges);
    FilterMembers(edges, BestPriority(edges));
    assert edges[i] in TopGroup(edges);
  }

  /** No node is chosen exactly when none is eligible, or the requested one is an edge target but not eligible. */
  lemma NoNodeIff(edges: seq<NextNodeModel>, eligibleIds: set<NodeId>, requested: Option<NodeId>)
    ensures SelectNext(edges, eligibleIds, requested) == NoNode <==>
      (forall i :: 0 <= i < |edges| ==> edges[i].nextId !in eligibleIds)
      || (requested.Some? && requested.value in Targets(edges) && requested.value !in eligibleIds)
  {
    var candidates := Candidates(edges, eligibleIds);
    CandidatesMembers(edges, eligibleIds);
    if |candidates| > 0 {
      assert candidates[0] in edges;
      if |candidates| > 1 {
        TopGroupNonEmpty(candidates);
      }
    } else {
      forall i | 0 <= i < |edges|
        ensures edges[i].nextId !in eligibleIds
      {
        assert edges[i] in edges;
      }
    }
  }

  /** Whatever is chosen is the target of an edge and eligible; a random pick is among at least two. */
  lemma ChoiceIsEligible(edges: seq<NextNodeModel>, eligibleIds: set<NodeId>, requested: Option<NodeId>)
    ensures SelectNext(edges, eligibleIds, requested).Exactly? ==>
      SelectNext(edges, eligibleIds, requested).id in eligibleIds && SelectNext(edges, eligibleIds, requested).id in Targets(edges)
    ensures SelectNext(edges, eligibleIds, requested).OneOf? ==>
      |SelectNext(edges, eligibleIds, requested).group| >= 2
      && forall x :: x in SelectNext(edges, eligibleIds, requested).group ==> x in eligibleIds && x in Targets(edges)
  {
    var candidates := Candidates(edges, eligibleIds);
    CandidatesMembers(edges, eligibleIds);
    if |candidates| > 0 {
      var e := candidates[0];
      assert e in edges;
      var k :| 0 <= k < |edges| && edges[k] == e;
      assert Targets(edges)[k] == e.nextId;
      if |candidates| > 1 {
        var group := TopGroup(candidates);
        TopGroupNonEmpty(candidates);
        FilterMembers(candidates, BestPriority(candidates));
        forall x | x in Targets(group)
          ensures x in eligibleIds && x in Targets(edges)
        {
          var i :| 0 <= i < |group| && Targets(group)[i] == x;
          assert group[i] in candidates;
          var j :| 0 <= j < |edges| && edges[j] == group[i];
          assert Targets(edges)[j] == x;
        }
        assert group[0] in candidates;
        var j :| 0 <= j < |edges| && edges[j] == group[0];
        assert Targets(edges)[j] == group[0].nextId;
      }
    }
  }

  /** A requested id among the edge targets is chosen when it is eligible and refused otherwise. */
  lemma RequestedAmongTargets(edges: seq<NextNodeModel>, eligibleIds: set<NodeId>, id: NodeId)
    requires id in Targets(edges)
    ensures SelectNext(edges, eligibleIds, Some(id)) == if id in eligibleIds then Exactly(id) else NoNode
  {
    if id in eligibleIds {
      var k :| 0 <= k < |edges| && Targets(edges)[k] == id;
      CandidatesMembers(edges, eligibleIds);
      assert edges[k] in Candidates(edges, eligibleIds);
    }
  }

  /** A requested id that no edge leads to is ignored: the automatic choice is made. */
  lemma RequestNotAmongTargetsFallsThrough(edges: seq<NextNodeModel>, eligibleIds: set<NodeId>, id: NodeId)
    requires id !in Targets(edges)
    ensures SelectNext(edges, eligibleIds, Some(id)) == SelectNext(edges, eligibleIds, None)
  {
  }

  /**
   * Without a request, with several eligible edges, the chosen node comes from a top-ranked edge:
   * its priority is the best one and no eligible edge ranks before it.
   */
  lemma AutomaticChoiceIsTopRanked(edges: seq<NextNodeModel>, eligibleIds: set<NodeId>)
    requires |Candidates(edges, eligibleIds)| >= 2
    ensures SelectNext(edges, eligibleIds, None).Exactly? || SelectNext(edges, eligibleIds, None).OneOf?
    ensures forall x :: (SelectNext(edges, eligibleIds, None) == Exactly(x) || (SelectNext(edges, eligibleIds, None).OneOf? && x in SelectNext(edges, eligibleIds, None).group)) ==>
      exists e :: e in Candidates(edges, eligibleIds) && e.nextId == x
        && forall c :: c in Candidates(edges, eligibleIds) ==> !RanksBefore(c.priority, e.priority)
  {
    var candidates := Candidates(edges, eligibleIds);
    var group := TopGroup(candidates);
    TopGroupNonEmpty(candidates);
    BestPriorityIsBest(candidates);
    CandidatesMembers(edges, eligibleIds);
    FilterMembers(candidates, BestPriority(candidates));
    forall x | SelectNext(edges, eligibleIds, None) == Exactly(x) || (SelectNext(edges, eligibleIds, None).OneOf? && x in SelectNext(edges, eligibleIds, None).group)
      ensures exists e :: e in candidates && e.nextId == x && forall c :: c in candidates ==> !RanksBefore(c.priority, e.priority)
    {
      var i: nat :| i < |group| && group[i].nextId == x;
      var e := group[i];
      assert e in candidates && e.priority == BestPriority(candidates);
      forall c | c in candidates
        ensures !RanksBefore(c.priority, e.priority)
      {
        var k :| 0 <= k < |candidates| && candidates[k] == c;
      }
    }
  }

  /** With exactly one eligible edge and no request, its target is chosen. */
  lemma SingleCandidateChosen(edges: seq<NextNodeModel>, eligibleIds: set<NodeId>)
    requires |Candidates(edges, eligibleIds)| == 1
    ensures SelectNext(edges, eligibleIds, None) == Exactly(Candidates(edges, eligibleIds)[0].nextId)
  {
  }

  /** Candidates of edges extended by one: the last edge is kept after the others exactly when eligible. */
  lemma CandidatesAppend(p: seq<NextNodeModel>, e: NextNodeModel, eligibleIds: set<NodeId>)
    ensures Candidates(p + [e], eligibleIds) == Candidates(p, eligibleIds) + (if e.nextId in eligibleIds then [e] else [])
  {
    assert (p + [e])[..|p|] == p;
  }

  /** Filter of edges extended by one: the last edge is kept after the others exactly when its priority matches. */
  lemma FilterAppend(p: seq<NextNodeModel>, e: NextNodeModel, q: Option<int>)
    ensures Filter(p + [e], q) == Filter(p, q) + (if e.priority == q then [e] else [])
  {
    assert (p + [e])[..|p|] == p;
  }

  /** The best priority of edges extended by one: the last edge's priority when it ranks before the others'. */
  lemma BestPriorityAppend(p: seq<NextNodeModel>, e: NextNodeModel)
    requires |p| > 0
    ensures BestPriority(p + [e]) == if RanksBefore(e.priority, BestPriority(p)) then e.priority else BestPriority(p)
  {
    assert (p + [e])[..|p|] == p;
  }

  /** Node 1 leads to node 2 with priority 1 and node 3 with priority 2, both eligible: node 2 is chosen. */
  lemma TwoPrioritiesScenario()
    ensures SelectNext([NextNodeModel(2, Some(1)), NextNodeModel(3, Some(2))], {2, 3}, None) == Exactly(2)
  {
    var e0, e1 := NextNodeModel(2, Some(1)), NextNodeModel(3, Some(2));
    var ids := {2, 3};
    assert [e0, e1] == [e0] + [e1];
    CandidatesAppend([], e0, ids);
    CandidatesAppend([e0], e1, ids);
    BestPriorityAppend([e0], e1);
    FilterAppend([], e0, Some(1));
    FilterAppend([e0], e1, Some(1));
    assert TopGroup([e0, e1]) == [e0];
  }

  /** Priorities none, 2, 2 and 1, all eligible: the edge with priority 1 wins over the absent one. */
  lemma PresentPriorityBeatsAbsentScenario()
    ensures SelectNext([NextNodeModel(2, None), NextNodeModel(3, Some(2)), NextNodeModel(4, Some(2)), NextNodeModel(5, Some(1))],
                       {2, 3, 4, 5}, None) == Exactly(5)
  {
    var e0, e1, e2, e3 := NextNodeModel(2, None), NextNodeModel(3, Some(2)), NextNodeModel(4, Some(2)), NextNodeModel(5, Some(1));
    var ids := {2, 3, 4, 5};
    var p1, p2, p3 := [e0], [e0, e1], [e0, e1, e2];
    assert p2 == p1 + [e1] && p3 == p2 + [e2] && [e0, e1, e2, e3] == p3 + [e3];
    CandidatesAppend([], e0, ids);
    CandidatesAppend(p1, e1, ids);
    CandidatesAppend(p2, e2, ids);
    CandidatesAppend(p3, e3, ids);
    BestPriorityAppend(p1, e1);
    BestPriorityAppend(p2, e2);
    BestPriorityAppend(p3, e3);
    FilterAppend([], e0, Some(1));
    FilterAppend(p1, e1, Some(1));
    FilterAppend(p2, e2, Some(1));
    FilterAppend(p3, e3, Some(1));
    assert TopGroup([e0, e1, e2, e3]) == [e3];
  }

  /** Priorities none, 2 and 2, all eligible: one of the two priority-2 nodes is picked at random. */
  lemma TiedPrioritiesScenario()
    ensures SelectNext([NextNodeModel(2, None), NextNodeModel(3, Some(2)), NextNodeModel(4, Some(2))], {2, 3, 4}, None)
         == OneOf([3, 4])
  {
    var e0, e1, e2 := NextNodeModel(2, None), NextNodeModel(3, Some(2)), NextNodeModel(4, Some(2));
    var ids := {2, 3, 4};
    var p1, p2 := [e0], [e0, e1];
    assert p2 == p1 + [e1] && [e0, e1, e2] == p2 + [e2];
    CandidatesAppend([], e0, ids);
    CandidatesAppend(p1, e1, ids);
    CandidatesAppend(p2, e2, ids);
    BestPriorityAppend(p1, e1);
    BestPriorityAppend(p2, e2);
    FilterAppend([], e0, Some(2));
    FilterAppend(p1, e1, Some(2));
    FilterAppend(p2, e2, Some(2));
    assert TopGroup([e0, e1, e2]) == [e1, e2];
    assert Targets([e1, e2]) == [3, 4];
  }

  /** A requested node that is an edge target but not eligible gives no node, even if others are eligible. */
  lemma RequestedIneligibleScenario()
    ensures SelectNext([NextNodeModel(2, Some(1)), NextNodeModel(3, Some(2))], {2}, Some(3)) == NoNode
  {
    var edges := [NextNodeModel(2, Some(1)), NextNodeModel(3, Some(2))];
    assert edges[..1] == [edges[0]] && [edges[0]][..0] == [];
    assert Targets(edges)[1] == 3;
  }
}
