/** The client-side simulation of the stand-alone front end (src/App.tsx):
    pure rewrites of the node list. Each delayed state update is a function
    of the list it finds; every `Math.random()` draw is a parameter. */
module AppSimulation {
  import opened RaftTypes

  /** A node that counts for quorums here: alive and not partitioned. */
  predicate Voting(n: Node)
  {
    n.isAlive && !n.isPartitioned
  }

  /** `nodes.filter(n => n.isAlive && !n.isPartitioned)`. */
  function VotingNodes(ns: seq<Node>): (r: seq<Node>)
    ensures |r| <= |ns|
  {
    if |ns| == 0 then []
    else
      var last := ns[|ns| - 1];
      VotingNodes(ns[..|ns| - 1]) + (if Voting(last) then [last] else [])
  }

  /** The filter keeps exactly the voting nodes. */
  lemma {:induction false} VotingNodesMembers(ns: seq<Node>)
    ensures forall x :: x in VotingNodes(ns) <==> x in ns && Voting(x)
  {
    if |ns| > 0 {
      var init := ns[..|ns| - 1];
      VotingNodesMembers(init);
      assert ns == init + [ns[|ns| - 1]];
    }
  }

  lemma {:induction false} VotingNodesSameLiveness(a: seq<Node>, b: seq<Node>)
    requires |a| == |b|
    requires forall i :: 0 <= i < |a| ==> Voting(a[i]) == Voting(b[i])
    ensures |VotingNodes(a)| == |VotingNodes(b)|
  {
    if |a| > 0 {
      VotingNodesSameLiveness(a[..|a| - 1], b[..|b| - 1]);
    }
  }

  /** Filtering a list of voting nodes again keeps all of it. */
  lemma {:induction false} VotingNodesOfVoting(ns: seq<Node>)
    requires forall i :: 0 <= i < |ns| ==> Voting(ns[i])
    ensures VotingNodes(ns) == ns
  {
    if |ns| > 0 {
      VotingNodesOfVoting(ns[..|ns| - 1]);
      assert ns[..|ns| - 1] + [ns[|ns| - 1]] == ns;
    }
  }

  // ---------------------------------------------------------------------
  // validateElection

  function ValidateElection(candidateId: string, ns: seq<Node>): bool
  {
    match FindNode(ns, candidateId)
    case None => false
    case Some(i) => ns[i].isAlive && ns[i].votes >= Majority(|VotingNodes(ns)|)
  }

  /** Elected means: the candidate is present and alive and holds a strict
      majority of the alive, unpartitioned nodes of the list. */
  lemma ValidateElectionMeaning(candidateId: string, ns: seq<Node>)
    ensures ValidateElection(candidateId, ns) <==>
      FindNode(ns, candidateId).Some?
      && ns[FindNode(ns, candidateId).value].isAlive
      && 2 * ns[FindNode(ns, candidateId).value].votes > |VotingNodes(ns)|
  {
  }

  // ---------------------------------------------------------------------
  // replicateLogEntry

  /** A follower the leader replicates to. */
  predicate Replica(n: Node, leaderId: string)
  {
    n.isAlive && !n.isPartitioned && n.nodeId != leaderId
  }

  /** replicateLogEntry; draws[j] is whether the copy to the node at
      position j succeeds. */
  function ReplicateLogEntry(leaderId: string, entry: LogEntry, ns: seq<Node>, draws: seq<bool>): seq<Node>
    requires |draws| == |ns|
  {
    match FindNode(ns, leaderId)
    case None => ns
    case Some(li) =>
      if ns[li].role != Leader then ns
      else seq(|ns|, j requires 0 <= j < |ns| =>
             (if Replica(ns[j], leaderId) && draws[j] then ns[j].(log := ns[j].log + [entry]) else ns[j]))
  }

  /** Nothing changes when the leader is missing or no longer leads.
      Otherwise the list keeps its length and the leader's records are
      untouched; a node changes only by gaining the entry at the end of its
      log, and only when it is an alive, unpartitioned follower whose draw
      succeeded. */
  lemma ReplicateLogEntryEffect(leaderId: string, entry: LogEntry, ns: seq<Node>, draws: seq<bool>)
    requires |draws| == |ns|
    ensures var r := ReplicateLogEntry(leaderId, entry, ns, draws);
      && |r| == |ns|
      && (FindNode(ns, leaderId).None? || ns[FindNode(ns, leaderId).value].role != Leader ==> r == ns)
      && (forall j :: 0 <= j < |ns| && ns[j].nodeId == leaderId ==> r[j] == ns[j])
      && (forall j :: 0 <= j < |ns| ==>
            r[j] == ns[j] || (Replica(ns[j], leaderId) && draws[j] && r[j] == ns[j].(log := ns[j].log + [entry])))
      && (FindNode(ns, leaderId).Some? && ns[FindNode(ns, leaderId).value].role == Leader ==>
            forall j :: 0 <= j < |ns| && Replica(ns[j], leaderId) && draws[j] ==>
              r[j].log == ns[j].log + [entry])
  {
  }

  // ---------------------------------------------------------------------
  // handleStartElection

  /** A follower that may be picked as candidate. */
  predicate Electable(n: Node)
  {
    n.role == Follower && n.isAlive && !n.isPartitioned
  }

  function Electables(ns: seq<Node>): (r: seq<Node>)
    ensures |r| <= |ns|
    ensures forall x :: x in r <==> x in ns && Electable(x)
  {
    if |ns| == 0 then []
    else
      var last := ns[|ns| - 1];
      assert forall x :: x in ns <==> x in ns[..|ns| - 1] || x == last;
      Electables(ns[..|ns| - 1]) + (if Electable(last) then [last] else [])
  }

  /** `Math.floor(r * len)` for a draw r in [0,1). */
  function PickIndex(len: nat, r: real): (i: nat)
    requires len > 0 && 0.0 <= r < 1.0
    ensures i < len
  {
    assert r * len as real < len as real by {
      assert (1.0 - r) * len as real > 0.0;
    }
    (r * len as real).Floor
  }

  /** The node map of handleStartElection for candidate c. */
  function ElectionMap(ns: seq<Node>, c: Node, newTerm: int): seq<Node>
  {
    seq(|ns|, j requires 0 <= j < |ns| =>
      if ns[j].nodeId == c.nodeId
      then ns[j].(role := Candidate, term := newTerm, votes := 1, votedFor := Some(c.nodeId))
      else if ns[j].role == Leader then ns[j].(role := Follower)
      else ns[j].(term := newTerm, votedFor := None))
  }

  /** handleStartElection's synchronous part: the new list and the id of the
      candidate whose vote count is then awaited. */
  function StartElection(ns: seq<Node>, r: real): (seq<Node>, Option<string>)
    requires 0.0 <= r < 1.0
  {
    var fs := Electables(ns);
    if |fs| == 0 then (ns, None)
    else
      var c := fs[PickIndex(|fs|, r)];
      (ElectionMap(ns, c, MaxTerm(ns) + 1), Some(c.nodeId))
  }

  /** Without an electable follower nothing happens. Otherwise the chosen
      candidate is an alive, unpartitioned follower; its records stand at a
      term above every old term with one vote; former leaders step down
      keeping their term; every other node moves to the new term with no
      vote, dead nodes included; no term decreases. */
  lemma StartElectionEffect(ns: seq<Node>, r: real)
    requires 0.0 <= r < 1.0
    ensures var (ns', cand) := StartElection(ns, r);
      && |ns'| == |ns|
      && (cand.None? <==> forall j :: 0 <= j < |ns| ==> !Electable(ns[j]))
      && (cand.None? ==> ns' == ns)
      && (cand.Some? ==>
            && (exists j :: 0 <= j < |ns| && ns[j].nodeId == cand.value && Electable(ns[j]))
            && (forall j :: 0 <= j < |ns| ==> ns'[j].term >= ns[j].term && Voting(ns'[j]) == Voting(ns[j]))
            && (forall j :: 0 <= j < |ns| && ns[j].nodeId == cand.value ==>
                  ns'[j].role == Candidate && ns'[j].votes == 1 && ns'[j].votedFor == Some(cand.value)
                  && forall i :: 0 <= i < |ns| ==> ns'[j].term > ns[i].term)
            && (forall j :: 0 <= j < |ns| && ns[j].nodeId != cand.value && ns[j].role == Leader ==>
                  ns'[j] == ns[j].(role := Follower))
            && (forall j :: 0 <= j < |ns| && ns[j].nodeId != cand.value && ns[j].role != Leader ==>
                  ns'[j] == ns[j].(term := ns'[j].term, votedFor := None) && ns'[j].term > ns[j].term))
  {
    var fs := Electables(ns);
    if |fs| == 0 {
      forall j | 0 <= j < |ns|
        ensures !Electable(ns[j])
      {
        assert ns[j] in ns;
      }
    } else {
      var c := fs[PickIndex(|fs|, r)];
      assert c in fs;
      assert c in ns;
    }
  }

  /** The new term is shared: the candidate's records and every node that
      did not lead all stand at one term, one above the largest old term. */
  lemma StartElectionNewTerm(ns: seq<Node>, r: real)
    requires 0.0 <= r < 1.0
    ensures var (ns', cand) := StartElection(ns, r);
      cand.Some? ==>
        && |ns| > 0
        && forall j :: 0 <= j < |ns| && (ns[j].nodeId == cand.value || ns[j].role != Leader) ==>
             ns'[j].term == MaxTerm(ns) + 1
  {
    StartElectionEffect(ns, r);
  }

  function CountTrue(bs: seq<bool>): (n: nat)
    ensures n <= |bs|
  {
    if |bs| == 0 then 0 else CountTrue(bs[..|bs| - 1]) + (if bs[|bs| - 1] then 1 else 0)
  }

  /** The delayed vote phase of handleStartElection: nothing unless the
      candidate is still a candidate; otherwise its records get the number of
      successful draws (one draw per alive, unpartitioned node) as votes, and
      lead exactly when validateElection holds of the alive, unpartitioned
      nodes, which reads their stored votes. */
  function ElectionCallback(ns: seq<Node>, candidateId: string, draws: seq<bool>): seq<Node>
    requires |draws| == |VotingNodes(ns)|
  {
    match FindNode(ns, candidateId)
    case None => ns
    case Some(i) =>
      if ns[i].role != Candidate then ns
      else
        var received := CountTrue(draws);
        var elected := ValidateElection(candidateId, VotingNodes(ns));
        seq(|ns|, j requires 0 <= j < |ns| =>
          if ns[j].nodeId == candidateId
          then ns[j].(votes := received, role := if elected then Leader else Follower)
          else ns[j])
  }

  /** A tally of 1 is no majority once two nodes are alive and unpartitioned. */
  lemma OneVoteNeverElects(ns: seq<Node>, candidateId: string)
    requires |VotingNodes(ns)| >= 2
    requires forall j :: 0 <= j < |ns| && ns[j].nodeId == candidateId ==> ns[j].votes == 1
    ensures !ValidateElection(candidateId, VotingNodes(ns))
  {
    var alive := VotingNodes(ns);
    VotingNodesMembers(ns);
    forall i | 0 <= i < |alive|
      ensures Voting(alive[i])
    {
      assert alive[i] in alive;
    }
    VotingNodesOfVoting(alive);
    var f := FindNode(alive, candidateId);
    if f.Some? {
      var x := alive[f.value];
      assert x in alive;
      var j :| 0 <= j < |ns| && ns[j] == x;
      assert x.votes == 1;
      assert Majority(|alive|) >= 2;
    }
  }

  /** The roles the vote phase leaves do not depend on the votes drawn. */
  lemma ElectionIgnoresDraws(ns: seq<Node>, candidateId: string, d1: seq<bool>, d2: seq<bool>)
    requires |d1| == |d2| == |VotingNodes(ns)|
    ensures var r1 := ElectionCallback(ns, candidateId, d1);
      var r2 := ElectionCallback(ns, candidateId, d2);
      |r1| == |r2| == |ns| && forall j :: 0 <= j < |ns| ==> r1[j].role == r2[j].role
  {
  }

  lemma OneVoteEndsFollower(ns: seq<Node>, candidateId: string, draws: seq<bool>)
    requires |draws| == |VotingNodes(ns)| >= 2
    requires forall j :: 0 <= j < |ns| && ns[j].nodeId == candidateId ==> ns[j].votes == 1 && ns[j].role == Candidate
    ensures forall j :: 0 <= j < |ns| && ns[j].nodeId == candidateId ==>
      ElectionCallback(ns, candidateId, draws)[j].role == Follower
  {
    OneVoteNeverElects(ns, candidateId);
    forall j | 0 <= j < |ns| && ns[j].nodeId == candidateId
      ensures ElectionCallback(ns, candidateId, draws)[j].role == Follower
    {
      var f := FindNode(ns, candidateId);
    }
  }

  /** So an election whose vote phase runs on the list it produced never
      elects anyone when two or more nodes are alive and unpartitioned. */
  lemma {:induction false} ElectionNeverSucceeds(ns: seq<Node>, r: real, draws: seq<bool>)
    requires 0.0 <= r < 1.0
    requires |VotingNodes(ns)| >= 2
    requires StartElection(ns, r).1.Some?
    requires |draws| == |VotingNodes(StartElection(ns, r).0)|
    ensures var (ns', cand) := StartElection(ns, r);
      forall j :: 0 <= j < |ns'| && ns'[j].nodeId == cand.value ==>
        ElectionCallback(ns', cand.value, draws)[j].role == Follower
  {
    var fs := Electables(ns);
    var c := fs[PickIndex(|fs|, r)];
    var ns' := ElectionMap(ns, c, MaxTerm(ns) + 1);
    var cand := Some(c.nodeId);
    assert (ns', cand) == StartElection(ns, r);
    VotingNodesSameLiveness(ns, ns');
    assert |draws| == |VotingNodes(ns')|;
    assert |VotingNodes(ns')| >= 2;
    forall j | 0 <= j < |ns'| && ns'[j].nodeId == c.nodeId
      ensures ns'[j].votes == 1 && ns'[j].role == Candidate
    {
      assert ns[j].nodeId == c.nodeId;
    }
    OneVoteEndsFollower(ns', cand.value, draws);
  }

  // ---------------------------------------------------------------------
  // handleAddLogEntry

  datatype PendingEntry = PendingEntry(leaderId: string, entry: LogEntry)

  /** The synchronous part: the first alive leader's records gain the entry
      {leader term, index len(log), uncommitted}; the replication phase is
      left pending. */
  function AddLogEntry(ns: seq<Node>, command: string): (seq<Node>, Option<PendingEntry>)
  {
    match FirstIndex(ns, (n: Node) => n.role == Leader && n.isAlive)
    case None => (ns, None)
    case Some(li) =>
      var l := ns[li];
      var e := LogEntry(l.term, |l.log|, command, false);
      (seq(|ns|, j requires 0 <= j < |ns| => if ns[j].nodeId == l.nodeId then ns[j].(log := ns[j].log + [e]) else ns[j]),
       Some(PendingEntry(l.nodeId, e)))
  }

  lemma AddLogEntryEffect(ns: seq<Node>, command: string)
    ensures var (ns', p) := AddLogEntry(ns, command);
      && |ns'| == |ns|
      && (p.None? <==> forall j :: 0 <= j < |ns| ==> !(ns[j].role == Leader && ns[j].isAlive))
      && (p.None? ==> ns' == ns)
      && (p.Some? ==>
            && (exists li :: 0 <= li < |ns| && ns[li].nodeId == p.value.leaderId && ns[li].role == Leader && ns[li].isAlive
                  && p.value.entry == LogEntry(ns[li].term, |ns[li].log|, command, false)
                  && forall k :: 0 <= k < li ==> !(ns[k].role == Leader && ns[k].isAlive))
            && (forall j :: 0 <= j < |ns| && ns[j].nodeId == p.value.leaderId ==> ns'[j].log == ns[j].log + [p.value.entry])
            && (forall j :: 0 <= j < |ns| && ns[j].nodeId != p.value.leaderId ==> ns'[j] == ns[j]))
  {
  }

  /** Whether a log holds an entry with the same index and term. */
  predicate HoldsEntry(log: seq<LogEntry>, e: LogEntry)
  {
    exists k :: 0 <= k < |log| && log[k].index == e.index && log[k].term == e.term
  }

  function ReplicatedCount(ns: seq<Node>, e: LogEntry): nat
  {
    if |ns| == 0 then 0
    else ReplicatedCount(ns[..|ns| - 1], e) + (if HoldsEntry(ns[|ns| - 1].log, e) then 1 else 0)
  }

  function MarkCommitted(log: seq<LogEntry>, e: LogEntry): seq<LogEntry>
  {
    seq(|log|, k requires 0 <= k < |log| =>
      if log[k].index == e.index && log[k].term == e.term then log[k].(committed := true) else log[k])
  }

  function Max(a: int, b: int): int
  {
    if a >= b then a else b
  }

  /** The commit rule: once a majority of the alive, unpartitioned count
      holds the entry (holders counted over every node), every matching
      entry is marked committed and every node's commitIndex is raised to
      at least the entry's index. */
  function CommitIfReplicated(ns: seq<Node>, e: LogEntry): seq<Node>
  {
    if ReplicatedCount(ns, e) >= Majority(|VotingNodes(ns)|)
    then seq(|ns|, j requires 0 <= j < |ns| =>
           ns[j].(log := MarkCommitted(ns[j].log, e), commitIndex := Max(ns[j].commitIndex, e.index)))
    else ns
  }

  /** The delayed replication phase of handleAddLogEntry. */
  function ReplicationCallback(ns: seq<Node>, p: PendingEntry, draws: seq<bool>): seq<Node>
    requires |draws| == |ns|
  {
    CommitIfReplicated(ReplicateLogEntry(p.leaderId, p.entry, ns, draws), p.entry)
  }

  /** Below the threshold nothing changes. Committing keeps every log's
      length and order of terms and indices, never un-commits an entry and
      never lowers a commitIndex; when the threshold is met, exactly the
      entries matching (index, term) become committed and every commitIndex
      becomes the larger of itself and the entry's index. */
  lemma CommitMonotone(ns: seq<Node>, e: LogEntry)
    ensures var r := CommitIfReplicated(ns, e);
      && |r| == |ns|
      && (ReplicatedCount(ns, e) < Majority(|VotingNodes(ns)|) ==> r == ns)
      && forall j :: 0 <= j < |ns| ==>
        && r[j].commitIndex >= ns[j].commitIndex
        && |r[j].log| == |ns[j].log|
        && (forall k :: 0 <= k < |ns[j].log| ==>
              r[j].log[k].index == ns[j].log[k].index && r[j].log[k].term == ns[j].log[k].term
              && (ns[j].log[k].committed ==> r[j].log[k].committed))
        && (ReplicatedCount(ns, e) >= Majority(|VotingNodes(ns)|) ==>
              r[j].commitIndex == Max(ns[j].commitIndex, e.index)
              && forall k :: 0 <= k < |ns[j].log| ==>
                   (r[j].log[k].committed <==>
                      (ns[j].log[k].committed || (ns[j].log[k].index == e.index && ns[j].log[k].term == e.term))))
  {
  }

  /** The commitIndex is raised on nodes that do not hold the entry too, so
      a node whose log is shorter than the entry's index leaves the
      invariant commitIndex <= len(log)-1. */
  lemma CommitOverreaches(ns: seq<Node>, e: LogEntry, j: nat)
    requires ReplicatedCount(ns, e) >= Majority(|VotingNodes(ns)|)
    requires j < |ns| && e.index >= |ns[j].log|
    ensures !WellFormed(CommitIfReplicated(ns, e)[j])
  {
  }

  // ---------------------------------------------------------------------
  // handleNodeAction

  datatype NodeAction = Remove | Fail | Restart | Partition | OtherAction

  /** The update of one record; `maxTerm` is Math.max(...terms, 0) over the
      list before the action. */
  function ApplyAction(n: Node, a: NodeAction, maxTerm: int): Node
  {
    match a
    case Fail => n.(isAlive := false, role := Follower, votes := 0)
    case Restart => n.(isAlive := true, role := Follower, term := maxTerm, votes := 0, votedFor := None, isPartitioned := false)
    case Partition => n.(isPartitioned := !n.isPartitioned)
    case _ => n
  }

  /** The records without the given id, in order. */
  function WithoutId(ns: seq<Node>, id: string): (r: seq<Node>)
    ensures |r| <= |ns|
  {
    if |ns| == 0 then []
    else
      var last := ns[|ns| - 1];
      WithoutId(ns[..|ns| - 1], id) + (if last.nodeId != id then [last] else [])
  }

  /** The filter keeps exactly the records with another id. */
  lemma {:induction false} WithoutIdMembers(ns: seq<Node>, id: string)
    ensures forall x :: x in WithoutId(ns, id) <==> x in ns && x.nodeId != id
  {
    if |ns| > 0 {
      var init := ns[..|ns| - 1];
      WithoutIdMembers(init, id);
      assert ns == init + [ns[|ns| - 1]];
    }
  }

  function ApplyNodeAction(ns: seq<Node>, id: string, a: NodeAction): seq<Node>
  {
    if a == Remove then WithoutId(ns, id)
    else
      var maxTerm := MaxTermOrZero(ns);
      seq(|ns|, j requires 0 <= j < |ns| => if ns[j].nodeId == id then ApplyAction(ns[j], a, maxTerm) else ns[j])
  }

  /** Remove drops exactly the records with the id: one record fewer when
      ids are unique and the id is present, nothing when it is absent. */
  lemma RemoveEffect(ns: seq<Node>, id: string)
    ensures forall x :: x in ApplyNodeAction(ns, id, Remove) <==> x in ns && x.nodeId != id
    ensures UniqueIds(ns) && FindNode(ns, id).Some? ==> |ApplyNodeAction(ns, id, Remove)| == |ns| - 1
    ensures UniqueIds(ns) && FindNode(ns, id).None? ==> ApplyNodeAction(ns, id, Remove) == ns
  {
    WithoutIdMembers(ns, id);
    WithoutIdCount(ns, id);
  }

  /** Fail takes the node down as a follower with no votes, without
      touching its vote or term; no other record changes. */
  lemma FailEffect(ns: seq<Node>, id: string)
    ensures |ApplyNodeAction(ns, id, Fail)| == |ns|
    ensures forall j :: 0 <= j < |ns| && ns[j].nodeId == id ==>
      var f := ApplyNodeAction(ns, id, Fail)[j];
      !f.isAlive && f.role == Follower && f.votes == 0 && f.votedFor == ns[j].votedFor && f.term == ns[j].term
    ensures forall j :: 0 <= j < |ns| && ns[j].nodeId != id ==> ApplyNodeAction(ns, id, Fail)[j] == ns[j]
  {
  }

  /** Restart brings the node up, unpartitioned, as a follower with no vote
      at the largest term of the list, keeping its log. */
  lemma RestartEffect(ns: seq<Node>, id: string)
    ensures |ApplyNodeAction(ns, id, Restart)| == |ns|
    ensures forall j :: 0 <= j < |ns| && ns[j].nodeId == id ==>
      var r := ApplyNodeAction(ns, id, Restart)[j];
      Voting(r) && r.role == Follower && r.votes == 0 && r.votedFor == None && r.log == ns[j].log
      && r == ns[j].(isAlive := true, role := Follower, term := MaxTermOrZero(ns), votes := 0, votedFor := None, isPartitioned := false)
      && r.term >= 0 && forall i :: 0 <= i < |ns| ==> r.term >= ns[i].term
    ensures forall j :: 0 <= j < |ns| && ns[j].nodeId != id ==> ApplyNodeAction(ns, id, Restart)[j] == ns[j]
  {
  }

  /** Partition applied twice, and any other action, change nothing. */
  lemma PartitionTwiceAndOther(ns: seq<Node>, id: string)
    ensures ApplyNodeAction(ApplyNodeAction(ns, id, Partition), id, Partition) == ns
    ensures ApplyNodeAction(ns, id, OtherAction) == ns
  {
  }

  /** The election that handleNodeAction schedules one second after failing
      a leader. The timer calls the handleStartElection of the render that
      handled the action, which reads the list from before the action
      (`before`); `current` is the list when the timer fires. Without an
      electable follower in `before` nothing is written. */
  function FollowUpElection(before: seq<Node>, current: seq<Node>, r: real): (seq<Node>, Option<string>)
    requires 0.0 <= r < 1.0
  {
    var (ns', cand) := StartElection(before, r);
    if cand.None? then (current, None) else (ns', cand)
  }

  /** The follow-up election undoes the failure it reacts to: when it finds
      a candidate, the failed leader's records come back as they were
      before the failure, alive, only stepped down to follower; when it
      finds none, the failed list stays. */
  lemma FollowUpUndoesFailure(ns: seq<Node>, id: string, r: real)
    requires 0.0 <= r < 1.0
    ensures var failed := ApplyNodeAction(ns, id, Fail);
      var (ns', cand) := FollowUpElection(ns, failed, r);
      && (cand.None? ==> ns' == failed)
      && (cand.Some? ==>
            && |ns'| == |ns|
            && forall j :: 0 <= j < |ns| && ns[j].nodeId == id && ns[j].role == Leader && id != cand.value ==>
                 ns'[j] == ns[j].(role := Follower) && ns'[j].isAlive == ns[j].isAlive && !failed[j].isAlive)
  {
    StartElectionEffect(ns, r);
    FailEffect(ns, id);
  }

  lemma {:induction false} WithoutIdCount(ns: seq<Node>, id: string)
    ensures UniqueIds(ns) && FindNode(ns, id).Some? ==> |WithoutId(ns, id)| == |ns| - 1
    ensures UniqueIds(ns) && FindNode(ns, id).None? ==> WithoutId(ns, id) == ns
  {
    if |ns| > 0 {
      var init := ns[..|ns| - 1];
      WithoutIdCount(init, id);
      if UniqueIds(ns) {
        assert UniqueIds(init);
        var fi := FindNode(init, id);
        if ns[|ns| - 1].nodeId == id {
          assert fi.None?;
        } else if FindNode(ns, id).Some? {
          assert fi.Some?;
        } else {
          assert fi.None?;
        }
      }
    }
  }
}
