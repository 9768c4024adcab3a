/** The back-end election and replication engine (RaftEngine.ts, compiled
    unchanged to RaftEngine.js). The database collection of node records is
    the field `nodes`, in the collection's natural order, so that `findOne`
    is "the first matching record". Delayed callbacks (vote delivery, the
    election timer) are explicit steps the caller invokes; random draws are
    parameters; messages the engine saves and broadcasts are returned. */
module RaftEngine {
  import opened RaftTypes

  const ElectionTimeoutMin: int := 3000
  const ElectionTimeoutMax: int := 5000
  /** Delivery delay when no per-node delay is set. */
  const DefaultNetworkDelay: int := 100

  datatype VoteRequest = VoteRequest(
    from: string, to: string, term: int,
    lastLogIndex: int, lastLogTerm: int,
    clusterId: string, delay: int)

  datatype VoteResponse = VoteResponse(from: string, to: string, term: int, granted: bool, clusterId: string)

  datatype AppendEntries = AppendEntries(
    from: string, to: string, term: int,
    prevLogIndex: int, prevLogTerm: int, entries: seq<LogEntry>, leaderCommit: int,
    clusterId: string)

  // ---------------------------------------------------------------------
  // Timers and delays

  /** `networkDelay.get(id) || 100`: an unset delay, and also a delay of 0,
      falls back to 100 ms. */
  function DeliveryDelay(delays: map<string, int>, id: string): int
  {
    if id in delays && delays[id] != 0 then delays[id] else DefaultNetworkDelay
  }

  /** A delay explicitly set to 0 is not honoured and an unset one falls
      back to the default; every other delay is used as set. */
  lemma ZeroDelayIsDefault(delays: map<string, int>, id: string, d: int)
    ensures DeliveryDelay(delays[id := 0], id) == DefaultNetworkDelay
    ensures d != 0 ==> DeliveryDelay(delays[id := d], id) == d
    ensures id !in delays ==> DeliveryDelay(delays, id) == DefaultNetworkDelay
  {
  }

  /** getRandomTimeout for a uniform draw in [0,1): an integer in [3000, 5000). */
  function RandomTimeout(draw: real): (t: int)
    requires 0.0 <= draw < 1.0
    ensures ElectionTimeoutMin <= t < ElectionTimeoutMax
  {
    (draw * (ElectionTimeoutMax - ElectionTimeoutMin) as real).Floor + ElectionTimeoutMin
  }

  /** The partition table after togglePartition(id). */
  function TogglePartitionSet(s: set<string>, id: string): set<string>
  {
    if id in s then s - {id} else s + {id}
  }

  lemma TogglePartitionTwice(s: set<string>, id: string)
    ensures TogglePartitionSet(TogglePartitionSet(s, id), id) == s
    ensures id in TogglePartitionSet(s, id) <==> id !in s
    ensures forall x :: x != id ==> (x in TogglePartitionSet(s, id) <==> x in s)
  {
  }

  // ---------------------------------------------------------------------
  // Election

  /** A peer the engine talks to on behalf of `from`: another member of the
      same cluster that is alive and not partitioned. */
  predicate Reachable(n: Node, from: Node, partitioned: set<string>)
  {
    n.clusterId == from.clusterId && n.nodeId != from.nodeId && n.isAlive && n.nodeId !in partitioned
  }

  /** The filter of the updateMany in startElection: same cluster, another
      id, a lower term. Dead and partitioned records are not excluded. */
  predicate Outranked(n: Node, c: Node)
  {
    n.clusterId == c.clusterId && n.nodeId != c.nodeId && n.term < c.term
  }

  function RaisePeer(n: Node, c: Node): Node
  {
    if Outranked(n, c) then n.(votedFor := None, term := c.term, role := Follower) else n
  }

  /** The collection after startElection for the candidate record at k. */
  function ElectionNodes(ns: seq<Node>, k: nat): seq<Node>
    requires k < |ns|
  {
    var c := Candidacy(ns[k]);
    seq(|ns|, j requires 0 <= j < |ns| => RaisePeer(ns[k := c][j], c))
  }

  function VoteRequestTo(c: Node, n: Node, delays: map<string, int>): VoteRequest
  {
    VoteRequest(c.nodeId, n.nodeId, c.term, LastLogIndex(c.log), LastLogTerm(c.log),
                c.clusterId, DeliveryDelay(delays, n.nodeId))
  }

  /** The vote requests sent, in collection order, by candidate c. */
  function VoteRequests(ns: seq<Node>, c: Node, partitioned: set<string>, delays: map<string, int>): seq<VoteRequest>
  {
    if |ns| == 0 then []
    else
      var n := ns[|ns| - 1];
      VoteRequests(ns[..|ns| - 1], c, partitioned, delays)
        + (if Reachable(n, c, partitioned) then [VoteRequestTo(c, n, delays)] else [])
  }

  /** startElection does nothing for a missing, dead or partitioned candidate. */
  predicate ElectionBlocked(ns: seq<Node>, partitioned: set<string>, candidateId: string)
  {
    match FindNode(ns, candidateId)
    case None => true
    case Some(k) => !ns[k].isAlive || candidateId in partitioned
  }

  /** The collection and the vote requests after startElection(candidateId). */
  function ElectionStep(ns: seq<Node>, partitioned: set<string>, delays: map<string, int>, candidateId: string)
    : (seq<Node>, seq<VoteRequest>)
  {
    if ElectionBlocked(ns, partitioned, candidateId) then (ns, [])
    else
      var k := FindNode(ns, candidateId).value;
      var ns' := ElectionNodes(ns, k);
      (ns', VoteRequests(ns', ns'[k], partitioned, delays))
  }

  /** The candidate record becomes a candidate one term up that has voted for
      itself; every other record of its cluster with a lower term is lifted
      to the new term as a follower with no vote; all other records are
      untouched. */
  lemma ElectionNodesEffect(ns: seq<Node>, k: nat)
    requires k < |ns|
    ensures var r := ElectionNodes(ns, k);
      && SameIds(ns, r)
      && r[k] == ns[k].(role := Candidate, term := ns[k].term + 1, votedFor := Some(ns[k].nodeId), votes := 1)
      && (forall j :: 0 <= j < |ns| && j != k && ns[j].clusterId == ns[k].clusterId
            && ns[j].nodeId != ns[k].nodeId && ns[j].term < ns[k].term + 1
            ==> r[j] == ns[j].(votedFor := None, term := ns[k].term + 1, role := Follower))
      && (forall j :: 0 <= j < |ns| && j != k && !(ns[j].clusterId == ns[k].clusterId
            && ns[j].nodeId != ns[k].nodeId && ns[j].term < ns[k].term + 1)
            ==> r[j] == ns[j])
  {
  }

  /** Each request is from the candidate, for its current term, and carries
      its last log index and term; a request goes to exactly the reachable
      peers of the candidate. */
  lemma {:induction false} VoteRequestsExact(ns: seq<Node>, c: Node, partitioned: set<string>, delays: map<string, int>)
    ensures forall r :: r in VoteRequests(ns, c, partitioned, delays) ==>
      && r.from == c.nodeId && r.term == c.term && r.clusterId == c.clusterId
      && r.lastLogIndex == |c.log| - 1 && r.lastLogTerm == LastLogTerm(c.log)
      && exists j :: 0 <= j < |ns| && Reachable(ns[j], c, partitioned) && r == VoteRequestTo(c, ns[j], delays)
    ensures forall j :: 0 <= j < |ns| && Reachable(ns[j], c, partitioned) ==>
      VoteRequestTo(c, ns[j], delays) in VoteRequests(ns, c, partitioned, delays)
  {
    if |ns| > 0 {
      var init := ns[..|ns| - 1];
      VoteRequestsExact(init, c, partitioned, delays);
      forall r | r in VoteRequests(ns, c, partitioned, delays)
        ensures exists j :: 0 <= j < |ns| && Reachable(ns[j], c, partitioned) && r == VoteRequestTo(c, ns[j], delays)
      {
        if r in VoteRequests(init, c, partitioned, delays) {
          var j :| 0 <= j < |init| && Reachable(init[j], c, partitioned) && r == VoteRequestTo(c, init[j], delays);
          assert ns[j] == init[j];
        } else {
          assert Reachable(ns[|ns| - 1], c, partitioned) && r == VoteRequestTo(c, ns[|ns| - 1], delays);
        }
      }
      forall j | 0 <= j < |ns| && Reachable(ns[j], c, partitioned)
        ensures VoteRequestTo(c, ns[j], delays) in VoteRequests(ns, c, partitioned, delays)
      {
        if j < |ns| - 1 {
          assert ns[j] == init[j];
        }
      }
    }
  }

  /** The engine's own vote rule: a strictly newer request term, no
      conflicting vote, and a candidate log at least as up to date as the
      voter's, compared on (lastLogTerm, lastLogIndex) (the election
      restriction of section 5.4.1 of the Raft paper). */
  predicate LogUpToDate(cTerm: int, cIndex: int, vTerm: int, vIndex: int)
  {
    cTerm > vTerm || (cTerm == vTerm && cIndex >= vIndex)
  }

  predicate GrantsVote(voter: Node, req: VoteRequest)
  {
    && req.term > voter.term
    && (voter.votedFor == None || voter.votedFor == Some(req.from))
    && LogUpToDate(req.lastLogTerm, req.lastLogIndex, LastLogTerm(voter.log), LastLogIndex(voter.log))
  }

  /** "At least as up to date" is the lexicographic order on
      (lastLogTerm, lastLogIndex): a total preorder. */
  lemma LogUpToDateIsLexicographic(t1: int, i1: int, t2: int, i2: int, t3: int, i3: int)
    ensures LogUpToDate(t1, i1, t1, i1)
    ensures LogUpToDate(t1, i1, t2, i2) || LogUpToDate(t2, i2, t1, i1)
    ensures LogUpToDate(t1, i1, t2, i2) && LogUpToDate(t2, i2, t3, i3) ==> LogUpToDate(t1, i1, t3, i3)
    ensures LogUpToDate(t1, i1, t2, i2) && LogUpToDate(t2, i2, t1, i1) ==> t1 == t2 && i1 == i2
  {
  }

  /** Right after startElection no peer that receives one of the requests
      can grant it: each was lifted to the candidate's new term (or already
      had it), and the rule asks for a strictly greater request term. */
  lemma {:induction false} NoGrantRightAfterElection(
    ns: seq<Node>, partitioned: set<string>, delays: map<string, int>, candidateId: string,
    req: VoteRequest, j: nat)
    requires UniqueIds(ns)
    requires !ElectionBlocked(ns, partitioned, candidateId)
    requires req in ElectionStep(ns, partitioned, delays, candidateId).1
    requires j < |ns| && ElectionStep(ns, partitioned, delays, candidateId).0[j].nodeId == req.to
    ensures !GrantsVote(ElectionStep(ns, partitioned, delays, candidateId).0[j], req)
  {
    var k := FindNode(ns, candidateId).value;
    var r := ElectionNodes(ns, k);
    ElectionNodesEffect(ns, k);
    VoteRequestsExact(r, r[k], partitioned, delays);
    var i :| 0 <= i < |r| && Reachable(r[i], r[k], partitioned) && req == VoteRequestTo(r[k], r[i], delays);
    SameIdsKeepUnique(ns, r);
    assert i == j;
    assert req.term == r[k].term == ns[k].term + 1;
    assert r[j].term >= req.term;
  }

  /** The voter's update when it grants. */
  function CastVote(voter: Node, req: VoteRequest): Node
  {
    voter.(votedFor := Some(req.from), term := req.term)
  }

  /** Alive records of a cluster (countDocuments({clusterId, isAlive})). */
  function AliveCount(ns: seq<Node>, clusterId: string): nat
  {
    if |ns| == 0 then 0
    else AliveCount(ns[..|ns| - 1], clusterId)
         + (if ns[|ns| - 1].clusterId == clusterId && ns[|ns| - 1].isAlive then 1 else 0)
  }

  lemma {:induction false} AliveCountSameLiveness(a: seq<Node>, b: seq<Node>, clusterId: string)
    requires |a| == |b|
    requires forall i :: 0 <= i < |a| ==> a[i].clusterId == b[i].clusterId && a[i].isAlive == b[i].isAlive
    ensures AliveCount(a, clusterId) == AliveCount(b, clusterId)
  {
    if |a| > 0 {
      AliveCountSameLiveness(a[..|a| - 1], b[..|b| - 1], clusterId);
    }
  }

  /** becomeLeader's updateMany: other candidates of the cluster step down. */
  function StepDown(n: Node, l: Node): Node
  {
    if n.clusterId == l.clusterId && n.nodeId != l.nodeId && n.role == Candidate
    then n.(role := Follower, votes := 0) else n
  }

  /** The collection after becomeLeader for the record at li. */
  function LeaderNodes(ns: seq<Node>, li: nat): seq<Node>
    requires li < |ns|
  {
    var l := ns[li].(role := Leader);
    seq(|ns|, j requires 0 <= j < |ns| => StepDown(ns[li := l][j], l))
  }

  datatype VoteOutcome =
    | Dropped
    | Answered(nodes: seq<Node>, response: VoteResponse, promoted: bool)

  /** The tally of a granted vote at the candidate record ci, which was read
      as `cand` before the voter was saved: nothing unless that record was a
      candidate; otherwise its votes become cand.votes+1, and it becomes
      leader once that reaches the majority of its cluster's alive records. */
  function Tally(ns: seq<Node>, ci: nat, cand: Node, response: VoteResponse): VoteOutcome
    requires ci < |ns|
  {
    if cand.role != Candidate then Answered(ns, response, false)
    else
      var ns2 := ns[ci := ns[ci].(votes := cand.votes + 1)];
      if cand.votes + 1 >= Majority(AliveCount(ns2, cand.clusterId))
      then Answered(LeaderNodes(ns2, ci), response, true)
      else Answered(ns2, response, false)
  }

  /** handleVoteRequest, run when a vote request is delivered, evaluated
      against the collection at delivery time. The candidate record is read
      before the voter is saved; the tally does not compare the request term
      with the candidate's current term. */
  function DeliverVote(ns: seq<Node>, partitioned: set<string>, req: VoteRequest): VoteOutcome
  {
    var vi := FindNode(ns, req.to);
    var ci := FindNode(ns, req.from);
    if vi.None? || ci.None? || !ns[vi.value].isAlive || req.to in partitioned then Dropped
    else
      var voter := ns[vi.value];
      var cand := ns[ci.value];
      var granted := GrantsVote(voter, req);
      var response := VoteResponse(req.to, req.from, req.term, granted, voter.clusterId);
      if granted then Tally(ns[vi.value := CastVote(voter, req)], ci.value, cand, response)
      else Answered(ns, response, false)
  }

  /** A request for a missing voter or candidate, or a dead or partitioned
      voter, is dropped without effect; otherwise it is answered, granted
      exactly when the vote rule holds of the voter as it is at delivery. */
  lemma VoteGrantRule(ns: seq<Node>, partitioned: set<string>, req: VoteRequest)
    ensures DeliverVote(ns, partitioned, req).Dropped? <==>
      (FindNode(ns, req.to).None? || FindNode(ns, req.from).None?
       || !ns[FindNode(ns, req.to).value].isAlive || req.to in partitioned)
    ensures DeliverVote(ns, partitioned, req).Answered? ==>
      DeliverVote(ns, partitioned, req).response.granted
        == GrantsVote(ns[FindNode(ns, req.to).value], req)
  {
  }

  /** A refused vote changes nothing; a granted vote to a record that is no
      longer a candidate changes only the voter's votedFor and term. */
  lemma VoteWithoutTally(ns: seq<Node>, partitioned: set<string>, req: VoteRequest)
    requires DeliverVote(ns, partitioned, req).Answered?
    requires var ci := FindNode(ns, req.from).value;
      !DeliverVote(ns, partitioned, req).response.granted || ns[ci].role != Candidate
    ensures var o := DeliverVote(ns, partitioned, req);
      var vi := FindNode(ns, req.to).value;
      && !o.promoted
      && (!o.response.granted ==> o.nodes == ns)
      && (o.response.granted ==>
            o.nodes == ns[vi := ns[vi].(votedFor := Some(req.from), term := req.term)])
  {
  }

  /** A granted vote reaching a candidate adds one to its tally; it is
      promoted exactly when the tally reaches floor(alive/2)+1 of its
      cluster; then it leads and no other record of its cluster remains a
      candidate, each former candidate holding 0 votes. */
  lemma {:induction false} TallyAndPromotion(ns: seq<Node>, partitioned: set<string>, req: VoteRequest)
    requires DeliverVote(ns, partitioned, req).Answered?
    requires DeliverVote(ns, partitioned, req).response.granted
    requires ns[FindNode(ns, req.from).value].role == Candidate
    ensures var o := DeliverVote(ns, partitioned, req);
      var ci := FindNode(ns, req.from).value;
      var c := ns[ci];
      && |o.nodes| == |ns|
      && o.nodes[ci].votes == c.votes + 1
      && (o.promoted <==> c.votes + 1 >= Majority(AliveCount(ns, c.clusterId)))
      && (o.promoted ==> o.nodes[ci].role == Leader)
      && (o.promoted ==>
            (forall j :: 0 <= j < |ns| && j != ci && ns[j].clusterId == c.clusterId
               && ns[j].nodeId != req.from && ns[j].role == Candidate
               ==> o.nodes[j].role == Follower && o.nodes[j].votes == 0))
      && (!o.promoted ==> o.nodes[ci].role == Candidate)
  {
    var vi := FindNode(ns, req.to).value;
    var ci := FindNode(ns, req.from).value;
    var ns1 := ns[vi := CastVote(ns[vi], req)];
    var ns2 := ns1[ci := ns1[ci].(votes := ns[ci].votes + 1)];
    AliveCountSameLiveness(ns, ns2, ns[ci].clusterId);
  }

  /** The rest of a tallied vote: every record other than the candidate's
      is the collection after the voter's votedFor and term are saved, with
      becomeLeader's step-down applied on a promotion, and nothing else. */
  lemma TallyFrame(ns: seq<Node>, partitioned: set<string>, req: VoteRequest)
    requires DeliverVote(ns, partitioned, req).Answered?
    requires DeliverVote(ns, partitioned, req).response.granted
    requires ns[FindNode(ns, req.from).value].role == Candidate
    ensures var o := DeliverVote(ns, partitioned, req);
      var vi := FindNode(ns, req.to).value;
      var ci := FindNode(ns, req.from).value;
      var ns1 := ns[vi := CastVote(ns[vi], req)];
      && |o.nodes| == |ns|
      && forall j :: 0 <= j < |ns| && j != ci ==>
           o.nodes[j] == (if o.promoted then StepDown(ns1[j], o.nodes[ci]) else ns1[j])
  {
    var o := DeliverVote(ns, partitioned, req);
    var vi := FindNode(ns, req.to).value;
    var ci := FindNode(ns, req.from).value;
    var ns1 := ns[vi := CastVote(ns[vi], req)];
    var ns2 := ns1[ci := ns1[ci].(votes := ns[ci].votes + 1)];
    assert o == Tally(ns1, ci, ns[ci], o.response);
    if o.promoted {
      assert o.nodes == LeaderNodes(ns2, ci);
      var l := ns2[ci].(role := Leader);
      assert o.nodes[ci] == l;
      forall j | 0 <= j < |ns| && j != ci
        ensures o.nodes[j] == StepDown(ns1[j], o.nodes[ci])
      {
        assert ns2[ci := l][j] == ns1[j];
      }
    } else {
      assert o.nodes == ns2;
    }
  }

  // ---------------------------------------------------------------------
  // Replication

  /** The entry addLogEntry appends to the leader's log. */
  function NewEntry(leader: Node, command: string): LogEntry
  {
    LogEntry(leader.term, |leader.log|, command, false)
  }

  function AppendToLog(leader: Node, command: string): Node
  {
    leader.(log := leader.log + [NewEntry(leader, command)])
  }

  /** The first alive leader of the cluster (findOne({clusterId, state: 'leader', isAlive: true})). */
  function AliveLeader(ns: seq<Node>, clusterId: string): Option<nat>
  {
    FirstIndex(ns, (n: Node) => n.clusterId == clusterId && n.role == Leader && n.isAlive)
  }

  /** Appending keeps a leader record well formed, and the new entry sits at
      the old length with the leader's term, uncommitted. */
  lemma AppendKeepsWellFormed(leader: Node, command: string)
    requires WellFormed(leader)
    ensures WellFormed(AppendToLog(leader, command))
    ensures var l := AppendToLog(leader, command).log;
      l[..|leader.log|] == leader.log
      && l[|leader.log|] == LogEntry(leader.term, |leader.log|, command, false)
  {
  }

  /** `log.slice(-1)`: the last entry, or nothing for an empty log. */
  function LastEntries(log: seq<LogEntry>): seq<LogEntry>
  {
    if |log| > 0 then [log[|log| - 1]] else []
  }

  function AppendEntriesTo(l: Node, f: Node): AppendEntries
  {
    AppendEntries(l.nodeId, f.nodeId, l.term, |l.log| - 1, LastLogTerm(l.log),
                  LastEntries(l.log), l.commitIndex, l.clusterId)
  }

  /** The append_entries messages a leader sends, in collection order. */
  function FanOut(ns: seq<Node>, l: Node, partitioned: set<string>): seq<AppendEntries>
  {
    if |ns| == 0 then []
    else
      var n := ns[|ns| - 1];
      FanOut(ns[..|ns| - 1], l, partitioned)
        + (if Reachable(n, l, partitioned) then [AppendEntriesTo(l, n)] else [])
  }

  /** replicateLog(leaderId), which is also the body of startHeartbeats:
      nothing unless the record found is a leader. */
  function Replication(ns: seq<Node>, partitioned: set<string>, leaderId: string): seq<AppendEntries>
  {
    match FindNode(ns, leaderId)
    case None => []
    case Some(li) => if ns[li].role != Leader then [] else FanOut(ns, ns[li], partitioned)
  }

  /** Every append_entries goes to a reachable follower of the leader,
      carries prevLogIndex = len(log)-1, prevLogTerm = that entry's term (0
      for an empty log), at most the last entry, and leaderCommit; every
      reachable peer gets one. In a contiguous log the entry sent sits at
      prevLogIndex itself, not at prevLogIndex+1. */
  lemma {:induction false} FanOutExact(ns: seq<Node>, l: Node, partitioned: set<string>)
    ensures forall m :: m in FanOut(ns, l, partitioned) ==>
      && m.from == l.nodeId && m.term == l.term && m.leaderCommit == l.commitIndex
      && m.prevLogIndex == |l.log| - 1 && m.prevLogTerm == LastLogTerm(l.log)
      && |m.entries| <= 1 && m.entries == LastEntries(l.log)
      && (Contiguous(l.log) && m.entries != [] ==> m.entries[0].index == m.prevLogIndex)
      && exists j :: 0 <= j < |ns| && Reachable(ns[j], l, partitioned) && m.to == ns[j].nodeId
    ensures forall j :: 0 <= j < |ns| && Reachable(ns[j], l, partitioned) ==>
      AppendEntriesTo(l, ns[j]) in FanOut(ns, l, partitioned)
  {
    if |ns| > 0 {
      var init := ns[..|ns| - 1];
      FanOutExact(init, l, partitioned);
      forall m | m in FanOut(ns, l, partitioned)
        ensures exists j :: 0 <= j < |ns| && Reachable(ns[j], l, partitioned) && m.to == ns[j].nodeId
      {
        if m in FanOut(init, l, partitioned) {
          var j :| 0 <= j < |init| && Reachable(init[j], l, partitioned) && m.to == init[j].nodeId;
          assert ns[j] == init[j];
        } else {
          assert Reachable(ns[|ns| - 1], l, partitioned);
        }
      }
      forall j | 0 <= j < |ns| && Reachable(ns[j], l, partitioned)
        ensures AppendEntriesTo(l, ns[j]) in FanOut(ns, l, partitioned)
      {
        if j < |ns| - 1 {
          assert ns[j] == init[j];
        }
      }
    }
  }

  /** One heartbeat tick: startHeartbeats for every alive leader, in
      collection order, over all clusters. */
  function HeartbeatRound(ns: seq<Node>, partitioned: set<string>, upTo: nat): seq<AppendEntries>
    requires upTo <= |ns|
  {
    if upTo == 0 then []
    else
      var n := ns[upTo - 1];
      HeartbeatRound(ns, partitioned, upTo - 1)
        + (if n.role == Leader && n.isAlive then Replication(ns, partitioned, n.nodeId) else [])
  }

  // ---------------------------------------------------------------------
  // Failure and restart

  /** A restarted record is a well-formed fresh follower with an empty log
      that grants any request for a positive term; a failed record keeps its
      term and log. */
  lemma RestartAndFail(n: Node, req: VoteRequest)
    ensures WellFormed(Restarted(n))
    ensures req.term > 0 && req.lastLogTerm >= 0 && req.lastLogIndex >= -1 ==> GrantsVote(Restarted(n), req)
    ensures WellFormed(n) ==> WellFormed(Failed(n))
    ensures Failed(n).term == n.term && Failed(n).log == n.log && !Failed(n).isAlive
  {
  }

  // ---------------------------------------------------------------------
  // The loops of the engine, over a snapshot of the collection

  /** The updateMany of startElection, record by record. */
  method RaisePeers(ns: seq<Node>, c: Node) returns (r: seq<Node>)
    ensures |r| == |ns|
    ensures forall j :: 0 <= j < |ns| ==> r[j] == RaisePeer(ns[j], c)
  {
    r := ns;
    var i := 0;
    while i < |r|
      invariant 0 <= i <= |r| == |ns|
      invariant forall j :: 0 <= j < i ==> r[j] == RaisePeer(ns[j], c)
      invariant forall j :: i <= j < |r| ==> r[j] == ns[j]
    {
      if Outranked(r[i], c) {
        r := r[i := r[i].(votedFor := None, term := c.term, role := Follower)];
      }
      i := i + 1;
    }
  }

  /** The vote-request loop of startElection. */
  method CollectVoteRequests(ns: seq<Node>, c: Node, partitioned: set<string>, delays: map<string, int>)
    returns (requests: seq<VoteRequest>)
    ensures requests == VoteRequests(ns, c, partitioned, delays)
  {
    requests := [];
    var i := 0;
    while i < |ns|
      invariant 0 <= i <= |ns|
      invariant requests == VoteRequests(ns[..i], c, partitioned, delays)
    {
      assert ns[..i + 1][..i] == ns[..i];
      if Reachable(ns[i], c, partitioned) {
        requests := requests + [VoteRequestTo(c, ns[i], delays)];
      }
      i := i + 1;
    }
    assert ns[..|ns|] == ns;
  }

  // ---------------------------------------------------------------------
  // The engine

  class Engine {
    /** The RaftNode collection, in natural order. */
    var nodes: seq<Node>
    var partitionedNodes: set<string>
    var networkDelay: map<string, int>
    /** The armed election timer of each node, by its duration in ms. */
    var electionTimeouts: map<string, int>

    ghost predicate Valid()
      reads this
    {
      UniqueIds(nodes)
    }

    /** An engine over an existing collection (records are created by the
        HTTP layer, which is not part of this model). */
    constructor (initial: seq<Node>)
      requires UniqueIds(initial)
      ensures Valid()
      ensures nodes == initial && partitionedNodes == {} && networkDelay == map[] && electionTimeouts == map[]
    {
      nodes := initial;
      partitionedNodes := {};
      networkDelay := map[];
      electionTimeouts := map[];
    }

    /** registerNode: arms the node's election timer. */
    method RegisterNode(nodeId: string, draw: real)
      requires 0.0 <= draw < 1.0
      modifies this`electionTimeouts
      ensures electionTimeouts == old(electionTimeouts)[nodeId := RandomTimeout(draw)]
    {
      ResetElectionTimeout(nodeId, draw);
    }

    method StartElection(candidateId: string) returns (requests: seq<VoteRequest>)
      requires Valid()
      modifies this`nodes
      ensures Valid()
      ensures (nodes, requests) == ElectionStep(old(nodes), partitionedNodes, networkDelay, candidateId)
    {
      var found := FindNode(nodes, candidateId);
      if found.None? || !nodes[found.value].isAlive || candidateId in partitionedNodes {
        return [];
      }
      var k := found.value;
      ghost var before := nodes;
      var c := Candidacy(nodes[k]);
      var ns := RaisePeers(nodes[k := c], c);
      assert ns == ElectionNodes(before, k);
      ElectionNodesEffect(before, k);
      SameIdsKeepUnique(before, ns);
      nodes := ns;
      requests := CollectVoteRequests(nodes, c, partitionedNodes, networkDelay);
    }

    /** The delivery of one vote request (the delayed callback of
        sendVoteRequest). */
    method HandleVoteRequest(req: VoteRequest) returns (response: Option<VoteResponse>, heartbeats: seq<AppendEntries>)
      requires Valid()
      modifies this`nodes, this`electionTimeouts
      ensures Valid()
      ensures match DeliverVote(old(nodes), partitionedNodes, req)
        case Dropped =>
          && nodes == old(nodes) && response == None && heartbeats == []
          && electionTimeouts == old(electionTimeouts)
        case Answered(ns, resp, promoted) =>
          && nodes == ns && response == Some(resp)
          && (promoted ==> electionTimeouts == old(electionTimeouts) - {req.from}
                             && heartbeats == Replication(ns, partitionedNodes, req.from))
          && (!promoted ==> electionTimeouts == old(electionTimeouts) && heartbeats == [])
    {
      var vi := FindNode(nodes, req.to);
      var ci := FindNode(nodes, req.from);
      if vi.None? || ci.None? || !nodes[vi.value].isAlive || req.to in partitionedNodes {
        return None, [];
      }
      ghost var before := nodes;
      var voter := nodes[vi.value];
      var cand := nodes[ci.value];
      var granted := GrantsVote(voter, req);
      var resp := VoteResponse(req.to, req.from, req.term, granted, voter.clusterId);
      response := Some(resp);
      if granted {
        nodes := nodes[vi.value := CastVote(voter, req)];
        assert SameIds(before, nodes);
        SameIdsKeepUnique(before, nodes);
        heartbeats := TallyVote(ci.value, cand, resp);
      } else {
        heartbeats := [];
      }
    }

    /** The candidate's side of a granted vote. */
    method TallyVote(ci: nat, cand: Node, resp: VoteResponse) returns (heartbeats: seq<AppendEntries>)
      requires Valid()
      requires ci < |nodes| && nodes[ci].nodeId == cand.nodeId
      modifies this`nodes, this`electionTimeouts
      ensures Valid()
      ensures var o := Tally(old(nodes), ci, cand, resp);
        && nodes == o.nodes
        && (o.promoted ==> electionTimeouts == old(electionTimeouts) - {cand.nodeId}
                           && heartbeats == Replication(nodes, partitionedNodes, cand.nodeId))
        && (!o.promoted ==> electionTimeouts == old(electionTimeouts) && heartbeats == [])
    {
      if cand.role != Candidate {
        return [];
      }
      ghost var before := nodes;
      CountVote(ci, cand.votes + 1);
      ghost var counted := nodes;
      var majority := GetMajorityCount(cand.clusterId);
      if cand.votes + 1 >= majority {
        heartbeats := BecomeLeader(cand.nodeId);
        assert nodes == LeaderNodes(counted, ci);
        assert Tally(before, ci, cand, resp) == Answered(LeaderNodes(counted, ci), resp, true);
      } else {
        heartbeats := [];
        assert Tally(before, ci, cand, resp) == Answered(counted, resp, false);
      }
    }

    /** `candidate.votes += 1` saved back to the candidate's record. */
    method CountVote(ci: nat, votes: int)
      requires Valid()
      requires ci < |nodes|
      modifies this`nodes
      ensures Valid()
      ensures nodes == old(nodes)[ci := old(nodes)[ci].(votes := votes)]
      ensures FindNode(nodes, nodes[ci].nodeId) == Some(ci)
    {
      ghost var before := nodes;
      nodes := nodes[ci := nodes[ci].(votes := votes)];
      assert SameIds(before, nodes);
      SameIdsKeepUnique(before, nodes);
      FindNodeUnique(nodes, nodes[ci].nodeId, ci);
    }

    method BecomeLeader(leaderId: string) returns (heartbeats: seq<AppendEntries>)
      requires Valid()
      modifies this`nodes, this`electionTimeouts
      ensures Valid()
      ensures match FindNode(old(nodes), leaderId)
        case None =>
          nodes == old(nodes) && electionTimeouts == old(electionTimeouts) && heartbeats == []
        case Some(li) =>
          && nodes == LeaderNodes(old(nodes), li)
          && electionTimeouts == old(electionTimeouts) - {leaderId}
          && heartbeats == Replication(nodes, partitionedNodes, leaderId)
    {
      var found := FindNode(nodes, leaderId);
      if found.None? {
        return [];
      }
      var li := found.value;
      ghost var before := nodes;
      var l := nodes[li].(role := Leader);
      var ns := nodes[li := l];
      ghost var saved := ns;
      var i := 0;
      while i < |ns|
        invariant 0 <= i <= |ns| == |saved|
        invariant forall j :: 0 <= j < i ==> ns[j] == StepDown(saved[j], l)
        invariant forall j :: i <= j < |ns| ==> ns[j] == saved[j]
      {
        if ns[i].clusterId == l.clusterId && ns[i].nodeId != leaderId && ns[i].role == Candidate {
          ns := ns[i := ns[i].(role := Follower, votes := 0)];
        }
        i := i + 1;
      }
      assert ns == LeaderNodes(before, li);
      assert SameIds(before, ns);
      SameIdsKeepUnique(before, ns);
      nodes := ns;
      ClearElectionTimeout(leaderId);
      heartbeats := ReplicateLog(leaderId);
    }

    /** getMajorityCount: floor(alive/2)+1 over the cluster's alive records. */
    method GetMajorityCount(clusterId: string) returns (m: nat)
      ensures m == Majority(AliveCount(nodes, clusterId))
    {
      var alive := 0;
      var i := 0;
      while i < |nodes|
        invariant 0 <= i <= |nodes|
        invariant alive == AliveCount(nodes[..i], clusterId)
      {
        assert nodes[..i + 1][..i] == nodes[..i];
        if nodes[i].clusterId == clusterId && nodes[i].isAlive {
          alive := alive + 1;
        }
        i := i + 1;
      }
      assert nodes[..|nodes|] == nodes;
      m := alive / 2 + 1;
    }

    /** addLogEntry: false without an alive leader in the cluster; otherwise
        one entry is appended to the leader's log and replicated. */
    method AddLogEntry(clusterId: string, command: string) returns (ok: bool, messages: seq<AppendEntries>)
      requires Valid()
      modifies this`nodes
      ensures Valid()
      ensures match AliveLeader(old(nodes), clusterId)
        case None => !ok && nodes == old(nodes) && messages == []
        case Some(li) =>
          && ok
          && nodes == old(nodes)[li := AppendToLog(old(nodes)[li], command)]
          && messages == Replication(nodes, partitionedNodes, old(nodes)[li].nodeId)
    {
      var found := AliveLeader(nodes, clusterId);
      if found.None? {
        return false, [];
      }
      var li := found.value;
      ghost var before := nodes;
      nodes := nodes[li := AppendToLog(nodes[li], command)];
      assert SameIds(before, nodes);
      SameIdsKeepUnique(before, nodes);
      messages := ReplicateLog(nodes[li].nodeId);
      ok := true;
    }

    /** replicateLog / startHeartbeats. */
    method ReplicateLog(leaderId: string) returns (messages: seq<AppendEntries>)
      ensures messages == Replication(nodes, partitionedNodes, leaderId)
    {
      var found := FindNode(nodes, leaderId);
      if found.None? || nodes[found.value].role != Leader {
        return [];
      }
      var l := nodes[found.value];
      messages := [];
      var i := 0;
      while i < |nodes|
        invariant 0 <= i <= |nodes|
        invariant messages == FanOut(nodes[..i], l, partitionedNodes)
      {
        assert nodes[..i + 1][..i] == nodes[..i];
        if Reachable(nodes[i], l, partitionedNodes) {
          messages := messages + [AppendEntriesTo(l, nodes[i])];
        }
        i := i + 1;
      }
      assert nodes[..|nodes|] == nodes;
    }

    /** One tick of the heartbeat interval. */
    method HeartbeatTick() returns (messages: seq<AppendEntries>)
      ensures messages == HeartbeatRound(nodes, partitionedNodes, |nodes|)
    {
      messages := [];
      var i := 0;
      while i < |nodes|
        invariant 0 <= i <= |nodes|
        invariant messages == HeartbeatRound(nodes, partitionedNodes, i)
      {
        if nodes[i].role == Leader && nodes[i].isAlive {
          var sent := ReplicateLog(nodes[i].nodeId);
          messages := messages + sent;
        }
        i := i + 1;
      }
    }

    /** The election timer's callback: it starts an election only for an
        alive record that is still a follower. */
    method FireElectionTimeout(nodeId: string) returns (requests: seq<VoteRequest>)
      requires Valid()
      modifies this`nodes
      ensures Valid()
      ensures match FirstIndex(old(nodes), (n: Node) => n.nodeId == nodeId && n.isAlive)
        case None => nodes == old(nodes) && requests == []
        case Some(i) =>
          if old(nodes)[i].role == Follower
          then (nodes, requests) == ElectionStep(old(nodes), partitionedNodes, networkDelay, nodeId)
          else nodes == old(nodes) && requests == []
    {
      var found := FirstIndex(nodes, (n: Node) => n.nodeId == nodeId && n.isAlive);
      if found.Some? && nodes[found.value].role == Follower {
        requests := StartElection(nodeId);
      } else {
        requests := [];
      }
    }

    method FailNode(nodeId: string)
      requires Valid()
      modifies this`nodes, this`electionTimeouts
      ensures Valid()
      ensures electionTimeouts == old(electionTimeouts) - {nodeId}
      ensures match FindNode(old(nodes), nodeId)
        case None => nodes == old(nodes)
        case Some(i) => nodes == old(nodes)[i := Failed(old(nodes)[i])]
    {
      var found := FindNode(nodes, nodeId);
      if found.Some? {
        ghost var before := nodes;
        nodes := nodes[found.value := Failed(nodes[found.value])];
        assert SameIds(before, nodes);
        SameIdsKeepUnique(before, nodes);
      }
      ClearElectionTimeout(nodeId);
    }

    method RestartNode(nodeId: string, draw: real)
      requires Valid()
      requires 0.0 <= draw < 1.0
      modifies this`nodes, this`electionTimeouts
      ensures Valid()
      ensures match FindNode(old(nodes), nodeId)
        case None => nodes == old(nodes) && electionTimeouts == old(electionTimeouts)
        case Some(i) =>
          && nodes == old(nodes)[i := Restarted(old(nodes)[i])]
          && electionTimeouts == old(electionTimeouts)[nodeId := RandomTimeout(draw)]
    {
      var found := FindNode(nodes, nodeId);
      if found.Some? {
        ghost var before := nodes;
        nodes := nodes[found.value := Restarted(nodes[found.value])];
        assert SameIds(before, nodes);
        SameIdsKeepUnique(before, nodes);
        ResetElectionTimeout(nodeId, draw);
      }
    }

    method TogglePartition(nodeId: string)
      modifies this`partitionedNodes
      ensures partitionedNodes == TogglePartitionSet(old(partitionedNodes), nodeId)
    {
      if nodeId in partitionedNodes {
        partitionedNodes := partitionedNodes - {nodeId};
      } else {
        partitionedNodes := partitionedNodes + {nodeId};
      }
    }

    method SetNetworkDelay(nodeId: string, delay: int)
      modifies this`networkDelay
      ensures networkDelay == old(networkDelay)[nodeId := delay]
    {
      networkDelay := networkDelay[nodeId := delay];
    }

    method ResetElectionTimeout(nodeId: string, draw: real)
      requires 0.0 <= draw < 1.0
      modifies this`electionTimeouts
      ensures electionTimeouts == old(electionTimeouts)[nodeId := RandomTimeout(draw)]
      ensures nodeId in electionTimeouts
    {
      ClearElectionTimeout(nodeId);
      electionTimeouts := electionTimeouts[nodeId := RandomTimeout(draw)];
    }

    method ClearElectionTimeout(nodeId: string)
      modifies this`electionTimeouts
      ensures electionTimeouts == old(electionTimeouts) - {nodeId}
      ensures nodeId !in electionTimeouts
    {
      if nodeId in electionTimeouts {
        electionTimeouts := electionTimeouts - {nodeId};
      }
    }
  }
}
