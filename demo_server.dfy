/** The in-memory demo server (server.js): a second, self-contained engine
    over three module-level variables, the node array, the message log and
    the id counter. Node objects are never removed from the array, so a
    callback that captured a node object is modelled by its position. The
    random outcome of each delayed callback is a parameter of the step that
    delivers it. */
module DemoServer {
  import opened RaftTypes
  import opened BoundedLog

  const MessageCap: nat := 100
  const DefaultCluster: string := "default"

  datatype MessageKind = VoteRequestMsg | VoteResponseMsg | AppendEntriesMsg | AppendEntriesResponseMsg | HeartbeatMsg

  datatype MessageData = NoData | VoteGranted(granted: bool) | Entries(entries: seq<LogEntry>)

  /** A logged message (its timestamp is not modelled). */
  datatype Message = Message(kind: MessageKind, from: string, to: string, term: int, data: MessageData, success: bool)

  /** createNode: the fixed defaults of a new record; the position is drawn
      at random in the source and is a parameter here. */
  function CreateNode(nodeId: string, position: Position): (n: Node)
    ensures WellFormed(n) && n.isAlive && n.log == [] && n.role == Follower
    ensures n.term == 0 && n.votedFor == None && n.votes == 0 && !n.isPartitioned
    ensures n.commitIndex == -1 && n.lastApplied == -1
    ensures n.nodeId == nodeId && n.clusterId == DefaultCluster && n.position == position
  {
    Node(nodeId, DefaultCluster, Follower, 0, None, [], true, 0, -1, -1, false, position)
  }

  // ---------------------------------------------------------------------
  // Generated ids

  function DigitChar(d: nat): char
    requires d < 10
  {
    (d + 48) as char
  }

  /** The decimal rendering of a counter value. */
  function NatToString(n: nat): (s: string)
    ensures |s| >= 1
    ensures |s| == 1 <==> n < 10
    ensures forall i :: 0 <= i < |s| ==> '0' <= s[i] <= '9'
  {
    if n < 10 then [DigitChar(n)] else NatToString(n / 10) + [DigitChar(n % 10)]
  }

  /** Distinct counter values render differently. */
  lemma {:induction false} NatToStringInjective(a: nat, b: nat)
    requires NatToString(a) == NatToString(b)
    ensures a == b
    decreases a
  {
    var s := NatToString(a);
    if a >= 10 {
      assert b >= 10;
      assert NatToString(a / 10) == s[..|s| - 1] == NatToString(b / 10);
      NatToStringInjective(a / 10, b / 10);
      assert DigitChar(a % 10) == s[|s| - 1] == DigitChar(b % 10);
    }
  }

  /** `node-${n}`. */
  function GeneratedId(n: nat): string
  {
    "node-" + NatToString(n)
  }

  lemma GeneratedIdsDiffer(a: nat, b: nat)
    requires a != b
    ensures GeneratedId(a) != GeneratedId(b)
  {
    if GeneratedId(a) == GeneratedId(b) {
      assert NatToString(a) == GeneratedId(a)[5..] == GeneratedId(b)[5..] == NatToString(b);
      NatToStringInjective(a, b);
    }
  }

  // ---------------------------------------------------------------------
  // Node-array predicates and the messages of each handler

  /** No two records share both cluster and nodeId. */
  ghost predicate UniquePairs(ns: seq<Node>)
  {
    forall i, j :: 0 <= i < j < |ns| ==> ns[i].clusterId != ns[j].clusterId || ns[i].nodeId != ns[j].nodeId
  }

  /** Two node arrays with the same cluster and nodeId position by position. */
  ghost predicate SameKeys(a: seq<Node>, b: seq<Node>)
  {
    |a| == |b| && forall i :: 0 <= i < |a| ==> a[i].nodeId == b[i].nodeId && a[i].clusterId == b[i].clusterId
  }

  lemma SameKeysKeepUniquePairs(a: seq<Node>, b: seq<Node>)
    requires SameKeys(a, b) && UniquePairs(a)
    ensures UniquePairs(b)
  {
  }

  /** The first record with this cluster and nodeId (the POST route's check). */
  function FindPair(ns: seq<Node>, clusterId: string, nodeId: string): Option<nat>
  {
    FirstIndex(ns, (n: Node) => n.clusterId == clusterId && n.nodeId == nodeId)
  }

  /** Appending a record whose (cluster, id) is new keeps pairs unique, and
      appending one whose id is new keeps ids unique. */
  lemma AppendKeepsUnique(ns: seq<Node>, n: Node)
    ensures UniquePairs(ns) && FindPair(ns, n.clusterId, n.nodeId).None? ==> UniquePairs(ns + [n])
    ensures UniqueIds(ns) && FindNode(ns, n.nodeId).None? ==> UniqueIds(ns + [n])
  {
    var r := ns + [n];
    assert forall i :: 0 <= i < |ns| ==> r[i] == ns[i];
  }

  /** An id no record carries is new in every cluster. */
  lemma NewIdIsNewPair(ns: seq<Node>, clusterId: string, id: string)
    requires FindNode(ns, id).None?
    ensures FindPair(ns, clusterId, id).None?
  {
  }

  /** The first alive leader of any cluster. */
  function FirstAliveLeader(ns: seq<Node>): Option<nat>
  {
    FirstIndex(ns, (n: Node) => n.role == Leader && n.isAlive)
  }

  /** Positions, below upTo, of the alive records with another id: the
      peers a message goes to. Partitioning is not consulted. */
  function Peers(ns: seq<Node>, id: string, upTo: nat): (r: seq<nat>)
    requires upTo <= |ns|
    ensures forall a :: 0 <= a < |r| ==> r[a] < upTo
  {
    if upTo == 0 then []
    else Peers(ns, id, upTo - 1) + (if ns[upTo - 1].nodeId != id && ns[upTo - 1].isAlive then [upTo - 1] else [])
  }

  lemma {:induction false} PeersExact(ns: seq<Node>, id: string, upTo: nat)
    requires upTo <= |ns|
    ensures forall j :: j in Peers(ns, id, upTo) <==> 0 <= j < upTo && ns[j].nodeId != id && ns[j].isAlive
    ensures forall a, b :: 0 <= a < b < |Peers(ns, id, upTo)| ==> Peers(ns, id, upTo)[a] < Peers(ns, id, upTo)[b]
  {
    if upTo > 0 {
      PeersExact(ns, id, upTo - 1);
    }
  }

  /** One message of the given kind from `from` to each listed record. */
  function MessagesTo(ns: seq<Node>, targets: seq<nat>, kind: MessageKind, from: string, term: int, data: MessageData): (ms: seq<Message>)
    requires forall i :: 0 <= i < |targets| ==> targets[i] < |ns|
    ensures |ms| == |targets|
    ensures forall i :: 0 <= i < |targets| ==> ms[i] == Message(kind, from, ns[targets[i]].nodeId, term, data, true)
  {
    if |targets| == 0 then []
    else MessagesTo(ns, targets[..|targets| - 1], kind, from, term, data)
           + [Message(kind, from, ns[targets[|targets| - 1]].nodeId, term, data, true)]
  }

  /** Alive records over all clusters. */
  function AliveTotal(ns: seq<Node>): nat
  {
    if |ns| == 0 then 0 else AliveTotal(ns[..|ns| - 1]) + (if ns[|ns| - 1].isAlive then 1 else 0)
  }

  lemma {:induction false} AliveTotalSameLiveness(a: seq<Node>, b: seq<Node>)
    requires |a| == |b|
    requires forall i :: 0 <= i < |a| ==> a[i].isAlive == b[i].isAlive
    ensures AliveTotal(a) == AliveTotal(b)
  {
    if |a| > 0 {
      AliveTotalSameLiveness(a[..|a| - 1], b[..|b| - 1]);
    }
  }

  /** The promotion of the record at k: it leads, and every record with
      another id, in any cluster, becomes a follower with no votes. */
  function Promote(ns: seq<Node>, k: nat): seq<Node>
    requires k < |ns|
  {
    seq(|ns|, j requires 0 <= j < |ns| =>
      if j == k then ns[k].(role := Leader)
      else if ns[j].nodeId != ns[k].nodeId then ns[j].(role := Follower, votes := 0)
      else ns[j])
  }

  /** The node array after a vote response reaches the candidate at k: a
      granted vote adds one, whatever the candidate's role or term now is;
      it is promoted when its votes reach the majority of all alive records
      while it is still a candidate. */
  function ResponseNodes(ns: seq<Node>, k: nat, granted: bool): seq<Node>
    requires k < |ns|
  {
    var ns1 := if granted then ns[k := ns[k].(votes := ns[k].votes + 1)] else ns;
    if ns1[k].votes >= Majority(AliveTotal(ns1)) && ns1[k].role == Candidate then Promote(ns1, k) else ns1
  }

  /** A vote response changes roles and tallies only, so (cluster, nodeId)
      pairs stay unique. */
  lemma ResponseKeepsUniquePairs(ns: seq<Node>, k: nat, granted: bool)
    requires k < |ns| && UniquePairs(ns)
    ensures UniquePairs(ResponseNodes(ns, k, granted))
  {
    var ns1 := if granted then ns[k := ns[k].(votes := ns[k].votes + 1)] else ns;
    assert SameKeys(ns, ns1);
    SameKeysKeepUniquePairs(ns, ns1);
    var p := Promote(ns1, k);
    assert SameKeys(ns1, p);
    SameKeysKeepUniquePairs(ns1, p);
  }

  /** A promotion makes the candidate the only leader among the records
      with other ids: every record with another id, whatever cluster it is
      in, becomes a follower with no votes, while a record that shares the
      candidate's id in another cluster is left as it was. */
  lemma PromoteIsolates(ns: seq<Node>, k: nat, granted: bool)
    requires k < |ns|
    requires ns[k].role == Candidate
    ensures var r := ResponseNodes(ns, k, granted);
      && SameKeys(ns, r)
      && r[k].votes == ns[k].votes + (if granted then 1 else 0)
      && (r[k].role == Leader ==>
            forall j :: 0 <= j < |r| && j != k ==>
              if ns[j].nodeId != ns[k].nodeId then r[j] == ns[j].(role := Follower, votes := 0)
              else r[j] == ns[j])
      && (r[k].role == Leader <==> ns[k].votes + (if granted then 1 else 0) >= Majority(AliveTotal(ns)))
  {
    var ns1 := if granted then ns[k := ns[k].(votes := ns[k].votes + 1)] else ns;
    AliveTotalSameLiveness(ns, ns1);
  }

  /** The heartbeats one leader sends, in array order: every alive,
      unpartitioned record with another id. */
  function HeartbeatsFrom(ns: seq<Node>, l: Node, upTo: nat): seq<Message>
    requires upTo <= |ns|
  {
    if upTo == 0 then []
    else
      var f := ns[upTo - 1];
      HeartbeatsFrom(ns, l, upTo - 1)
        + (if f.nodeId != l.nodeId && f.isAlive && !f.isPartitioned
           then [Message(HeartbeatMsg, l.nodeId, f.nodeId, l.term, NoData, true)] else [])
  }

  /** What one record contributes to a tick. */
  function LeaderTick(ns: seq<Node>, l: Node): seq<Message>
  {
    if l.role == Leader && l.isAlive then HeartbeatsFrom(ns, l, |ns|) else []
  }

  /** All heartbeats of one tick, leader by leader in array order. */
  function HeartbeatMessages(ns: seq<Node>, upTo: nat): seq<Message>
    requires upTo <= |ns|
  {
    if upTo == 0 then [] else HeartbeatMessages(ns, upTo - 1) + LeaderTick(ns, ns[upTo - 1])
  }

  lemma {:induction false} HeartbeatsFromExact(ns: seq<Node>, l: Node, upTo: nat)
    requires upTo <= |ns|
    ensures forall m :: m in HeartbeatsFrom(ns, l, upTo) ==>
      m.kind == HeartbeatMsg && m.from == l.nodeId && m.term == l.term
      && exists j :: 0 <= j < upTo && ns[j].nodeId == m.to && m.to != l.nodeId && ns[j].isAlive && !ns[j].isPartitioned
    ensures forall j :: 0 <= j < upTo && ns[j].nodeId != l.nodeId && ns[j].isAlive && !ns[j].isPartitioned ==>
      Message(HeartbeatMsg, l.nodeId, ns[j].nodeId, l.term, NoData, true) in HeartbeatsFrom(ns, l, upTo)
  {
    if upTo > 0 {
      HeartbeatsFromExact(ns, l, upTo - 1);
    }
  }

  lemma HeartbeatMessagesStep(ns: seq<Node>, i: nat)
    requires i < |ns|
    ensures HeartbeatMessages(ns, i + 1) == HeartbeatMessages(ns, i) + LeaderTick(ns, ns[i])
  {
  }

  /** Every heartbeat of a tick goes from an alive leader to an alive,
      unpartitioned record with another id. */
  lemma {:induction false} HeartbeatMessagesSound(ns: seq<Node>, upTo: nat)
    requires upTo <= |ns|
    ensures forall m :: m in HeartbeatMessages(ns, upTo) ==>
      m.kind == HeartbeatMsg
      && (exists i :: 0 <= i < upTo && ns[i].role == Leader && ns[i].isAlive && ns[i].nodeId == m.from && ns[i].term == m.term)
      && (exists j :: 0 <= j < |ns| && ns[j].nodeId == m.to && m.to != m.from && ns[j].isAlive && !ns[j].isPartitioned)
  {
    if upTo > 0 {
      HeartbeatMessagesSound(ns, upTo - 1);
      var l := ns[upTo - 1];
      var tick := LeaderTick(ns, l);
      HeartbeatsFromExact(ns, l, |ns|);
      forall m | m in tick
        ensures exists i :: 0 <= i < upTo && ns[i].role == Leader && ns[i].isAlive && ns[i].nodeId == m.from && ns[i].term == m.term
      {
        assert ns[upTo - 1] == l;
      }
    }
  }

  /** Every alive leader sends one heartbeat to every alive, unpartitioned
      record with another id. */
  lemma {:induction false} HeartbeatMessagesComplete(ns: seq<Node>, upTo: nat)
    requires upTo <= |ns|
    ensures forall i, j :: (0 <= i < upTo && 0 <= j < |ns| && ns[i].role == Leader && ns[i].isAlive
        && ns[j].nodeId != ns[i].nodeId && ns[j].isAlive && !ns[j].isPartitioned) ==>
      Message(HeartbeatMsg, ns[i].nodeId, ns[j].nodeId, ns[i].term, NoData, true) in HeartbeatMessages(ns, upTo)
  {
    if upTo > 0 {
      HeartbeatMessagesComplete(ns, upTo - 1);
      var l := ns[upTo - 1];
      var tick := LeaderTick(ns, l);
      HeartbeatsFromExact(ns, l, |ns|);
    }
  }

  /** A follower appends the leader's entry as it is, index included: the
      log stays contiguous only when the entry lands exactly at that index. */
  lemma FollowerAppendContiguity(log: seq<LogEntry>, e: LogEntry)
    requires Contiguous(log)
    ensures Contiguous(log + [e]) <==> e.index == |log|
  {
    assert (log + [e])[|log|] == e;
  }

  /** For instance a follower that missed the first entry keeps the second
      one at position 0 with index 1. */
  lemma FollowerAppendGap()
    ensures !Contiguous([] + [LogEntry(1, 1, "set x", false)])
  {
    assert ([] + [LogEntry(1, 1, "set x", false)])[0].index == 1;
  }

  /** The loop over the node array that addresses one message to each
      alive record with another id than `from`. */
  method PeerMessages(ns: seq<Node>, kind: MessageKind, from: string, term: int, data: MessageData)
    returns (pending: seq<nat>, msgs: seq<Message>)
    ensures pending == Peers(ns, from, |ns|)
    ensures msgs == MessagesTo(ns, pending, kind, from, term, data)
  {
    msgs := [];
    pending := [];
    var i := 0;
    while i < |ns|
      invariant 0 <= i <= |ns|
      invariant pending == Peers(ns, from, i)
      invariant msgs == MessagesTo(ns, pending, kind, from, term, data)
    {
      if ns[i].nodeId != from && ns[i].isAlive {
        ghost var prev := pending;
        msgs := msgs + [Message(kind, from, ns[i].nodeId, term, data, true)];
        pending := pending + [i];
        assert pending[..|pending| - 1] == prev;
      }
      i := i + 1;
    }
  }

  /** The promotion loop of the vote-response callback. */
  method PromoteAll(ns: seq<Node>, k: nat) returns (r: seq<Node>)
    requires k < |ns|
    ensures r == Promote(ns, k)
  {
    r := ns[k := ns[k].(role := Leader)];
    var i := 0;
    while i < |r|
      invariant 0 <= i <= |r| == |ns|
      invariant r[k] == ns[k].(role := Leader)
      invariant forall t :: 0 <= t < i && t != k ==> r[t] == Promote(ns, k)[t]
      invariant forall t :: i <= t < |r| && t != k ==> r[t] == ns[t]
    {
      if r[i].nodeId != ns[k].nodeId && i != k {
        r := r[i := r[i].(role := Follower, votes := 0)];
      }
      i := i + 1;
    }
  }

  // ---------------------------------------------------------------------
  // The server state

  class Server {
    var nodes: seq<Node>
    var messages: seq<Message>
    var nodeCounter: nat
    /** Every message ever logged, oldest first. */
    ghost var sent: seq<Message>

    /** The message log holds the last 100 messages ever logged, in order,
        and no cluster holds two records with the same nodeId. */
    ghost predicate Valid()
      reads this
    {
      UniquePairs(nodes) && messages == Window(sent, MessageCap)
    }

    constructor ()
      ensures Valid()
      ensures nodes == [] && messages == [] && nodeCounter == 0 && sent == []
    {
      nodes := [];
      messages := [];
      nodeCounter := 0;
      sent := [];
    }

    /** addMessage: append, then drop the oldest once over 100. */
    method AddMessage(m: Message)
      requires Valid()
      modifies this`messages, this`sent
      ensures Valid()
      ensures sent == old(sent) + [m]
      ensures messages == PushBounded(old(messages), m, MessageCap)
      ensures |messages| <= MessageCap && messages[|messages| - 1] == m
    {
      PushWindow(sent, m, MessageCap);
      sent := sent + [m];
      var t := messages + [m];
      if |t| > MessageCap {
        t := t[1..];
      }
      messages := t;
    }

    method AddMessages(ms: seq<Message>)
      requires Valid()
      modifies this`messages, this`sent
      ensures Valid()
      ensures sent == old(sent) + ms
    {
      ghost var start := sent;
      var i := 0;
      while i < |ms|
        invariant 0 <= i <= |ms|
        invariant Valid()
        invariant sent == start + ms[..i]
      {
        ghost var done := ms[..i];
        assert ms[..i + 1] == done + [ms[i]];
        AddMessage(ms[i]);
        assert (start + done) + [ms[i]] == start + (done + [ms[i]]);
        i := i + 1;
      }
      assert ms[..|ms|] == ms;
    }

    /** register-node. An empty id stands for a missing one and is replaced
        by the next generated id; an id already present adds nothing. */
    method RegisterNode(nodeId: string, position: Position) returns (id: string)
      requires Valid()
      modifies this`nodes, this`nodeCounter
      ensures Valid()
      ensures nodeId != "" ==> id == nodeId && nodeCounter == old(nodeCounter)
      ensures nodeId == "" ==> id == GeneratedId(old(nodeCounter) + 1) && nodeCounter == old(nodeCounter) + 1
      ensures FindNode(old(nodes), id).Some? ==> nodes == old(nodes)
      ensures FindNode(old(nodes), id).None? ==> nodes == old(nodes) + [CreateNode(id, position)]
      ensures UniqueIds(old(nodes)) ==> UniqueIds(nodes)
    {
      id := nodeId;
      if id == "" {
        nodeCounter := nodeCounter + 1;
        id := GeneratedId(nodeCounter);
      }
      var found := FindNode(nodes, id);
      if found.None? {
        var n := CreateNode(id, position);
        NewIdIsNewPair(nodes, n.clusterId, id);
        AppendKeepsUnique(nodes, n);
        nodes := nodes + [n];
      }
    }

    /** The POST route: rejected when the cluster already holds the id;
        otherwise a default record in that cluster, at the given position if
        one was supplied. */
    method CreateNodeRoute(clusterId: string, nodeId: string, position: Option<Position>, drawn: Position)
      returns (ok: bool)
      requires Valid()
      modifies this`nodes
      ensures Valid()
      ensures ok <==> FindPair(old(nodes), clusterId, nodeId).None?
      ensures !ok ==> nodes == old(nodes)
      ensures ok ==> nodes == old(nodes) + [CreateNode(nodeId, Pick(position, drawn)).(clusterId := clusterId)]
    {
      if FindPair(nodes, clusterId, nodeId).Some? {
        return false;
      }
      var node := CreateNode(nodeId, Pick(position, drawn)).(clusterId := clusterId);
      AppendKeepsUnique(nodes, node);
      nodes := nodes + [node];
      ok := true;
    }

    /** start-election: the candidate's own update and one vote request to
        each other alive record; returns the positions of the records whose
        responses are pending. */
    method StartElection(candidateId: string) returns (pending: seq<nat>)
      requires Valid()
      modifies this`nodes, this`messages, this`sent
      ensures Valid()
      ensures forall i :: 0 <= i < |pending| ==> pending[i] < |nodes|
      ensures match FindNode(old(nodes), candidateId)
        case None => nodes == old(nodes) && sent == old(sent) && pending == []
        case Some(k) =>
          if !old(nodes)[k].isAlive then nodes == old(nodes) && sent == old(sent) && pending == []
          else
            && nodes == old(nodes)[k := Candidacy(old(nodes)[k])]
            && pending == Peers(nodes, candidateId, |nodes|)
            && sent == old(sent) + MessagesTo(nodes, pending, VoteRequestMsg, candidateId, nodes[k].term, NoData)
    {
      var found := FindNode(nodes, candidateId);
      if found.None? || !nodes[found.value].isAlive {
        return [];
      }
      var k := found.value;
      ghost var before := nodes;
      nodes := nodes[k := Candidacy(nodes[k])];
      assert SameKeys(before, nodes);
      SameKeysKeepUniquePairs(before, nodes);
      pending := SendToPeers(VoteRequestMsg, candidateId, nodes[k].term, NoData);
    }

    /** One message to each alive record with another id than `from`, in
        array order; returns their positions. */
    method SendToPeers(kind: MessageKind, from: string, term: int, data: MessageData) returns (pending: seq<nat>)
      requires Valid()
      modifies this`messages, this`sent
      ensures Valid()
      ensures pending == Peers(nodes, from, |nodes|)
      ensures sent == old(sent) + MessagesTo(nodes, pending, kind, from, term, data)
    {
      var msgs;
      pending, msgs := PeerMessages(nodes, kind, from, term, data);
      AddMessages(msgs);
    }

    /** The delayed vote-response callback of start-election for the
        candidate at k and the voter at j. The voter record is not updated. */
    method DeliverVoteResponse(k: nat, j: nat, granted: bool)
      requires Valid()
      requires k < |nodes| && j < |nodes|
      modifies this`nodes, this`messages, this`sent
      ensures Valid()
      ensures sent == old(sent) + [Message(VoteResponseMsg, old(nodes)[j].nodeId, old(nodes)[k].nodeId,
                                           old(nodes)[k].term, VoteGranted(granted), granted)]
      ensures nodes == ResponseNodes(old(nodes), k, granted)
    {
      var cand := nodes[k];
      AddMessage(Message(VoteResponseMsg, nodes[j].nodeId, cand.nodeId, cand.term, VoteGranted(granted), granted));
      TallyResponse(k, granted);
    }

    /** The candidate's side of the vote-response callback. */
    method TallyResponse(k: nat, granted: bool)
      requires Valid()
      requires k < |nodes|
      modifies this`nodes
      ensures Valid()
      ensures nodes == ResponseNodes(old(nodes), k, granted)
    {
      ghost var before := nodes;
      ResponseKeepsUniquePairs(before, k, granted);
      if granted {
        nodes := nodes[k := nodes[k].(votes := nodes[k].votes + 1)];
      }
      assert nodes == if granted then before[k := before[k].(votes := before[k].votes + 1)] else before;
      var alive := CountAlive();
      if nodes[k].votes >= Majority(alive) && nodes[k].role == Candidate {
        nodes := PromoteAll(nodes, k);
      }
      assert nodes == ResponseNodes(before, k, granted);
    }

    /** `nodes.filter(n => n.isAlive).length`. */
    method CountAlive() returns (count: nat)
      ensures count == AliveTotal(nodes)
    {
      count := 0;
      var i := 0;
      while i < |nodes|
        invariant 0 <= i <= |nodes|
        invariant count == AliveTotal(nodes[..i])
      {
        assert nodes[..i + 1][..i] == nodes[..i];
        if nodes[i].isAlive {
          count := count + 1;
        }
        i := i + 1;
      }
      assert nodes[..|nodes|] == nodes;
    }

    /** add-log-entry: without an alive leader nothing changes and an error
        is reported (ok false). Otherwise the first alive leader appends the
        entry and one append_entries carrying it goes to each other alive
        record, whose positions are returned. */
    method AddLogEntry(command: string) returns (ok: bool, li: nat, entry: LogEntry, pending: seq<nat>)
      requires Valid()
      modifies this`nodes, this`messages, this`sent
      ensures Valid()
      ensures forall i :: 0 <= i < |pending| ==> pending[i] < |nodes|
      ensures match FirstAliveLeader(old(nodes))
        case None => !ok && nodes == old(nodes) && sent == old(sent) && pending == []
        case Some(l) =>
          && ok && li == l
          && entry == LogEntry(old(nodes)[l].term, |old(nodes)[l].log|, command, false)
          && nodes == old(nodes)[l := old(nodes)[l].(log := old(nodes)[l].log + [entry])]
          && pending == Peers(nodes, nodes[l].nodeId, |nodes|)
          && sent == old(sent) + MessagesTo(nodes, pending, AppendEntriesMsg, nodes[l].nodeId, nodes[l].term, Entries([entry]))
    {
      var found := FirstAliveLeader(nodes);
      if found.None? {
        return false, 0, LogEntry(0, 0, command, false), [];
      }
      li := found.value;
      var leader := nodes[li];
      entry := LogEntry(leader.term, |leader.log|, command, false);
      ghost var before := nodes;
      nodes := nodes[li := leader.(log := leader.log + [entry])];
      assert SameKeys(before, nodes);
      SameKeysKeepUniquePairs(before, nodes);
      pending := SendToPeers(AppendEntriesMsg, leader.nodeId, leader.term, Entries([entry]));
      ok := true;
    }

    /** The delayed append-response callback for the leader at li and the
        follower at j: on success the follower appends a copy of the entry,
        whatever its log or liveness now is. */
    method DeliverAppendResponse(li: nat, j: nat, entry: LogEntry, success: bool)
      requires Valid()
      requires li < |nodes| && j < |nodes|
      modifies this`nodes, this`messages, this`sent
      ensures Valid()
      ensures sent == old(sent) + [Message(AppendEntriesResponseMsg, old(nodes)[j].nodeId, old(nodes)[li].nodeId,
                                           old(nodes)[li].term, NoData, success)]
      ensures success ==> nodes == old(nodes)[j := old(nodes)[j].(log := old(nodes)[j].log + [entry])]
      ensures !success ==> nodes == old(nodes)
    {
      AddMessage(Message(AppendEntriesResponseMsg, nodes[j].nodeId, nodes[li].nodeId, nodes[li].term, NoData, success));
      if success {
        nodes := nodes[j := nodes[j].(log := nodes[j].log + [entry])];
      }
    }

    /** node-failure, node-restart and network-partition: the first record
        with the id is updated; an unknown id changes nothing. */
    method NodeFailure(nodeId: string)
      requires Valid()
      modifies this`nodes
      ensures Valid()
      ensures match FindNode(old(nodes), nodeId)
        case None => nodes == old(nodes)
        case Some(i) => nodes == old(nodes)[i := Failed(old(nodes)[i])]
    {
      var found := FindNode(nodes, nodeId);
      if found.Some? {
        ghost var before := nodes;
        nodes := nodes[found.value := Failed(nodes[found.value])];
        assert SameKeys(before, nodes);
        SameKeysKeepUniquePairs(before, nodes);
      }
    }

    method NodeRestart(nodeId: string)
      requires Valid()
      modifies this`nodes
      ensures Valid()
      ensures match FindNode(old(nodes), nodeId)
        case None => nodes == old(nodes)
        case Some(i) => nodes == old(nodes)[i := Restarted(old(nodes)[i])]
    {
      var found := FindNode(nodes, nodeId);
      if found.Some? {
        ghost var before := nodes;
        nodes := nodes[found.value := Restarted(nodes[found.value])];
        assert SameKeys(before, nodes);
        SameKeysKeepUniquePairs(before, nodes);
      }
    }

    method NetworkPartition(nodeId: string)
      requires Valid()
      modifies this`nodes
      ensures Valid()
      ensures match FindNode(old(nodes), nodeId)
        case None => nodes == old(nodes)
        case Some(i) => nodes == old(nodes)[i := old(nodes)[i].(isPartitioned := !old(nodes)[i].isPartitioned)]
    {
      var found := FindNode(nodes, nodeId);
      if found.Some? {
        var n := nodes[found.value];
        ghost var before := nodes;
        nodes := nodes[found.value := n.(isPartitioned := !n.isPartitioned)];
        assert SameKeys(before, nodes);
        SameKeysKeepUniquePairs(before, nodes);
      }
    }

    /** One tick of the heartbeat interval. */
    method HeartbeatTick()
      requires Valid()
      modifies this`messages, this`sent
      ensures Valid()
      ensures sent == old(sent) + HeartbeatMessages(nodes, |nodes|)
    {
      ghost var start := sent;
      var i := 0;
      while i < |nodes|
        invariant 0 <= i <= |nodes|
        invariant Valid()
        invariant sent == start + HeartbeatMessages(nodes, i)
      {
        HeartbeatMessagesStep(nodes, i);
        ghost var done := HeartbeatMessages(nodes, i);
        ghost var tick := LeaderTick(nodes, nodes[i]);
        LeaderHeartbeats(nodes[i]);
        assert (start + done) + tick == start + (done + tick);
        i := i + 1;
      }
    }

    /** The heartbeats of one record of the tick: none unless it is an
        alive leader. */
    method LeaderHeartbeats(l: Node)
      requires Valid()
      modifies this`messages, this`sent
      ensures Valid()
      ensures sent == old(sent) + LeaderTick(nodes, l)
    {
      if l.role == Leader && l.isAlive {
        var beats := Heartbeats(l);
        AddMessages(beats);
      }
    }

    /** The heartbeats of one leader. */
    method Heartbeats(l: Node) returns (beats: seq<Message>)
      ensures beats == HeartbeatsFrom(nodes, l, |nodes|)
    {
      beats := [];
      var j := 0;
      while j < |nodes|
        invariant 0 <= j <= |nodes|
        invariant beats == HeartbeatsFrom(nodes, l, j)
      {
        var f := nodes[j];
        if f.nodeId != l.nodeId && f.isAlive && !f.isPartitioned {
          beats := beats + [Message(HeartbeatMsg, l.nodeId, f.nodeId, l.term, NoData, true)];
        }
        j := j + 1;
      }
    }
  }
}
