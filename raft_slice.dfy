/** The `raft` store slice of the dashboard front end (raftSlice.ts): the
    node list pushed by the server, the derived term and leader, a bounded
    message log and a few plain fields. Each reducer is a method that
    updates the store in place, as the draft mutations do. */
module RaftSlice {
  import opened RaftTypes
  import opened BoundedLog

  const MessageCap: nat := 100

  /** A network message as the front end keeps it (timestamp and payload
      not modelled). */
  datatype NetworkMessage = NetworkMessage(kind: string, from: string, to: string, term: int, success: Option<bool>)

  /** The first alive leader's id; `?.nodeId || null` also turns an empty id
      into no leader. */
  function DerivedLeader(ns: seq<Node>): Option<string>
  {
    match FirstIndex(ns, (n: Node) => n.role == Leader && n.isAlive)
    case None => None
    case Some(i) => if ns[i].nodeId != "" then Some(ns[i].nodeId) else None
  }

  /** The leader shown is an alive leader of the list, the first one; none
      is shown when there is no alive leader or when the first one has an
      empty id. */
  lemma DerivedLeaderMeaning(ns: seq<Node>)
    ensures DerivedLeader(ns).Some? ==>
      exists i :: 0 <= i < |ns| && ns[i].role == Leader && ns[i].isAlive && ns[i].nodeId == DerivedLeader(ns).value
        && DerivedLeader(ns).value != ""
        && forall j :: 0 <= j < i ==> !(ns[j].role == Leader && ns[j].isAlive)
    ensures DerivedLeader(ns).None? <==>
      (forall i :: 0 <= i < |ns| ==> !(ns[i].role == Leader && ns[i].isAlive))
      || exists i :: 0 <= i < |ns| && ns[i].role == Leader && ns[i].isAlive && ns[i].nodeId == ""
           && forall j :: 0 <= j < i ==> !(ns[j].role == Leader && ns[j].isAlive)
  {
    var f := FirstIndex(ns, (n: Node) => n.role == Leader && n.isAlive);
    if f.Some? {
      var i := f.value;
      if ns[i].nodeId == "" {
        assert ns[i].role == Leader && ns[i].isAlive;
      } else {
        forall k | 0 <= k < |ns| && ns[k].role == Leader && ns[k].isAlive && ns[k].nodeId == ""
          ensures exists j :: 0 <= j < k && ns[j].role == Leader && ns[j].isAlive
        {
          assert k != i;
          assert i < k;
        }
      }
    }
  }

  /** addNode: replace the first record with the same id, else append. */
  function Upsert(ns: seq<Node>, n: Node): seq<Node>
  {
    match FindNode(ns, n.nodeId)
    case Some(i) => ns[i := n]
    case None => ns + [n]
  }

  /** The node ends up in the list under its id, replacing the record it
      found or appended at the end; nothing else changes, unique ids stay
      unique, and adding the same node again changes nothing. */
  lemma UpsertEffect(ns: seq<Node>, n: Node)
    ensures var r := Upsert(ns, n);
      && FindNode(r, n.nodeId).Some? && r[FindNode(r, n.nodeId).value] == n
      && (FindNode(ns, n.nodeId).Some? ==>
            |r| == |ns| && (forall j :: 0 <= j < |ns| && j != FindNode(ns, n.nodeId).value ==> r[j] == ns[j]))
      && (FindNode(ns, n.nodeId).None? ==> r == ns + [n])
      && (UniqueIds(ns) ==> UniqueIds(r))
      && Upsert(r, n) == r
  {
    var r := Upsert(ns, n);
    var f := FindNode(ns, n.nodeId);
    if f.Some? {
      SameIdsKeepFind(ns, r, n.nodeId);
      if UniqueIds(ns) {
        assert SameIds(ns, r);
        SameIdsKeepUnique(ns, r);
      }
    } else {
      assert r[|ns|] == n;
      assert forall j :: 0 <= j < |ns| ==> r[j] == ns[j];
      assert FindNode(r, n.nodeId) == Some(|ns|);
    }
  }

  class RaftStore {
    var nodes: seq<Node>
    var messages: seq<NetworkMessage>
    var selectedNode: Option<string>
    var currentTerm: int
    var leader: Option<string>
    var clusterId: string
    /** The socket handle, as an opaque number. */
    var socket: Option<nat>
    var connected: bool

    constructor ()
      ensures nodes == [] && messages == [] && selectedNode == None && currentTerm == 0
      ensures leader == None && clusterId == "default" && socket == None && !connected
    {
      nodes := [];
      messages := [];
      selectedNode := None;
      currentTerm := 0;
      leader := None;
      clusterId := "default";
      socket := None;
      connected := false;
    }

    /** setNodes: the list, the largest term (at least 0) and the leader. */
    method SetNodes(payload: seq<Node>)
      modifies this`nodes, this`currentTerm, this`leader
      ensures nodes == payload
      ensures currentTerm == MaxTermOrZero(payload)
      ensures leader == DerivedLeader(payload)
    {
      nodes := payload;
      currentTerm := MaxTermOrZero(payload);
      leader := DerivedLeader(payload);
    }

    method AddNode(n: Node)
      modifies this`nodes
      ensures nodes == Upsert(old(nodes), n)
    {
      var found := FindNode(nodes, n.nodeId);
      if found.Some? {
        nodes := nodes[found.value := n];
      } else {
        nodes := nodes + [n];
      }
    }

    /** updateNodePosition: moves the first record with the id; a missing id
        changes nothing. */
    method UpdateNodePosition(nodeId: string, position: Position)
      modifies this`nodes
      ensures match FindNode(old(nodes), nodeId)
        case None => nodes == old(nodes)
        case Some(i) => nodes == old(nodes)[i := old(nodes)[i].(position := position)]
    {
      var found := FindNode(nodes, nodeId);
      if found.Some? {
        nodes := nodes[found.value := nodes[found.value].(position := position)];
      }
    }

    method SetMessages(payload: seq<NetworkMessage>)
      modifies this`messages
      ensures messages == payload
    {
      messages := payload;
    }

    /** addMessage: append, then drop the oldest once over 100. A log that
        a bulk setMessages made longer shrinks by at most one here. */
    method AddMessage(m: NetworkMessage)
      modifies this`messages
      ensures messages == PushBounded(old(messages), m, MessageCap)
      ensures |old(messages)| <= MessageCap ==> |messages| <= MessageCap
      ensures messages[|messages| - 1] == m
    {
      var t := messages + [m];
      if |t| > MessageCap {
        t := t[1..];
      }
      messages := t;
    }

    method SetSelectedNode(id: Option<string>)
      modifies this`selectedNode
      ensures selectedNode == id
    {
      selectedNode := id;
    }

    method SetSocket(s: Option<nat>)
      modifies this`socket
      ensures socket == s
    {
      socket := s;
    }

    method SetConnected(b: bool)
      modifies this`connected
      ensures connected == b
    {
      connected := b;
    }

    method SetClusterId(id: string)
      modifies this`clusterId
      ensures clusterId == id
    {
      clusterId := id;
    }
  }
}
