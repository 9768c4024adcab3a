/** Entities shared by every part of the simulator: the node record, its log
    entries and the small helpers every engine uses to read them. */
module RaftTypes {

  datatype Option<T> = None | Some(value: T)

  /** The value held, or `otherwise` when there is none. */
  function Pick<T>(o: Option<T>, otherwise: T): T
  {
    if o.Some? then o.value else otherwise
  }

  /** The three Raft roles (the `state` field of a node record). */
  datatype Role = Follower | Candidate | Leader

  /** One replicated log entry. Timestamps are not modelled. */
  datatype LogEntry = LogEntry(term: int, index: int, command: string, committed: bool)

  /** A display position (node records carry one; only the UI moves it). */
  datatype Position = Position(x: real, y: real)

  /** A node record. `isPartitioned` is an optional field in the front end
      (absent reads as false); the back-end engine keeps partitions in a
      table of its own and never reads this field. */
  datatype Node = Node(
    nodeId: string,
    clusterId: string,
    role: Role,
    term: int,
    votedFor: Option<string>,
    log: seq<LogEntry>,
    isAlive: bool,
    votes: int,
    commitIndex: int,
    lastApplied: int,
    isPartitioned: bool,
    position: Position)

  /** Index of the last entry, -1 for an empty log. */
  function LastLogIndex(log: seq<LogEntry>): int
  {
    |log| - 1
  }

  /** Term of the last entry, 0 for an empty log. */
  function LastLogTerm(log: seq<LogEntry>): int
  {
    if |log| > 0 then log[|log| - 1].term else 0
  }

  /** The quorum size floor(alive/2)+1: the least count that is a strict
      majority of `alive`. */
  function Majority(alive: nat): (m: nat)
    ensures 2 * m > alive
    ensures 2 * (m - 1) <= alive
    ensures m >= 1
  {
    alive / 2 + 1
  }

  /** The entry at position i carries index i. */
  ghost predicate Contiguous(log: seq<LogEntry>)
  {
    forall i :: 0 <= i < |log| ==> log[i].index == i
  }

  /** The node-record invariant: indices are contiguous from 0 and
      lastApplied <= commitIndex <= len(log)-1. */
  ghost predicate WellFormed(n: Node)
  {
    && Contiguous(n.log)
    && -1 <= n.lastApplied <= n.commitIndex <= |n.log| - 1
    && n.term >= 0
    && n.votes >= 0
  }

  /** No two records share a nodeId. */
  ghost predicate UniqueIds(ns: seq<Node>)
  {
    forall i, j :: 0 <= i < j < |ns| ==> ns[i].nodeId != ns[j].nodeId
  }

  /** The position of the first element satisfying p (Array.find / findIndex,
      and a database findOne in natural order). */
  function FirstIndex<T>(s: seq<T>, p: T -> bool): (r: Option<nat>)
    ensures r.Some? ==> r.value < |s| && p(s[r.value])
    ensures r.Some? ==> forall j :: 0 <= j < r.value ==> !p(s[j])
    ensures r.None? ==> forall j :: 0 <= j < |s| ==> !p(s[j])
  {
    if |s| == 0 then None
    else if p(s[0]) then Some(0)
    else match FirstIndex(s[1..], p)
      case None => None
      case Some(k) => Some(k + 1)
  }

  /** The first record with the given nodeId. */
  function FindNode(ns: seq<Node>, id: string): (r: Option<nat>)
    ensures r.Some? ==> r.value < |ns| && ns[r.value].nodeId == id
    ensures r.Some? ==> forall j :: 0 <= j < r.value ==> ns[j].nodeId != id
    ensures r.None? ==> forall j :: 0 <= j < |ns| ==> ns[j].nodeId != id
  {
    FirstIndex(ns, (n: Node) => n.nodeId == id)
  }

  /** With unique ids, the record found is the only one carrying that id. */
  lemma FindNodeUnique(ns: seq<Node>, id: string, j: nat)
    requires UniqueIds(ns)
    requires j < |ns| && ns[j].nodeId == id
    ensures FindNode(ns, id) == Some(j)
  {
  }

  /** Two node lists with the same ids position by position. */
  ghost predicate SameIds(a: seq<Node>, b: seq<Node>)
  {
    |a| == |b| && forall i :: 0 <= i < |a| ==> a[i].nodeId == b[i].nodeId
  }

  lemma SameIdsKeepUnique(a: seq<Node>, b: seq<Node>)
    requires SameIds(a, b) && UniqueIds(a)
    ensures UniqueIds(b)
  {
  }

  lemma SameIdsKeepFind(a: seq<Node>, b: seq<Node>, id: string)
    requires SameIds(a, b)
    ensures FindNode(a, id) == FindNode(b, id)
  {
    var ra, rb := FindNode(a, id), FindNode(b, id);
    if ra.Some? {
      assert b[ra.value].nodeId == id;
    }
    if rb.Some? {
      assert a[rb.value].nodeId == id;
    }
  }

  /** A node's own update when it stands for election: candidate one term
      up, voting for itself, with its own vote counted. */
  function Candidacy(n: Node): Node
  {
    n.(role := Candidate, term := n.term + 1, votedFor := Some(n.nodeId), votes := 1)
  }

  /** A crashed node: down, a follower, with no vote and no tally. */
  function Failed(n: Node): Node
  {
    n.(isAlive := false, role := Follower, votedFor := None, votes := 0)
  }

  /** A restarted node: up, a follower at term 0 with an empty log. */
  function Restarted(n: Node): Node
  {
    n.(isAlive := true, role := Follower, term := 0, votedFor := None, votes := 0,
       log := [], commitIndex := -1, lastApplied := -1)
  }

  /** The largest term in a non-empty list (Math.max over the terms). */
  function MaxTerm(ns: seq<Node>): (m: int)
    requires |ns| > 0
    ensures forall i :: 0 <= i < |ns| ==> ns[i].term <= m
    ensures exists i :: 0 <= i < |ns| && ns[i].term == m
  {
    if |ns| == 1 then ns[0].term
    else
      var rest := MaxTerm(ns[1..]);
      assert forall i :: 1 <= i < |ns| ==> ns[i] == ns[1..][i - 1];
      if ns[0].term >= rest then ns[0].term else rest
  }

  /** Math.max(...terms, 0): the largest term, or 0 for an empty list or
      when every term is negative. */
  function MaxTermOrZero(ns: seq<Node>): (m: int)
    ensures m >= 0
    ensures forall i :: 0 <= i < |ns| ==> ns[i].term <= m
    ensures m == 0 || exists i :: 0 <= i < |ns| && ns[i].term == m
  {
    if |ns| == 0 then 0
    else
      var t := MaxTerm(ns);
      if t >= 0 then t else 0
  }
}
