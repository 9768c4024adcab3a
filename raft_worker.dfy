/** The analyses the dashboard's background worker runs (raftWorker.ts):
    role counts, commit and consistency flags over a log, the share of
    consistent entries, and a rough strength score for a cluster. All of
    them are pure. */
module RaftWorker {
  import opened RaftTypes

  /** How many nodes satisfy `p` (`nodes.filter(p).length`). */
  function CountIf(ns: seq<Node>, p: Node -> bool): (c: nat)
    ensures c <= |ns|
  {
    if ns == [] then 0 else CountIf(ns[..|ns| - 1], p) + (if p(ns[|ns| - 1]) then 1 else 0)
  }

  /** None counted means none satisfies `p`. */
  lemma {:induction false} CountIfZero(ns: seq<Node>, p: Node -> bool)
    ensures CountIf(ns, p) == 0 <==> forall i :: 0 <= i < |ns| ==> !p(ns[i])
  {
    if ns != [] {
      CountIfZero(ns[..|ns| - 1], p);
      assert forall i :: 0 <= i < |ns| - 1 ==> ns[..|ns| - 1][i] == ns[i];
    }
  }

  /** A single node satisfying `p` is counted once. */
  lemma {:induction false} OnlyOneCounted(ns: seq<Node>, p: Node -> bool, k: nat)
    requires k < |ns| && p(ns[k])
    requires forall i :: 0 <= i < |ns| && i != k ==> !p(ns[i])
    ensures CountIf(ns, p) == 1
  {
    var init := ns[..|ns| - 1];
    assert forall i :: 0 <= i < |init| ==> init[i] == ns[i];
    if k == |ns| - 1 {
      CountIfZero(init, p);
    } else {
      OnlyOneCounted(init, p, k);
    }
  }

  /** Exactly one counted means one node satisfies `p` and no other does. */
  lemma {:induction false} CountIfOne(ns: seq<Node>, p: Node -> bool)
    ensures CountIf(ns, p) == 1 <==>
      exists k :: 0 <= k < |ns| && p(ns[k]) && forall i :: 0 <= i < |ns| && i != k ==> !p(ns[i])
  {
    if CountIf(ns, p) == 1 {
      var init := ns[..|ns| - 1];
      var last := |ns| - 1;
      assert forall i :: 0 <= i < last ==> init[i] == ns[i];
      if p(ns[last]) {
        CountIfZero(init, p);
        assert forall i :: 0 <= i < |ns| && i != last ==> !p(ns[i]);
      } else {
        CountIfOne(init, p);
        var k :| 0 <= k < |init| && p(init[k]) && forall i :: 0 <= i < |init| && i != k ==> !p(init[i]);
        assert forall i :: 0 <= i < |ns| && i != k ==> !p(ns[i]);
      }
    }
    if exists k :: 0 <= k < |ns| && p(ns[k]) && forall i :: 0 <= i < |ns| && i != k ==> !p(ns[i]) {
      var k :| 0 <= k < |ns| && p(ns[k]) && forall i :: 0 <= i < |ns| && i != k ==> !p(ns[i]);
      OnlyOneCounted(ns, p, k);
    }
  }

  function IsLeader(n: Node): bool { n.role == Leader }
  function IsFollower(n: Node): bool { n.role == Follower }
  function IsCandidate(n: Node): bool { n.role == Candidate }

  /** The role counts of calculateConsensus. */
  datatype RoleCounts = RoleCounts(leaderCount: nat, followerCount: nat, candidateCount: nat)

  function CountRoles(ns: seq<Node>): RoleCounts
  {
    RoleCounts(CountIf(ns, IsLeader), CountIf(ns, IsFollower), CountIf(ns, IsCandidate))
  }

  /** Every node is in exactly one of the three counts. */
  lemma {:induction false} RoleCountsCoverAll(ns: seq<Node>)
    ensures var c := CountRoles(ns); c.leaderCount + c.followerCount + c.candidateCount == |ns|
  {
    if ns != [] {
      RoleCountsCoverAll(ns[..|ns| - 1]);
    }
  }

  /** A log entry with the two flags processLogEntries adds. */
  datatype ProcessedEntry = ProcessedEntry(entry: LogEntry, isCommitted: bool, isConsistent: bool)

  /** validateLogConsistency: the first entry is always consistent; a later
      one must not lower the term and must follow its predecessor's index
      by one. */
  predicate IsConsistentAt(logs: seq<LogEntry>, i: nat)
    requires i < |logs|
  {
    i == 0 || (logs[i].term >= logs[i - 1].term && logs[i].index == logs[i - 1].index + 1)
  }

  function ProcessLogEntries(logs: seq<LogEntry>, commitIndex: int): seq<ProcessedEntry>
  {
    seq(|logs|, i requires 0 <= i < |logs| => ProcessedEntry(logs[i], i <= commitIndex, IsConsistentAt(logs, i)))
  }

  /** Same entries in the same order; an entry is committed exactly when
      its position is at most commitIndex. */
  lemma ProcessLogEntriesEffect(logs: seq<LogEntry>, commitIndex: int)
    ensures var r := ProcessLogEntries(logs, commitIndex);
      && |r| == |logs|
      && forall i :: 0 <= i < |r| ==>
           r[i].entry == logs[i]
           && (r[i].isCommitted <==> i <= commitIndex)
           && (r[i].isConsistent <==> IsConsistentAt(logs, i))
    ensures |logs| > 0 ==>
      ((forall i :: 0 <= i < |logs| ==> ProcessLogEntries(logs, commitIndex)[i].isCommitted) <==> |logs| - 1 <= commitIndex)
  {
    var r := ProcessLogEntries(logs, commitIndex);
    if |logs| > 0 && |logs| - 1 > commitIndex {
      assert !r[|logs| - 1].isCommitted;
    }
  }

  /** Consistent at every position means the indices count up by one from
      the first and the terms never decrease. */
  lemma {:induction false} AllConsistentMeansOrdered(logs: seq<LogEntry>)
    requires forall i :: 0 <= i < |logs| ==> IsConsistentAt(logs, i)
    ensures forall j :: 0 <= j < |logs| ==> logs[j].index == logs[0].index + j
    ensures forall i, j :: 0 <= i <= j < |logs| ==> logs[i].term <= logs[j].term
  {
    if |logs| > 1 {
      var init := logs[..|logs| - 1];
      assert forall i :: 0 <= i < |init| ==> init[i] == logs[i];
      forall i | 0 <= i < |init| ensures IsConsistentAt(init, i) {
        assert IsConsistentAt(logs, i);
      }
      AllConsistentMeansOrdered(init);
      assert IsConsistentAt(logs, |logs| - 1);
    }
  }

  /** A log numbered from 0 with non-decreasing terms is consistent
      everywhere. */
  lemma OrderedMeansAllConsistent(logs: seq<LogEntry>)
    requires Contiguous(logs)
    requires forall i :: 0 < i < |logs| ==> logs[i - 1].term <= logs[i].term
    ensures forall i :: 0 <= i < |logs| ==> IsConsistentAt(logs, i)
  {
    forall i | 0 < i < |logs| ensures IsConsistentAt(logs, i) {
      assert logs[i].index == i && logs[i - 1].index == i - 1;
    }
  }

  function CountConsistent(ps: seq<ProcessedEntry>): (c: nat)
    ensures c <= |ps|
  {
    if ps == [] then 0 else CountConsistent(ps[..|ps| - 1]) + (if ps[|ps| - 1].isConsistent then 1 else 0)
  }

  /** The count reaches the length exactly when every entry is consistent. */
  lemma {:induction false} CountConsistentFull(ps: seq<ProcessedEntry>)
    ensures CountConsistent(ps) == |ps| <==> forall i :: 0 <= i < |ps| ==> ps[i].isConsistent
  {
    if ps != [] {
      var init := ps[..|ps| - 1];
      CountConsistentFull(init);
      assert forall i :: 0 <= i < |init| ==> init[i] == ps[i];
    }
  }

  /** calculateLogConsistency: the share of consistent entries, 1 for an
      empty list. */
  function LogConsistency(ps: seq<ProcessedEntry>): (r: real)
    ensures 0.0 <= r <= 1.0
  {
    if |ps| == 0 then 1.0 else CountConsistent(ps) as real / |ps| as real
  }

  /** The score is 1 exactly when every entry is consistent. */
  lemma LogConsistencyIsOne(ps: seq<ProcessedEntry>)
    ensures LogConsistency(ps) == 1.0 <==> forall i :: 0 <= i < |ps| ==> ps[i].isConsistent
  {
    CountConsistentFull(ps);
    if |ps| > 0 && LogConsistency(ps) == 1.0 {
      assert CountConsistent(ps) as real == |ps| as real;
    }
  }

  function IsAliveLeader(n: Node): bool { n.isAlive && n.role == Leader }
  function IsAliveFollower(n: Node): bool { n.isAlive && n.role == Follower }
  function IsAlive(n: Node): bool { n.isAlive }

  /** calculateConsensusStrength: 1 for a single leader backed by enough
      followers, 0.5 for a single leader without them, 0.3 without a leader
      and 0.1 with several (all among alive nodes). */
  function ConsensusStrength(ns: seq<Node>): real
  {
    var alive := CountIf(ns, IsAlive);
    var leaders := CountIf(ns, IsAliveLeader);
    if leaders == 1 then
      (if CountIf(ns, IsAliveFollower) >= Majority(alive) - 1 then 1.0 else 0.5)
    else if leaders == 0 then 0.3
    else 0.1
  }

  /** 0.3 exactly when no alive node is leader. */
  lemma StrengthWithoutLeader(ns: seq<Node>)
    ensures ConsensusStrength(ns) == 0.3 <==> forall i :: 0 <= i < |ns| ==> !IsAliveLeader(ns[i])
  {
    CountIfZero(ns, IsAliveLeader);
  }

  /** 1 or 0.5 exactly when a single alive node is leader, and 1 exactly
      when, besides, the alive followers are at least half the alive nodes
      (rounded down): with the leader they form a majority. */
  lemma StrengthWithOneLeader(ns: seq<Node>)
    ensures (ConsensusStrength(ns) == 1.0 || ConsensusStrength(ns) == 0.5) <==>
      exists k :: 0 <= k < |ns| && IsAliveLeader(ns[k]) && forall i :: 0 <= i < |ns| && i != k ==> !IsAliveLeader(ns[i])
    ensures ConsensusStrength(ns) == 1.0 <==>
      CountIf(ns, IsAliveLeader) == 1 && CountIf(ns, IsAliveFollower) >= CountIf(ns, IsAlive) / 2
    ensures ConsensusStrength(ns) == 1.0 ==> 2 * (CountIf(ns, IsAliveFollower) + 1) > CountIf(ns, IsAlive)
  {
    CountIfOne(ns, IsAliveLeader);
    var m := Majority(CountIf(ns, IsAlive));
    assert m - 1 == CountIf(ns, IsAlive) / 2;
  }

  /** 0.1 exactly when two alive nodes are leaders at once. */
  lemma StrengthWithSplitBrain(ns: seq<Node>)
    ensures ConsensusStrength(ns) == 0.1 <==>
      exists i, j :: 0 <= i < j < |ns| && IsAliveLeader(ns[i]) && IsAliveLeader(ns[j])
  {
    var c := CountIf(ns, IsAliveLeader);
    if c >= 2 {
      TwoCountedMeansTwo(ns, IsAliveLeader);
    }
    if exists i, j :: 0 <= i < j < |ns| && IsAliveLeader(ns[i]) && IsAliveLeader(ns[j]) {
      var i, j :| 0 <= i < j < |ns| && IsAliveLeader(ns[i]) && IsAliveLeader(ns[j]);
      TwoAreCounted(ns, IsAliveLeader, i, j);
    }
  }

  /** Two distinct nodes satisfying `p` are both counted. */
  lemma {:induction false} TwoAreCounted(ns: seq<Node>, p: Node -> bool, i: nat, j: nat)
    requires i < j < |ns| && p(ns[i]) && p(ns[j])
    ensures CountIf(ns, p) >= 2
  {
    var init := ns[..|ns| - 1];
    assert forall x :: 0 <= x < |init| ==> init[x] == ns[x];
    if j == |ns| - 1 {
      assert p(init[i]);
      CountIfZero(init, p);
    } else {
      TwoAreCounted(init, p, i, j);
    }
  }

  /** Two or more counted means two distinct nodes satisfy `p`. */
  lemma {:induction false} TwoCountedMeansTwo(ns: seq<Node>, p: Node -> bool)
    requires CountIf(ns, p) >= 2
    ensures exists i, j :: 0 <= i < j < |ns| && p(ns[i]) && p(ns[j])
  {
    var init := ns[..|ns| - 1];
    assert forall i :: 0 <= i < |init| ==> init[i] == ns[i];
    if CountIf(init, p) >= 2 {
      TwoCountedMeansTwo(init, p);
      var i, j :| 0 <= i < j < |init| && p(init[i]) && p(init[j]);
      assert p(ns[i]) && p(ns[j]);
    } else {
      assert p(ns[|ns| - 1]) && CountIf(init, p) >= 1;
      CountIfZero(init, p);
      var i :| 0 <= i < |init| && p(init[i]);
      assert p(ns[i]) && p(ns[|ns| - 1]);
    }
  }
}
