# Raft consensus simulator — a verified Dafny model

The repository is a teaching simulator for the Raft consensus algorithm. This
project models its bookkeeping core in Dafny and proves properties of that
model. The core has six parts:

- **`RaftEngine`** (`raft_engine.dfy`) is the back-end election and
  replication engine. Its node collection is a sequence in the collection's
  natural order, so `findOne` is "the first matching record". It also holds
  the partition set, the per-node delay map and the election-timer map.
  - The engine runs the election: a candidate's update, raising lower-term
    peers, vote requests, the vote rule, the tally and the promotion.
  - It handles log appends, the `append_entries` fan-out and the heartbeat
    tick.
  - It handles failure, restart, partition toggling and timer bookkeeping.
  - The TypeScript source and its compiled JavaScript twin are modelled once.
    Both are cited.
- **`ChaosEngine`** (`chaos_engine.dfy`) is the per-cluster chaos scheduler.
  - It covers start, stop, the shallow configuration merge, the default
    configuration and the band choice for one random draw.
  - A running interval is represented by the configuration it captured.
- **`DemoServer`** (`demo_server.dfy`) is the in-memory demo server. Its
  state is the node array, the bounded message log (at most 100 messages)
  and the id counter.
  - It covers the socket handlers, the duplicate check of the POST route and
    the heartbeat interval.
  - A ghost history of every message ever logged shows that the log is
    always the last 100 of them.
- **`AppSimulation`** (`app_sim.dfy`) is the stand-alone front end's client
  simulation: pure rewrites of the node list for elections, log appends,
  commits and node actions.
- **`RaftSlice`, `ChaosSlice`, `UiSlice`** (`raft_slice.dfy`,
  `chaos_slice.dfy`, `ui_slice.dfy`) are the dashboard's three store slices.
  Each is a class whose methods are the reducers.
- **`RaftWorker`** (`raft_worker.dfy`) is the dashboard worker's pure
  analyses: role counts, log flags, the consistency score and the consensus
  strength.

Shared entities live in `RaftTypes` (`types.dfy`): the node record, log
entries, majority size and first-match search. Both bounded buffers live in
`BoundedLog` (`bounded_log.dfy`): append-then-shift and
prepend-then-truncate.

Every delayed callback (`setTimeout`, `setInterval`) is an explicit step
that the caller invokes. Every `Math.random()` draw is a parameter. Messages
that the back-end engine saves and broadcasts are returned to the caller.

Several behaviours of the source are exposed as proved facts, not repaired:

- After `startElection` raises every lower-term peer to the candidate's new
  term, no peer can grant that candidate's request, because the rule asks
  for a strictly greater request term (`NoGrantRightAfterElection`).
- An `append_entries` carries the index of the entry it sends as
  `prevLogIndex` (`FanOutExact`).
- A network delay set to 0 falls back to 100 ms (`ZeroDelayIsDefault`).
- In the client simulation an election never succeeds once two nodes are
  alive and unpartitioned (`ElectionNeverSucceeds`). The commit rule raises
  `commitIndex` past the end of short logs (`CommitOverreaches`).
- A follower of the demo server appends the leader's entry whatever its own
  log holds (`FollowerAppendContiguity`, `FollowerAppendGap`).
- The demo server's promotion demotes every record with another id, in
  every cluster. A record that shares the candidate's id in another
  cluster is left untouched (`PromoteIsolates`).

Several behaviours of the code are easy to miss:

- The engine counts a granted vote when the candidate was still a
  candidate at delivery time. It never compares the response's term with
  the candidate's current term (`RaftEngine.Tally`).
- The engine's `addLogEntry` accepts a command at any alive leader of the
  cluster. It does not consult the partition set (`RaftEngine.AliveLeader`).
- The demo server sends vote requests to every other alive record,
  partitioned or not (`DemoServer.PeersExact`).
- The client simulation raises `commitIndex` on every node, including
  nodes that do not hold the entry (`CommitOverreaches`).
- The engine's `startElection` does nothing for a partitioned candidate
  (`RaftEngine.ElectionBlocked`).
- The raft slice's `setNodes` derives the leader with `?.nodeId || null`.
  A first alive leader whose id is empty therefore shows as no leader
  (`RaftSlice.DerivedLeaderMeaning`).
- The election that the client simulation schedules after failing a
  leader reads the node list from before the failure. When it finds a
  candidate, it writes that list back, so the failed leader is alive again
  as a follower (`FollowUpUndoesFailure`).

## Model

| member | source | states |
|---|---|---|
| RaftTypes.Majority | backend/src/services/RaftEngine.ts:290-296 | floor(alive/2)+1 is at least 1, a strict majority of alive, and one less is not a majority |
| RaftTypes.FindNode | backend/src/services/RaftEngine.ts:28-31 | findOne by nodeId: the result is the first record with that id, and none means no record has it |
| RaftTypes.FindNodeUnique | backend/src/models/RaftNode.ts:37 | with unique nodeIds (the schema's unique index) the record found is the only one with the id |
| RaftTypes.MaxTerm | src/App.tsx:395 | Math.max over the terms of a non-empty list is one of the terms and bounds all of them |
| RaftTypes.MaxTermOrZero | frontend/src/store/slices/raftSlice.ts:66 | Math.max(...terms, 0) is non-negative, bounds every term, and is 0 or one of the terms |
| BoundedLog.Window | backend/dist/server.js:62-77 | the last cap items of a history: a suffix, all of it when short, exactly cap items otherwise |
| BoundedLog.PushWindow | backend/dist/server.js:72-75 | push then shift over 100 turns the last 100 items of a history into the last 100 of the history extended by one |
| BoundedLog.PushAllWindow | backend/dist/server.js:222-224 | logging several messages one by one keeps the log equal to the last 100 of the whole history |
| BoundedLog.PushBoundedProperties | frontend/src/store/slices/raftSlice.ts:86-91 | a buffer within its cap stays within it, ends with the new item, and loses at most its oldest item |
| BoundedLog.PrependBoundedProperties | frontend/src/store/slices/chaosSlice.ts:50-62 | unshift then slice: the new item first, the older ones in order after it, length min(len+1, cap); the same holds at frontend/src/store/slices/uiSlice.ts:39-52 |
| RaftEngine.ZeroDelayIsDefault | backend/src/services/RaftEngine.ts:99 | `networkDelay.get(id) \|\| 100`: a delay set to 0, and an unset delay, give 100; every other delay is used as set |
| RaftEngine.RandomTimeout | backend/src/services/RaftEngine.ts:370-372 | for a draw in [0,1) the election timeout lies in [3000, 5000); the same holds at backend/dist/services/RaftEngine.js:310-312 |
| RaftEngine.TogglePartitionTwice | backend/src/services/RaftEngine.ts:278-284 | toggling twice restores the partition set; one toggle flips exactly that node's membership; the same holds at backend/dist/services/RaftEngine.js:225-232 |
| RaftEngine.ElectionNodesEffect | backend/src/services/RaftEngine.ts:35-55 | the candidate becomes candidate at term+1 voting for itself with 1 vote; lower-term peers of its cluster get the new term, no vote and follower role; all other records are untouched; ids keep their positions; the same holds at backend/dist/services/RaftEngine.js:23-43 |
| RaftEngine.VoteRequestsExact | backend/src/services/RaftEngine.ts:58-99 | vote requests go exactly to the alive, unpartitioned other members of the candidate's cluster, each with its term, lastLogIndex = len-1 and lastLogTerm (0 for an empty log) |
| RaftEngine.LogUpToDateIsLexicographic | backend/src/services/RaftEngine.ts:112-122 | the log comparison of the vote rule is the lexicographic order on (lastLogTerm, lastLogIndex): reflexive, total, transitive and antisymmetric |
| RaftEngine.NoGrantRightAfterElection | backend/src/services/RaftEngine.ts:42-55 | right after startElection no receiver of a vote request can grant it, since each has a term at least the request's and the rule demands a greater one |
| RaftEngine.VoteGrantRule | backend/src/services/RaftEngine.ts:102-133 | a request to a missing voter or candidate, or a dead or partitioned voter, is dropped; otherwise it is answered and granted iff term, votedFor and log tests all hold; the same holds at backend/dist/services/RaftEngine.js:84-101 |
| RaftEngine.VoteWithoutTally | backend/src/services/RaftEngine.ts:112-146 | a refusal changes nothing; a grant to a non-candidate changes only the voter's votedFor and term |
| RaftEngine.TallyAndPromotion | backend/src/services/RaftEngine.ts:138-177 | a granted vote adds one to a candidate's tally; it is promoted iff the tally reaches floor(alive in cluster/2)+1, then leads while other candidates of its cluster become followers with 0 votes; the same holds at backend/dist/services/RaftEngine.js:113-140 |
| RaftEngine.TallyFrame | backend/src/services/RaftEngine.ts:138-177 | in a tallied grant every record but the candidate's is the collection with only the voter's votedFor and term saved, plus becomeLeader's step-down of same-cluster candidates on a promotion; the same holds at backend/dist/services/RaftEngine.js:113-140 |
| RaftEngine.AppendKeepsWellFormed | backend/src/services/RaftEngine.ts:186-188 | the appended entry has the leader's term, index = old length, uncommitted; the old log is a prefix and the record stays well formed |
| RaftEngine.FanOutExact | backend/src/services/RaftEngine.ts:215-238 | each append_entries goes to a reachable follower and carries prevLogIndex = len-1, prevLogTerm, at most the last entry and leaderCommit; every reachable follower gets one; the entry sent sits at prevLogIndex itself; the same holds at backend/dist/services/RaftEngine.js:176-197 |
| RaftEngine.RestartAndFail | backend/src/services/RaftEngine.ts:240-276 | a failed record keeps term and log and is down; a restarted record is a well-formed follower at term 0 with an empty log |
| RaftEngine.RaisePeers | backend/src/services/RaftEngine.ts:42-55 | the updateMany loop raises exactly the outranked records |
| RaftEngine.CollectVoteRequests | backend/src/services/RaftEngine.ts:58-68 | the request loop returns exactly `VoteRequests` of the collection, one per alive, unpartitioned peer of the cluster, in collection order |
| RaftEngine.Engine.constructor | backend/src/services/RaftEngine.ts:6-19 | empty partition set, delay map and timer map over a collection with unique ids |
| RaftEngine.Engine.RegisterNode | backend/src/services/RaftEngine.ts:21-25 | registering arms the node's timer with a fresh timeout |
| RaftEngine.Engine.StartElection | backend/src/services/RaftEngine.ts:27-71 | no change for a missing, dead or partitioned candidate; otherwise the election update and its vote requests; ids stay unique; the same holds at backend/dist/services/RaftEngine.js:21-56 |
| RaftEngine.Engine.HandleVoteRequest | backend/src/services/RaftEngine.ts:102-147 | the delivery of a vote request has the outcome of the vote rule and tally; a promotion clears the candidate's timer and sends its heartbeats; the same holds at backend/dist/services/RaftEngine.js:84-121 |
| RaftEngine.Engine.TallyVote | backend/src/services/RaftEngine.ts:138-146 | the candidate side of a grant: the tally, and becomeLeader when the majority is reached |
| RaftEngine.Engine.CountVote | backend/src/services/RaftEngine.ts:140-141 | the candidate's vote count is saved to its own record and nothing else changes |
| RaftEngine.Engine.BecomeLeader | backend/src/services/RaftEngine.ts:149-177 | the record leads, other candidates of its cluster step down with 0 votes, its timer is cleared and it replicates; the same holds at backend/dist/services/RaftEngine.js:122-144 |
| RaftEngine.Engine.GetMajorityCount | backend/src/services/RaftEngine.ts:290-296 | floor(alive records of the cluster / 2)+1; the same holds at backend/dist/services/RaftEngine.js:236-242 |
| RaftEngine.Engine.AddLogEntry | backend/src/services/RaftEngine.ts:179-196 | false and no change without an alive leader in the cluster; otherwise exactly one entry appended to that leader's log, then replication; the same holds at backend/dist/services/RaftEngine.js:145-160 |
| RaftEngine.Engine.ReplicateLog | backend/src/services/RaftEngine.ts:198-213 | nothing unless the record is a leader; otherwise the fan-out to its reachable followers; the same holds at backend/dist/services/RaftEngine.js:161-175 |
| RaftEngine.Engine.HeartbeatTick | backend/src/services/RaftEngine.ts:343-352 | one tick replicates from every alive leader, in collection order |
| RaftEngine.Engine.FireElectionTimeout | backend/src/services/RaftEngine.ts:302-311 | the timer starts an election only for an alive record that is still a follower |
| RaftEngine.Engine.FailNode | backend/src/services/RaftEngine.ts:240-253 | down, follower, no vote, no votes; the timer entry is removed; an unknown id changes no record; the same holds at backend/dist/services/RaftEngine.js:198-207 |
| RaftEngine.Engine.RestartNode | backend/src/services/RaftEngine.ts:255-276 | up, follower, term 0, no vote, empty log, commitIndex = lastApplied = -1, and exactly one timer re-armed; the same holds at backend/dist/services/RaftEngine.js:208-224 |
| RaftEngine.Engine.TogglePartition | backend/src/services/RaftEngine.ts:278-284 | the partition set after one toggle |
| RaftEngine.Engine.SetNetworkDelay | backend/src/services/RaftEngine.ts:286-288 | only this node's delay is set |
| RaftEngine.Engine.ResetElectionTimeout | backend/src/services/RaftEngine.ts:298-314 | the node has exactly one timer, with a fresh timeout |
| RaftEngine.Engine.ClearElectionTimeout | backend/src/services/RaftEngine.ts:316-322 | no timer entry remains for the node; others are kept; the same holds at backend/dist/services/RaftEngine.js:259-265 |
| ChaosEngine.MergeLaws | backend/src/services/ChaosEngine.ts:51-56 | the shallow merge: each supplied field takes the supplied value, each omitted field keeps the base's, an empty patch is the identity, re-applying is idempotent, patches compose; the same holds at backend/dist/services/ChaosEngine.js:35-40 |
| ChaosEngine.SimulatedDelay | backend/src/services/ChaosEngine.ts:82-85 | for a draw in [0,1) and min <= max the delay lies in [min, max] inclusive; the same holds at backend/dist/services/ChaosEngine.js:63-68 |
| ChaosEngine.ChooseActionMonotone | backend/src/services/ChaosEngine.ts:58-68 | the bands are tried in order, so a larger draw never selects an earlier band, and the delay draw never changes the band; the same holds at backend/dist/services/ChaosEngine.js:41-52 |
| ChaosEngine.DefaultBands | backend/src/services/ChaosEngine.ts:14-19 | with the default configuration: failure below 0.1, partition in [0.1,0.15), delay of 100-1000 ms in [0.15,0.25), nothing from 0.25 |
| ChaosEngine.Chaos.constructor | backend/src/services/ChaosEngine.ts:13-20 | no running interval and no configuration |
| ChaosEngine.Chaos.GetConfig | backend/src/services/ChaosEngine.ts:93-95 | the cluster's configuration, or the default; the same holds at backend/dist/services/ChaosEngine.js:72-74 |
| ChaosEngine.Chaos.Start | backend/src/services/ChaosEngine.ts:26-40 | a running cluster is unchanged; otherwise one interval is started capturing the current configuration; the same holds at backend/dist/services/ChaosEngine.js:15-26 |
| ChaosEngine.Chaos.Stop | backend/src/services/ChaosEngine.ts:42-49 | the cluster's interval is removed if present; it is not running afterwards; the same holds at backend/dist/services/ChaosEngine.js:27-34 |
| ChaosEngine.Chaos.UpdateConfig | backend/src/services/ChaosEngine.ts:51-56 | the patch is merged over the current or default configuration of that cluster only; running intervals keep theirs; the same holds at backend/dist/services/ChaosEngine.js:35-40 |
| ChaosEngine.Chaos.Tick | backend/src/services/ChaosEngine.ts:32-36 | a tick of a running cluster yields the band choice of its captured configuration, and none otherwise, changing no state |
| DemoServer.CreateNode | backend/dist/server.js:45-61 | a well-formed alive, unpartitioned follower at term 0 with no vote, an empty log, 0 votes, commitIndex = lastApplied = -1, in cluster 'default' at the given position |
| DemoServer.NatToString | backend/dist/server.js:151 | the counter's decimal rendering: digits only, one digit exactly below 10 |
| DemoServer.NatToStringInjective | backend/dist/server.js:151 | distinct counter values render differently |
| DemoServer.GeneratedIdsDiffer | backend/dist/server.js:151 | distinct counter values give distinct `node-N` ids |
| DemoServer.AppendKeepsUnique | backend/dist/server.js:153-156 | appending a record whose id (or cluster and id) is new keeps ids (or pairs) unique |
| DemoServer.NewIdIsNewPair | backend/dist/server.js:104 | an id absent from the array is absent from every cluster |
| DemoServer.Peers | backend/dist/server.js:173-175 | the positions of the records messaged lie below the bound |
| DemoServer.PeersExact | backend/dist/server.js:173-175 | exactly the alive records with another id are messaged, once each, in array order |
| DemoServer.PromoteIsolates | backend/dist/server.js:180-191 | a response adds one vote when granted; the candidate is promoted iff that reaches the majority of all alive records; a promotion makes every record with another id, in any cluster, a follower with 0 votes and leaves records sharing the candidate's id unchanged |
| DemoServer.HeartbeatsFromExact | backend/dist/server.js:324-328 | one leader's heartbeats go exactly to the alive, unpartitioned records with another id |
| DemoServer.HeartbeatMessagesSound | backend/dist/server.js:322-329 | every heartbeat of a tick goes from an alive leader, at its term, to an alive unpartitioned record with another id |
| DemoServer.HeartbeatMessagesComplete | backend/dist/server.js:322-329 | every alive leader sends a heartbeat to every alive unpartitioned record with another id |
| DemoServer.FollowerAppendContiguity | backend/dist/server.js:229-231 | a follower's log stays contiguous after the copy iff the entry's index equals the follower's log length |
| DemoServer.FollowerAppendGap | backend/dist/server.js:229-231 | a follower that missed entry 0 holds entry 1 at position 0 |
| DemoServer.PeerMessages | backend/dist/server.js:173-175 | the forEach loop yields the peers and one message to each |
| DemoServer.PromoteAll | backend/dist/server.js:185-191 | the promotion loop yields the promoted array |
| DemoServer.Server.constructor | backend/dist/server.js:41-43 | no nodes, no messages, counter 0 |
| DemoServer.Server.AddMessage | backend/dist/server.js:62-77 | the log is the last 100 messages ever logged, ends with the new one and never exceeds 100 |
| DemoServer.Server.RegisterNode | backend/dist/server.js:148-164 | a missing id becomes `node-{counter+1}` with the counter incremented; an existing id adds nothing; a new one adds a default record; ids stay unique |
| DemoServer.Server.CreateNodeRoute | backend/dist/server.js:100-120 | rejected iff the (cluster, id) pair exists; otherwise one default record in that cluster at the given or drawn position |
| DemoServer.Server.StartElection | backend/dist/server.js:165-175 | no change for a missing or dead candidate; otherwise its candidacy and one vote_request to each other alive record |
| DemoServer.Server.DeliverVoteResponse | backend/dist/server.js:176-200 | one vote_response logged and the candidate's tally and promotion applied |
| DemoServer.Server.TallyResponse | backend/dist/server.js:180-191 | the candidate's tally and promotion, keeping (cluster, id) pairs unique |
| DemoServer.Server.CountAlive | backend/dist/server.js:183 | the number of alive records, over all clusters |
| DemoServer.Server.AddLogEntry | backend/dist/server.js:210-245 | no change and an error without an alive leader; otherwise one entry {term, index = len, uncommitted} on the first alive leader and one append_entries to each other alive record |
| DemoServer.Server.DeliverAppendResponse | backend/dist/server.js:225-237 | one response logged; on success the follower appends a copy of the entry, otherwise nothing changes |
| DemoServer.Server.NodeFailure | backend/dist/server.js:251-266 | the first record with the id is down, a follower with no vote and 0 votes; an unknown id changes nothing |
| DemoServer.Server.NodeRestart | backend/dist/server.js:267-287 | the first record with the id is up, a follower at term 0 with an empty log and commitIndex = lastApplied = -1 |
| DemoServer.Server.NetworkPartition | backend/dist/server.js:288-300 | the first record with the id has its partition flag flipped; an unknown id changes nothing |
| DemoServer.Server.HeartbeatTick | backend/dist/server.js:320-337 | the tick logs exactly the heartbeat messages of every alive leader |
| DemoServer.Server.LeaderHeartbeats | backend/dist/server.js:323-329 | one record's share of the tick: its heartbeats if it is an alive leader, none otherwise |
| DemoServer.Server.Heartbeats | backend/dist/server.js:324-328 | the inner loop yields one leader's heartbeats in array order |
| AppSimulation.VotingNodes | src/App.tsx:218 | the filter never grows the list |
| AppSimulation.VotingNodesMembers | src/App.tsx:218 | the filter keeps exactly the alive, unpartitioned nodes |
| AppSimulation.VotingNodesSameLiveness | src/App.tsx:422 | lists agreeing on liveness and partitioning have filters of the same size |
| AppSimulation.VotingNodesOfVoting | src/App.tsx:428 | filtering an already-filtered list changes nothing |
| AppSimulation.ValidateElectionMeaning | src/App.tsx:214-222 | elected iff the candidate is present, alive and holds a strict majority of the alive unpartitioned nodes |
| AppSimulation.ReplicateLogEntryEffect | src/App.tsx:224-240 | nothing changes when the leader is missing or not a leader; otherwise length and leader unchanged, a node changes only by gaining the entry, only if alive, unpartitioned, not the leader and its draw succeeded, and every such node gains it |
| AppSimulation.Electables | src/App.tsx:391 | exactly the alive, unpartitioned followers |
| AppSimulation.PickIndex | src/App.tsx:394 | floor(r * len) is a valid position |
| AppSimulation.StartElectionEffect | src/App.tsx:390-411 | no change without an electable follower; otherwise the candidate is one, at a term above all others with 1 vote for itself; leaders step down keeping their term; every other node gets the new term and no vote |
| AppSimulation.StartElectionNewTerm | src/App.tsx:394-410 | the candidate's records and every node that did not lead all take one term, newTerm = the largest old term + 1 |
| AppSimulation.CountTrue | src/App.tsx:423 | the number of successful draws is at most the number of draws |
| AppSimulation.OneVoteNeverElects | src/App.tsx:214-222 | with two or more alive unpartitioned nodes a stored tally of 1 is no majority |
| AppSimulation.ElectionIgnoresDraws | src/App.tsx:422-433 | the roles after the vote phase do not depend on the drawn votes |
| AppSimulation.OneVoteEndsFollower | src/App.tsx:425-434 | a candidate with a stored tally of 1 ends as follower when two or more nodes vote |
| AppSimulation.ElectionNeverSucceeds | src/App.tsx:390-441 | an election whose vote phase runs on the list it produced never elects once two nodes are alive and unpartitioned |
| AppSimulation.AddLogEntryEffect | src/App.tsx:444-462 | no change iff there is no alive leader; otherwise the first alive leader in the list (no alive leader before it) has its records gain {term, index = len, uncommitted}, and nothing else changes |
| AppSimulation.CommitMonotone | src/App.tsx:472-492 | below the threshold nothing changes; logs keep length, indices and terms; nothing is un-committed and no commitIndex falls; at the threshold exactly the matching entries become committed and every commitIndex becomes max(commitIndex, entry index) |
| AppSimulation.CommitOverreaches | src/App.tsx:487 | a node whose log is shorter than the entry's index is left with commitIndex beyond its log |
| AppSimulation.WithoutId | src/App.tsx:530 | the filter never grows the list |
| AppSimulation.WithoutIdMembers | src/App.tsx:530 | exactly the records with another id remain |
| AppSimulation.WithoutIdCount | src/App.tsx:501-530 | with unique ids, removing a present id drops one record and an absent one drops none |
| AppSimulation.RemoveEffect | src/App.tsx:501-502 | remove drops exactly the records with the id |
| AppSimulation.FailEffect | src/App.tsx:503-509 | fail: down, follower, 0 votes, term and vote kept; other records unchanged |
| AppSimulation.RestartEffect | src/App.tsx:510-519 | restart: the record becomes up, unpartitioned, a follower with no vote and 0 votes at term Math.max(...terms, 0), log kept; other records unchanged |
| AppSimulation.PartitionTwiceAndOther | src/App.tsx:520-523 | partition twice restores the list; an unknown action changes nothing |
| AppSimulation.FollowUpUndoesFailure | src/App.tsx:533-538 | the follow-up election after failing a leader runs on the list from before the failure: with a candidate, the failed leader is written back alive, stepped down to follower; without one, the failed list stays |
| RaftSlice.DerivedLeaderMeaning | frontend/src/store/slices/raftSlice.ts:64-68 | the leader shown is the id of the first alive leader when that id is non-empty; none when there is no alive leader or its id is empty |
| RaftSlice.UpsertEffect | frontend/src/store/slices/raftSlice.ts:69-76 | the node is found under its id, replacing the first match in place or appended; nothing else changes; unique ids stay unique; repeating is a no-op |
| RaftSlice.RaftStore.constructor | frontend/src/store/slices/raftSlice.ts:49-58 | the initial state: empty lists, term 0, no leader, cluster 'default', not connected |
| RaftSlice.RaftStore.SetNodes | frontend/src/store/slices/raftSlice.ts:64-68 | the list, with currentTerm = Math.max(...terms, 0) and the derived leader |
| RaftSlice.RaftStore.AddNode | frontend/src/store/slices/raftSlice.ts:69-76 | the upsert of the node |
| RaftSlice.RaftStore.UpdateNodePosition | frontend/src/store/slices/raftSlice.ts:77-82 | only the first matching node's position changes; a missing id changes nothing |
| RaftSlice.RaftStore.SetMessages | frontend/src/store/slices/raftSlice.ts:83-85 | only the message list is replaced |
| RaftSlice.RaftStore.AddMessage | frontend/src/store/slices/raftSlice.ts:86-91 | push then shift over 100: ends with the message and keeps a log within 100 |
| RaftSlice.RaftStore.SetSelectedNode | frontend/src/store/slices/raftSlice.ts:92-94 | only selectedNode is replaced |
| RaftSlice.RaftStore.SetSocket | frontend/src/store/slices/raftSlice.ts:95-97 | only socket is replaced |
| RaftSlice.RaftStore.SetConnected | frontend/src/store/slices/raftSlice.ts:98-100 | only connected is replaced |
| RaftSlice.RaftStore.SetClusterId | frontend/src/store/slices/raftSlice.ts:101-103 | only clusterId is replaced |
| ChaosSlice.MergeSettingsLaws | frontend/src/store/slices/chaosSlice.ts:43-45 | each supplied field takes the supplied value, the delay range as a pair; omitted ones are kept; re-applying is idempotent and an empty patch is the identity |
| ChaosSlice.ChaosStore.constructor | frontend/src/store/slices/chaosSlice.ts:26-37 | the initial settings, disabled, not running, no events |
| ChaosSlice.ChaosStore.UpdateConfig | frontend/src/store/slices/chaosSlice.ts:43-45 | only the settings change, by the merge |
| ChaosSlice.ChaosStore.SetRunning | frontend/src/store/slices/chaosSlice.ts:46-49 | isRunning and enabled both become the flag; other settings are kept |
| ChaosSlice.ChaosStore.AddEvent | frontend/src/store/slices/chaosSlice.ts:50-62 | the event first, the list cut to 100 |
| ChaosSlice.ChaosStore.ClearEvents | frontend/src/store/slices/chaosSlice.ts:63-65 | only the events are emptied |
| UiSlice.MarkFirstReadEffect | frontend/src/store/slices/uiSlice.ts:53-58 | only the first notification with the id becomes read; an absent id changes nothing; marking twice is marking once |
| UiSlice.UiStore.constructor | frontend/src/store/slices/uiSlice.ts:19-24 | sidebar open, nodes tab, dark theme, no notifications |
| UiSlice.UiStore.ToggleSidebar | frontend/src/store/slices/uiSlice.ts:30-32 | the sidebar flag flips, so two toggles restore it |
| UiSlice.UiStore.SetSelectedTab | frontend/src/store/slices/uiSlice.ts:33-35 | only the tab changes |
| UiSlice.UiStore.SetTheme | frontend/src/store/slices/uiSlice.ts:36-38 | only the theme changes |
| UiSlice.UiStore.AddNotification | frontend/src/store/slices/uiSlice.ts:39-52 | a new unread notification first, the list cut to 50 |
| UiSlice.UiStore.MarkNotificationRead | frontend/src/store/slices/uiSlice.ts:53-58 | the first notification with the id is marked read |
| UiSlice.UiStore.ClearNotifications | frontend/src/store/slices/uiSlice.ts:59-61 | only the notifications are emptied |
| RaftWorker.CountIf | frontend/src/workers/raftWorker.ts:37-39 | a filter's length is at most the list's |
| RaftWorker.CountIfZero | frontend/src/workers/raftWorker.ts:90 | a count of 0 means no node matches |
| RaftWorker.OnlyOneCounted | frontend/src/workers/raftWorker.ts:92 | a single matching node is counted once |
| RaftWorker.CountIfOne | frontend/src/workers/raftWorker.ts:92 | a count of 1 means exactly one node matches |
| RaftWorker.TwoAreCounted | frontend/src/workers/raftWorker.ts:100 | two matching nodes give a count of at least 2 |
| RaftWorker.TwoCountedMeansTwo | frontend/src/workers/raftWorker.ts:100 | a count of at least 2 means two distinct nodes match |
| RaftWorker.RoleCountsCoverAll | frontend/src/workers/raftWorker.ts:36-47 | leaderCount + followerCount + candidateCount = number of nodes |
| RaftWorker.ProcessLogEntriesEffect | frontend/src/workers/raftWorker.ts:60-72 | same entries in order; committed iff position <= commitIndex; consistent iff validateLogConsistency holds; all committed iff len-1 <= commitIndex |
| RaftWorker.AllConsistentMeansOrdered | frontend/src/workers/raftWorker.ts:131-136 | consistent everywhere means indices count up by one from the first and terms never decrease |
| RaftWorker.OrderedMeansAllConsistent | frontend/src/workers/raftWorker.ts:131-136 | a log numbered from 0 with non-decreasing terms is consistent everywhere |
| RaftWorker.CountConsistentFull | frontend/src/workers/raftWorker.ts:140 | the consistent count equals the length iff every entry is consistent |
| RaftWorker.LogConsistency | frontend/src/workers/raftWorker.ts:138-143 | the consistency score lies in [0, 1] |
| RaftWorker.LogConsistencyIsOne | frontend/src/workers/raftWorker.ts:138-143 | the score is 1 iff every entry is consistent (an empty list scores 1) |
| RaftWorker.StrengthWithoutLeader | frontend/src/workers/raftWorker.ts:88-101 | 0.3 iff no alive node leads |
| RaftWorker.StrengthWithOneLeader | frontend/src/workers/raftWorker.ts:88-101 | 1 or 0.5 iff exactly one alive node leads; 1 iff besides the alive followers are at least floor(alive/2), which with the leader is a majority |
| RaftWorker.StrengthWithSplitBrain | frontend/src/workers/raftWorker.ts:88-101 | 0.1 iff two distinct alive nodes lead |

## Left out

- Timers and intervals. Every `setTimeout` and `setInterval` callback is a step the caller invokes: vote delivery, the election timer, the heartbeat interval, the chaos interval, and the demo server's delayed responses. Their delays and their interleaving are not modelled. The election-timer map records each armed timer by its duration.
- Randomness. Every `Math.random()` draw is a parameter: vote and append outcomes, the candidate pick, the chaos draws, timeouts and node positions. Probabilities are not reasoned about.
- Database awaits, `io.emit`, socket rooms and `logger` calls. Saved network messages are returned instead of stored. Database errors and the catch blocks are not modelled.
- Timestamps, `lastHeartbeat` and generated event and notification ids. An id is a parameter the caller supplies.
- HTTP plumbing. The health, node-list and message-list routes of the demo server, the controller and the error handler are not modelled. The message-list route only filters for display.
- Node creation in the back-end engine is done by the controller and is not part of this model. The engine starts from an existing collection whose nodeIds are unique, as the schema's unique index guarantees.
- Performance statistics, the worker's network health and random generators, the worker's message dispatch, and `formatBytes`/`formatUptime`.
- ChaosEngine.Chaos.Tick: the fault simulators only log, so a tick returns the chosen action and changes no state. The logging itself is not modelled.
- The socket object of the raft slice is an opaque number.
- The one-second timer before `handleNodeAction`'s follow-up election is not modelled. `AppSimulation.FollowUpElection` is the step that runs when it fires.
- Floating-point arithmetic. Draws, rates and positions are exact reals. `Math.floor` is `.Floor`.
- AppSimulation.VotingNodes: its own contract only bounds the length. Which nodes it keeps is stated by `VotingNodesMembers`.
- RaftWorker.CountIf: its own contract only bounds the count. The counting facts are the lemmas beside it.
- RaftWorker.LogConsistency: only the range and the "equals 1" case are proved. The exact ratio is the function itself.
- AppSimulation.CountTrue: only the bound is stated. The count feeds `votes`, which `ElectionIgnoresDraws` shows does not decide the roles.
