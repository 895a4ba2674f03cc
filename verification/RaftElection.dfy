module RaftElection {
  // Raft leader election: the per-node handlers as a class, and the cluster as a
  // state machine in which every node's worker thread moves one critical section
  // at a time.
  //
  // A node's mutex is held by its own thread for the whole of its election, so a
  // peer can be asked for a vote, or be given a heartbeat, only while it is not
  // electing. Timeouts, shutdown and thread scheduling are the free choice of
  // which node moves next.

  import opened Options

  datatype Role = Follower | Candidate | Leader

  const NO_VOTE := -1

  datatype NodeState = NodeState(term: int, role: Role, votedFor: int)

  /** What a vote request does to the node that receives it, and its answer. */
  function OnRequestVote(n: NodeState, term: int, candidateId: int): (NodeState, bool)
  {
    if term < n.term then (n, false)
    else
      var m := if term > n.term then NodeState(term, Follower, NO_VOTE) else n;
      if m.votedFor == NO_VOTE || m.votedFor == candidateId
      then (m.(votedFor := candidateId), true)
      else (m, false)
  }

  /** What a heartbeat does to the node that receives it. */
  function OnHeartbeat(n: NodeState, term: int): NodeState
  {
    if term >= n.term then NodeState(term, Follower, NO_VOTE) else n
  }

  // ---------------------------------------------------------------- the node

  class RaftNode {
    const nodeId: int
    var currTerm: int
    var state: Role
    var votedFor: int

    function View(): NodeState
      reads this
    {
      NodeState(currTerm, state, votedFor)
    }

    constructor (id: int)
      ensures nodeId == id && View() == NodeState(0, Follower, NO_VOTE)
    {
      nodeId, currTerm, state, votedFor := id, 0, Follower, NO_VOTE;
    }

    method RequestVote(term: int, candidateId: int) returns (granted: bool)
      modifies this
      ensures (View(), granted) == OnRequestVote(old(View()), term, candidateId)
      ensures granted <==>
              || term > old(currTerm)
              || (term == old(currTerm) && (old(votedFor) == NO_VOTE || old(votedFor) == candidateId))
      ensures granted <==> currTerm == term && votedFor == candidateId
      ensures currTerm == (if term > old(currTerm) then term else old(currTerm))
      ensures state == (if term > old(currTerm) then Follower else old(state))
      ensures !granted ==> currTerm == old(currTerm) && votedFor == old(votedFor)
    {
      if term < currTerm {
        return false;
      }
      if term > currTerm {
        currTerm, votedFor, state := term, NO_VOTE, Follower;
      }
      if votedFor == NO_VOTE || votedFor == candidateId {
        votedFor := candidateId;
        return true;
      }
      return false;
    }

    method ReceiveHeartbeat(received: int)
      modifies this
      ensures View() == OnHeartbeat(old(View()), received)
      ensures received < old(currTerm) ==> View() == old(View())
      ensures received >= old(currTerm) ==> currTerm == received && state == Follower && votedFor == NO_VOTE
    {
      if received >= currTerm {
        currTerm, state, votedFor := received, Follower, NO_VOTE;
      }
    }

    method BecomeLeader()
      modifies this
      ensures View() == old(View()).(role := Leader)
    {
      state := Leader;
    }

    /** The loop of startElection: ask every peer but oneself and count the grants. */
    method CollectVotes(peers: seq<RaftNode>, me: nat, ghost views: seq<NodeState>) returns (votes: nat)
      requires me < |peers| == |views| && peers[me] == this
      requires forall i, j :: 0 <= i < j < |peers| ==> peers[i] != peers[j]
      requires forall i :: 0 <= i < |peers| && i != me ==> peers[i].View() == views[i]
      modifies set p | p in peers && p != this
      ensures forall i :: 0 <= i < |peers| && i != me ==>
                peers[i].View() == OnRequestVote(views[i], currTerm, nodeId).0
      ensures votes == 1 + Grants(views, me, currTerm, nodeId)
    {
      votes := 1;
      for k := 0 to |peers|
        invariant forall i :: 0 <= i < k && i != me ==>
                    peers[i].View() == OnRequestVote(views[i], currTerm, nodeId).0
        invariant forall i :: k <= i < |peers| && i != me ==> peers[i].View() == views[i]
        invariant votes == 1 + Grants(views[..k], me, currTerm, nodeId)
      {
        GrantsGrow(views, k, me, currTerm, nodeId);
        if peers[k] != this {
          var granted := peers[k].RequestVote(currTerm, nodeId);
          if granted {
            votes := votes + 1;
          }
        }
      }
      assert views[..|peers|] == views;
    }

    /** One election in which no other thread interferes: every peer has answered
        the request for the new term, and the node leads exactly on a majority. */
    method StartElection(peers: seq<RaftNode>, me: nat)
      requires me < |peers| && peers[me] == this
      requires forall i, j :: 0 <= i < j < |peers| ==> peers[i] != peers[j]
      modifies peers
      ensures forall i :: 0 <= i < |peers| && i != me ==>
                peers[i].View() == OnRequestVote(old(peers[i].View()), old(currTerm) + 1, nodeId).0
      ensures var views := old(Views(peers));
              View() == NodeState(views[me].term + 1,
                                  if 1 + Grants(views, me, views[me].term + 1, nodeId) > |peers| / 2
                                  then Leader else Candidate,
                                  nodeId)
    {
      ghost var views := Views(peers);
      state := Candidate;
      currTerm := currTerm + 1;
      votedFor := nodeId;
      var votes := CollectVotes(peers, me, views);
      if votes > |peers| / 2 {
        BecomeLeader();
      }
    }
  }

  ghost function Views(nodes: seq<RaftNode>): (v: seq<NodeState>)
    reads nodes
    ensures |v| == |nodes|
    ensures forall i :: 0 <= i < |nodes| ==> v[i] == nodes[i].View()
  {
    seq(|nodes|, i requires 0 <= i < |nodes| reads nodes => nodes[i].View())
  }

  /** How many nodes other than `me` would grant a vote. */
  function Grants(views: seq<NodeState>, me: nat, term: int, candidateId: int): nat
  {
    if views == [] then 0
    else
      var last := |views| - 1;
      Grants(views[..last], me, term, candidateId) +
      if last != me && OnRequestVote(views[last], term, candidateId).1 then 1 else 0
  }

  lemma GrantsGrow(views: seq<NodeState>, k: nat, me: nat, term: int, candidateId: int)
    requires k < |views|
    ensures Grants(views[..k + 1], me, term, candidateId) ==
            Grants(views[..k], me, term, candidateId) +
            if k != me && OnRequestVote(views[k], term, candidateId).1 then 1 else 0
  {
    assert views[..k + 1][..k] == views[..k];
  }

  // ------------------------------------------------------------- the cluster

  /** Where a node's worker thread stands. `Electing` is inside startElection with
      the node's own mutex held; `Beating` and `Sending` are inside sendHeartbeat,
      which takes no lock of its own. `Sending` has already read the term that the
      heartbeat will carry. */
  datatype Thread =
    | Idle
    | Electing(next: nat, votes: nat)
    | Beating(next: nat)
    | Sending(next: nat, term: int)

  datatype Election = Election(node: nat, term: int, won: bool)

  /** `elections` is history: the completed elections in order of completion. */
  datatype Cluster = Cluster(ids: seq<int>, nodes: seq<NodeState>, threads: seq<Thread>, elections: seq<Election>)

  predicate Shape(s: Cluster)
  {
    |s.ids| == |s.nodes| == |s.threads|
  }

  predicate Locked(s: Cluster, i: nat)
    requires Shape(s) && i < |s.nodes|
  {
    s.threads[i].Electing?
  }

  predicate Init(s: Cluster)
  {
    && Shape(s)
    && (forall i :: 0 <= i < |s.nodes| ==> s.nodes[i] == NodeState(0, Follower, NO_VOTE) && s.threads[i] == Idle)
    && s.elections == []
  }

  /** The thread of node c can take its next step: only the mutex of another node
      can hold it up. */
  predicate Enabled(s: Cluster, c: nat)
  {
    Shape(s) && c < |s.nodes| &&
    match s.threads[c]
    case Electing(k, _) => k < |s.nodes| && k != c ==> !Locked(s, k)
    case Sending(k, _) => k < |s.nodes| && !Locked(s, k)
    case _ => true
  }

  /** The next step of node c's thread. */
  function Move(s: Cluster, c: nat): Cluster
    requires Enabled(s, c)
  {
    var n := |s.nodes|;
    var me := s.nodes[c];
    match s.threads[c]
    case Idle =>
      if me.role == Leader then s.(threads := s.threads[c := Beating(0)])
      else s.(nodes := s.nodes[c := NodeState(me.term + 1, Candidate, s.ids[c])],
              threads := s.threads[c := Electing(0, 1)])
    case Electing(k, votes) =>
      if k >= n then
        var won := votes > n / 2;
        s.(nodes := s.nodes[c := if won then me.(role := Leader) else me],
           threads := s.threads[c := Idle],
           elections := s.elections + [Election(c, me.term, won)])
      else if k == c then s.(threads := s.threads[c := Electing(k + 1, votes)])
      else
        var (peer, granted) := OnRequestVote(s.nodes[k], me.term, s.ids[c]);
        s.(nodes := s.nodes[k := peer],
           threads := s.threads[c := Electing(k + 1, if granted then votes + 1 else votes)])
    case Beating(k) =>
      if k >= n then s.(threads := s.threads[c := Idle])
      else if k == c then s.(threads := s.threads[c := Beating(k + 1)])
      else s.(threads := s.threads[c := Sending(k, me.term)])
    case Sending(k, term) =>
      s.(nodes := s.nodes[k := OnHeartbeat(s.nodes[k], term)],
         threads := s.threads[c := Beating(k + 1)])
  }

  ghost predicate Next(s: Cluster, s': Cluster)
  {
    exists c: nat :: Enabled(s, c) && s' == Move(s, c)
  }

  /** Consecutive states of one interleaving, from any starting state. */
  ghost predicate Path(run: seq<Cluster>)
  {
    forall i :: 0 <= i < |run| - 1 ==> Next(run[i], run[i + 1])
  }

  ghost predicate Run(run: seq<Cluster>)
  {
    |run| > 0 && Init(run[0]) && Path(run)
  }

  // --------------------------------------------------------------- invariant

  /** p has a term of at least t, and a later one if it is itself electing. */
  predicate PastTerm(s: Cluster, p: nat, t: int)
    requires Shape(s) && p < |s.nodes|
  {
    s.nodes[p].term >= t && (Locked(s, p) ==> s.nodes[p].term > t)
  }

  /** Every peer that candidate c has already asked is past c's term. */
  ghost predicate AskedArePast(s: Cluster, c: nat)
    requires Shape(s) && c < |s.nodes|
  {
    s.threads[c].Electing? ==>
      && s.nodes[c].role == Candidate
      && forall p: nat :: p < |s.nodes| && p < s.threads[c].next && p != c ==> PastTerm(s, p, s.nodes[c].term)
  }

  ghost predicate FinishedArePast(s: Cluster)
    requires Shape(s)
  {
    forall e, p: nat :: 0 <= e < |s.elections| && p < |s.nodes| ==> PastTerm(s, p, s.elections[e].term)
  }

  ghost predicate Increasing(es: seq<Election>)
  {
    forall i, j :: 0 <= i < j < |es| ==> es[i].term < es[j].term
  }

  ghost predicate LeadersWon(s: Cluster)
    requires Shape(s)
  {
    forall p: nat :: p < |s.nodes| && s.nodes[p].role == Leader ==> Election(p, s.nodes[p].term, true) in s.elections
  }

  ghost predicate Inv(s: Cluster)
  {
    && Shape(s)
    && (forall c: nat :: c < |s.nodes| ==> AskedArePast(s, c))
    && FinishedArePast(s)
    && Increasing(s.elections)
    && LeadersWon(s)
  }

  /** Every step keeps the cluster, extends the history and lets no term fall. */
  lemma MoveIsMonotone(s: Cluster, c: nat)
    requires Enabled(s, c)
    ensures var s' := Move(s, c);
            && Shape(s') && |s'.nodes| == |s.nodes| && s'.ids == s.ids
            && s.elections <= s'.elections
            && forall p: nat :: p < |s.nodes| ==> s.nodes[p].term <= s'.nodes[p].term
  {
  }

  lemma MoveKeepsAsked(s: Cluster, c: nat, d: nat)
    requires Inv(s) && Enabled(s, c) && d < |s.nodes|
    ensures AskedArePast(Move(s, c), d)
  {
    assert AskedArePast(s, c) && AskedArePast(s, d);
    var s' := Move(s, c);
    if s'.threads[d].Electing? {
      forall p: nat | p < |s.nodes| && p < s'.threads[d].next && p != d
        ensures PastTerm(s', p, s'.nodes[d].term)
      {
        if p < s.threads[d].next && s.threads[d].Electing? {
          assert PastTerm(s, p, s.nodes[d].term);
        }
      }
    }
  }

  lemma MoveKeepsFinished(s: Cluster, c: nat)
    requires Inv(s) && Enabled(s, c)
    ensures FinishedArePast(Move(s, c)) && Increasing(Move(s, c).elections)
  {
    assert AskedArePast(s, c);
    var s' := Move(s, c);
    forall e, p: nat | 0 <= e < |s'.elections| && p < |s.nodes|
      ensures PastTerm(s', p, s'.elections[e].term)
    {
      if e < |s.elections| {
        assert PastTerm(s, p, s.elections[e].term);
      } else if p != c {
        assert PastTerm(s, p, s.nodes[c].term);
      }
    }
    forall e | 0 <= e < |s.elections| && s.threads[c].Electing?
      ensures s.elections[e].term < s.nodes[c].term
    {
      assert PastTerm(s, c, s.elections[e].term);
    }
  }

  lemma MoveKeepsLeaders(s: Cluster, c: nat)
    requires Inv(s) && Enabled(s, c)
    ensures LeadersWon(Move(s, c))
  {
    var s' := Move(s, c);
    forall p: nat | p < |s.nodes| && s'.nodes[p].role == Leader
      ensures Election(p, s'.nodes[p].term, true) in s'.elections
    {
      if s.nodes[p].role == Leader {
        assert s'.nodes[p].term == s.nodes[p].term;
      } else {
        assert p == c && s'.elections[|s.elections|] == Election(c, s.nodes[c].term, true);
      }
    }
  }

  /** The invariant is kept by every step of every interleaving. */
  lemma MoveKeepsInv(s: Cluster, c: nat)
    requires Inv(s) && Enabled(s, c)
    ensures Inv(Move(s, c))
  {
    MoveIsMonotone(s, c);
    forall d: nat | d < |s.nodes| ensures AskedArePast(Move(s, c), d) {
      MoveKeepsAsked(s, c, d);
    }
    MoveKeepsFinished(s, c);
    MoveKeepsLeaders(s, c);
  }

  lemma {:induction false} PathKeepsInv(run: seq<Cluster>, i: nat, j: nat)
    requires Path(run) && i <= j < |run| && Inv(run[i])
    ensures Inv(run[j]) && run[i].elections <= run[j].elections
    decreases j
  {
    if i < j {
      PathKeepsInv(run, i, j - 1);
      assert Next(run[j - 1], run[j - 1 + 1]);
      var c: nat :| Enabled(run[j - 1], c) && run[j] == Move(run[j - 1], c);
      MoveKeepsInv(run[j - 1], c);
      MoveIsMonotone(run[j - 1], c);
    }
  }

  // ---------------------------------------------------------------- theorems

  /** In every interleaving completed elections, and so winners, have strictly
      increasing terms, and each leader won the election of its current term. */
  lemma ElectionsAreOrdered(run: seq<Cluster>, i: nat)
    requires Run(run) && i < |run|
    ensures Shape(run[i]) && Increasing(run[i].elections) && LeadersWon(run[i])
  {
    PathKeepsInv(run, 0, i);
  }

  /** Election safety: two leaders of one term, seen at any two moments of any
      interleaving, are the same node. */
  lemma ElectionSafety(run: seq<Cluster>, i: nat, a: nat, j: nat, b: nat)
    requires Run(run) && i < |run| && j < |run|
    requires Shape(run[i]) && a < |run[i].nodes| && run[i].nodes[a].role == Leader
    requires Shape(run[j]) && b < |run[j].nodes| && run[j].nodes[b].role == Leader
    requires run[i].nodes[a].term == run[j].nodes[b].term
    ensures a == b
  {
    PathKeepsInv(run, 0, i);
    PathKeepsInv(run, 0, j);
    var last := if i <= j then j else i;
    PathKeepsInv(run, i, last);
    PathKeepsInv(run, j, last);
    var won := run[last].elections;
    assert Election(a, run[i].nodes[a].term, true) in run[i].elections;
    assert Election(b, run[j].nodes[b].term, true) in run[j].elections;
    var x :| 0 <= x < |won| && won[x] == Election(a, run[i].nodes[a].term, true);
    var y :| 0 <= y < |won| && won[y] == Election(b, run[j].nodes[b].term, true);
    assert !(x < y) && !(y < x);
  }

  /** a and b hold their own mutexes and each still has to ask the other. */
  predicate Crossed(s: Cluster, a: nat, b: nat)
  {
    && Shape(s) && a < |s.nodes| && b < |s.nodes| && a != b
    && s.threads[a].Electing? && s.threads[b].Electing?
    && s.threads[a].next <= b && s.threads[b].next <= a
  }

  lemma SameTermElectionsAreCrossed(s: Cluster, a: nat, b: nat)
    requires Inv(s) && a < |s.nodes| && b < |s.nodes| && a != b
    requires s.threads[a].Electing? && s.threads[b].Electing?
    requires s.nodes[a].term == s.nodes[b].term
    ensures Crossed(s, a, b)
  {
    assert AskedArePast(s, a) && AskedArePast(s, b);
    assert s.threads[a].next > b ==> PastTerm(s, b, s.nodes[a].term);
    assert s.threads[b].next > a ==> PastTerm(s, a, s.nodes[b].term);
  }

  lemma MoveKeepsCrossed(s: Cluster, c: nat, a: nat, b: nat)
    requires Crossed(s, a, b) && Enabled(s, c)
    ensures Crossed(Move(s, c), a, b)
    ensures Move(s, c).nodes[a] == s.nodes[a] && Move(s, c).nodes[b] == s.nodes[b]
  {
  }

  lemma {:induction false} CrossedForever(run: seq<Cluster>, i: nat, j: nat, a: nat, b: nat)
    requires Path(run) && i <= j < |run| && Crossed(run[i], a, b)
    ensures Crossed(run[j], a, b)
    ensures run[j].nodes[a] == run[i].nodes[a] && run[j].nodes[b] == run[i].nodes[b]
    decreases j
  {
    if i < j {
      CrossedForever(run, i, j - 1, a, b);
      assert Next(run[j - 1], run[j - 1 + 1]);
      var c: nat :| Enabled(run[j - 1], c) && run[j] == Move(run[j - 1], c);
      MoveKeepsCrossed(run[j - 1], c, a, b);
    }
  }

  /** Two elections that are under way for the same term block each other for
      good: from then on neither node ever leaves its election. */
  lemma SameTermElectionsNeverFinish(run: seq<Cluster>, i: nat, j: nat, a: nat, b: nat)
    requires Run(run) && i <= j < |run|
    requires Shape(run[i]) && a < |run[i].nodes| && b < |run[i].nodes| && a != b
    requires run[i].threads[a].Electing? && run[i].threads[b].Electing?
    requires run[i].nodes[a].term == run[i].nodes[b].term
    ensures Crossed(run[j], a, b)
    ensures run[j].nodes[a] == run[i].nodes[a] && run[j].nodes[b] == run[i].nodes[b]
  {
    PathKeepsInv(run, 0, i);
    SameTermElectionsAreCrossed(run[i], a, b);
    CrossedForever(run, i, j, a, b);
  }

  /** A vote already cast is taken back within its term by exactly one thing: the
      delivery of a heartbeat that carries that very term. */
  lemma VoteWithdrawnIffEqualTermHeartbeat(s: Cluster, c: nat, p: nat)
    requires Inv(s) && Enabled(s, c) && p < |s.nodes|
    requires s.nodes[p].votedFor != NO_VOTE
    requires Move(s, c).nodes[p].term == s.nodes[p].term
    ensures Move(s, c).nodes[p].votedFor != s.nodes[p].votedFor
       <==> s.threads[c] == Sending(p, s.nodes[p].term)
  {
  }

  /** Heartbeats go to other nodes of the cluster. */
  predicate SendsWithin(s: Cluster)
  {
    Shape(s) && forall c: nat :: c < |s.nodes| && s.threads[c].Sending? ==>
      s.threads[c].next < |s.nodes| && s.threads[c].next != c
  }

  lemma {:induction false} RunSendsWithin(run: seq<Cluster>, i: nat)
    requires Run(run) && i < |run|
    ensures SendsWithin(run[i])
  {
    if i > 0 {
      RunSendsWithin(run, i - 1);
      assert Next(run[i - 1], run[i - 1 + 1]);
    }
  }

  /** In every run only one thing ever holds a node's thread up: the mutex of another node
      that is in the middle of its own election. */
  lemma OnlyMutexesHoldUp(run: seq<Cluster>, i: nat, c: nat) returns (k: nat)
    requires Run(run) && i < |run| && Shape(run[i]) && c < |run[i].nodes| && !Enabled(run[i], c)
    ensures k < |run[i].nodes| && k != c && run[i].threads[k].Electing?
    ensures run[i].threads[c].Electing? || run[i].threads[c].Sending?
    ensures run[i].threads[c].next == k
  {
    RunSendsWithin(run, i);
    k := run[i].threads[c].next;
  }

  // ----------------------------------------------------- how elections are won

  /** The node stands in that term with its vote given to that candidate. */
  predicate HoldsVote(n: NodeState, term: int, candidateId: int)
  {
    n.term == term && n.votedFor == candidateId
  }

  /** A request is granted exactly if it is for a later term, or for the present one with
      the vote free or already given to that candidate; and exactly if the node then holds
      that vote. */
  lemma GrantedIff(n: NodeState, term: int, candidateId: int)
    ensures var (m, granted) := OnRequestVote(n, term, candidateId);
            && (granted <==>
                || term > n.term
                || (term == n.term && (n.votedFor == NO_VOTE || n.votedFor == candidateId)))
            && (granted <==> HoldsVote(m, term, candidateId))
            && (!granted ==> m == n)
  {
  }

  /** Between moments m and m + 1 of the run, candidate c, electing for the term, is done
      with node q. */
  predicate Asks(run: seq<Cluster>, m: nat, c: nat, q: nat, term: int)
  {
    && m + 1 < |run| && Shape(run[m]) && Shape(run[m + 1]) && |run[m].nodes| == |run[m + 1].nodes|
    && c < |run[m].nodes| && q < |run[m].nodes| && run[m].nodes[c].term == run[m + 1].nodes[c].term == term
    && run[m].threads[c].Electing? && run[m].threads[c].next == q
    && run[m + 1].threads[c].Electing? && run[m + 1].threads[c].next == q + 1
  }

  /** asked[q] is when c asked node q, one node after the other. */
  ghost predicate AskedInTurn(run: seq<Cluster>, asked: seq<nat>, c: nat, term: int, until: nat)
  {
    && (forall q :: 0 <= q < |asked| ==> asked[q] < until && Asks(run, asked[q], c, q, term))
    && forall p, q :: 0 <= p < q < |asked| ==> asked[p] < asked[q]
  }

  /** Those who held the candidate's vote at the moment they had been asked. */
  function Granters(run: seq<Cluster>, asked: seq<nat>, term: int, candidateId: int): set<nat>
    requires forall q :: 0 <= q < |asked| ==>
               asked[q] + 1 < |run| && q < |run[asked[q] + 1].nodes|
  {
    set q: nat | q < |asked| && HoldsVote(run[asked[q] + 1].nodes[q], term, candidateId)
  }

  lemma GrantersGrow(run: seq<Cluster>, asked: seq<nat>, m: nat, term: int, candidateId: int)
    requires forall q :: 0 <= q < |asked| ==>
               asked[q] + 1 < |run| && q < |run[asked[q] + 1].nodes|
    requires m + 1 < |run| && |asked| < |run[m + 1].nodes|
    ensures |Granters(run, asked + [m], term, candidateId)| ==
            |Granters(run, asked, term, candidateId)| +
            if HoldsVote(run[m + 1].nodes[|asked|], term, candidateId) then 1 else 0
  {
    var more := asked + [m];
    var holds := HoldsVote(run[m + 1].nodes[|asked|], term, candidateId);
    assert Granters(run, more, term, candidateId) ==
           Granters(run, asked, term, candidateId) + if holds then {|asked| as nat} else {};
  }

  /** While node c is electing: it has asked the nodes before the next one in turn, and its
      count is the number of those who granted, its own vote counted from the start. */
  ghost predicate CountedSoFar(run: seq<Cluster>, j: nat, c: nat, asked: seq<nat>)
    requires j < |run| && Shape(run[j]) && c < |run[j].nodes| && run[j].threads[c].Electing?
  {
    var term, id := run[j].nodes[c].term, run[j].ids[c];
    && |asked| == run[j].threads[c].next <= |run[j].nodes|
    && HoldsVote(run[j].nodes[c], term, id)
    && AskedInTurn(run, asked, c, term, j)
    && run[j].threads[c].votes == |Granters(run, asked, term, id)| + if |asked| <= c then 1 else 0
  }

  /** A step of another thread leaves an election as it is. */
  lemma OthersKeepCount(run: seq<Cluster>, j: nat, d: nat, c: nat, asked: seq<nat>)
    requires j + 1 < |run| && Enabled(run[j], d) && run[j + 1] == Move(run[j], d) && d != c
    requires c < |run[j].nodes| && run[j].threads[c].Electing? && CountedSoFar(run, j, c, asked)
    ensures Shape(run[j + 1]) && run[j + 1].threads[c].Electing? && CountedSoFar(run, j + 1, c, asked)
  {
    assert Locked(run[j], c);
    assert run[j + 1].nodes[c] == run[j].nodes[c] && run[j + 1].threads[c] == run[j].threads[c];
  }

  /** One request adds its answer to the count. */
  lemma RequestCounts(run: seq<Cluster>, j: nat, c: nat, asked: seq<nat>)
    requires j + 1 < |run| && Enabled(run[j], c) && run[j + 1] == Move(run[j], c)
    requires run[j].threads[c].Electing? && run[j + 1].threads[c].Electing? && CountedSoFar(run, j, c, asked)
    ensures Shape(run[j + 1]) && CountedSoFar(run, j + 1, c, asked + [j])
  {
    var term, id, k := run[j].nodes[c].term, run[j].ids[c], run[j].threads[c].next;
    GrantersGrow(run, asked, j, term, id);
    if k != c {
      GrantedIff(run[j].nodes[k], term, id);
    }
    assert Asks(run, j, c, k, term);
  }

  lemma ElectionBegins(s: Cluster, d: nat, c: nat)
    requires Enabled(s, d) && c < |s.nodes| && !s.threads[c].Electing? && Move(s, d).threads[c].Electing?
    ensures var s' := Move(s, d);
            d == c && s'.threads[c] == Electing(0, 1) && HoldsVote(s'.nodes[c], s'.nodes[c].term, s'.ids[c])
  {
  }

  lemma CountsFromNothing(run: seq<Cluster>, j: nat, c: nat)
    requires j < |run| && Shape(run[j]) && c < |run[j].nodes| && run[j].threads[c] == Electing(0, 1)
    requires HoldsVote(run[j].nodes[c], run[j].nodes[c].term, run[j].ids[c])
    ensures CountedSoFar(run, j, c, [])
  {
    assert Granters(run, [], run[j].nodes[c].term, run[j].ids[c]) == {};
  }

  lemma {:induction false} ElectionIsCounted(run: seq<Cluster>, j: nat, c: nat) returns (asked: seq<nat>)
    requires Run(run) && j < |run|
    requires Shape(run[j]) && c < |run[j].nodes| && run[j].threads[c].Electing?
    ensures CountedSoFar(run, j, c, asked)
    decreases j
  {
    assert j > 0;
    assert Next(run[j - 1], run[j - 1 + 1]);
    var d: nat :| Enabled(run[j - 1], d) && run[j] == Move(run[j - 1], d);
    if run[j - 1].threads[c].Electing? {
      asked := ElectionIsCounted(run, j - 1, c);
      if d == c {
        RequestCounts(run, j - 1, c, asked);
        asked := asked + [j - 1];
      } else {
        OthersKeepCount(run, j - 1, d, c, asked);
      }
    } else {
      asked := [];
      ElectionBegins(run[j - 1], d, c);
      CountsFromNothing(run, j, c);
    }
  }

  /** In every interleaving: a finished election had asked every node of the cluster, its
      own included, one after the other, and was won if and only if more than half of them
      stood in its term with their vote given to the candidate right after being asked. */
  lemma {:induction false} WonIffMajorityVoted(run: seq<Cluster>, j: nat, e: nat) returns (asked: seq<nat>)
    requires Run(run) && j < |run| && e < |run[j].elections|
    ensures var el := run[j].elections[e];
            && Shape(run[j]) && el.node < |run[j].nodes| == |asked|
            && AskedInTurn(run, asked, el.node, el.term, j)
            && (el.won <==> |Granters(run, asked, el.term, run[j].ids[el.node])| > |run[j].nodes| / 2)
    decreases j
  {
    assert j > 0;
    assert Next(run[j - 1], run[j - 1 + 1]);
    var d: nat :| Enabled(run[j - 1], d) && run[j] == Move(run[j - 1], d);
    if e < |run[j - 1].elections| {
      asked := WonIffMajorityVoted(run, j - 1, e);
      MoveIsMonotone(run[j - 1], d);
    } else {
      asked := ElectionIsCounted(run, j - 1, d);
    }
  }

  // ------------------------------------------- the class against the machine

  /** The cluster after node c alone has taken k steps. */
  ghost function Solo(s: Cluster, c: nat, k: nat): Option<Cluster>
  {
    if k == 0 then Some(s)
    else
      match Solo(s, c, k - 1)
      case None => None
      case Some(t) => if Enabled(t, c) then Some(Move(t, c)) else None
  }

  /** What k requests of an undisturbed election have done. */
  ghost predicate Asked(s: Cluster, c: nat, k: nat, t: Cluster)
    requires Shape(s) && c < |s.nodes| && k <= |s.nodes|
  {
    var term := s.nodes[c].term + 1;
    && Shape(t) && |t.nodes| == |s.nodes| && t.ids == s.ids && t.elections == s.elections
    && t.nodes[c] == NodeState(term, Candidate, s.ids[c])
    && t.threads == s.threads[c := Electing(k, 1 + Grants(s.nodes[..k], c, term, s.ids[c]))]
    && (forall i :: 0 <= i < k && i != c ==> t.nodes[i] == OnRequestVote(s.nodes[i], term, s.ids[c]).0)
    && (forall i :: k <= i < |s.nodes| && i != c ==> t.nodes[i] == s.nodes[i])
  }

  lemma AskOne(s: Cluster, c: nat, k: nat, t: Cluster)
    requires Shape(s) && c < |s.nodes| && k < |s.nodes|
    requires forall i: nat :: i < |s.nodes| ==> !Locked(s, i)
    requires Asked(s, c, k, t)
    ensures Enabled(t, c) && Asked(s, c, k + 1, Move(t, c))
  {
    assert !Locked(s, k);
    assert s.nodes[..k + 1][..k] == s.nodes[..k];
  }

  lemma {:induction false} SoloAsks(s: Cluster, c: nat, k: nat)
    requires Shape(s) && c < |s.nodes| && k <= |s.nodes|
    requires s.threads[c] == Idle && s.nodes[c].role != Leader
    requires forall i: nat :: i < |s.nodes| ==> !Locked(s, i)
    ensures Solo(s, c, k + 1).Some? && Asked(s, c, k, Solo(s, c, k + 1).value)
  {
    if k == 0 {
      assert Solo(s, c, 0) == Some(s);
    } else {
      SoloAsks(s, c, k - 1);
      AskOne(s, c, k - 1, Solo(s, c, k).value);
    }
  }

  /** What a whole election of node c, started in s and left undisturbed, has done. */
  ghost predicate Elected(s: Cluster, c: nat, t: Cluster)
    requires Shape(s) && c < |s.nodes|
  {
    var term := s.nodes[c].term + 1;
    var won := 1 + Grants(s.nodes, c, term, s.ids[c]) > |s.nodes| / 2;
    && Shape(t) && |t.nodes| == |s.nodes| && t.threads == s.threads
    && t.elections == s.elections + [Election(c, term, won)]
    && t.nodes[c] == NodeState(term, if won then Leader else Candidate, s.ids[c])
    && forall i :: 0 <= i < |s.nodes| && i != c ==> t.nodes[i] == OnRequestVote(s.nodes[i], term, s.ids[c]).0
  }

  lemma FinishElection(s: Cluster, c: nat, t: Cluster)
    requires Shape(s) && c < |s.nodes| && s.threads[c] == Idle && Asked(s, c, |s.nodes|, t)
    ensures Enabled(t, c) && Elected(s, c, Move(t, c))
  {
    assert s.nodes[..|s.nodes|] == s.nodes;
    assert t.threads[c := Idle] == s.threads;
  }

  /** Left undisturbed, a node's election in the cluster machine is exactly what
      RaftNode.StartElection promises. */
  lemma UndisturbedElection(s: Cluster, c: nat)
    requires Shape(s) && c < |s.nodes|
    requires s.threads[c] == Idle && s.nodes[c].role != Leader
    requires forall i: nat :: i < |s.nodes| ==> !Locked(s, i)
    ensures Solo(s, c, |s.nodes| + 2).Some? && Elected(s, c, Solo(s, c, |s.nodes| + 2).value)
  {
    SoloAsks(s, c, |s.nodes|);
    FinishElection(s, c, Solo(s, c, |s.nodes| + 1).value);
  }

  /** What an undisturbed round of heartbeats has done once it is about to turn to node k. */
  ghost predicate Beaten(s: Cluster, c: nat, k: nat, t: Cluster)
    requires Shape(s) && c < |s.nodes| && k <= |s.nodes|
  {
    && Shape(t) && |t.nodes| == |s.nodes| && t.ids == s.ids && t.elections == s.elections
    && t.threads == s.threads[c := Beating(k)]
    && (forall i :: 0 <= i < k && i != c ==> t.nodes[i] == OnHeartbeat(s.nodes[i], s.nodes[c].term))
    && (forall i :: k <= i < |s.nodes| || i == c ==> t.nodes[i] == s.nodes[i])
  }

  /** One more node is told the leader's term; the leader itself is skipped. */
  lemma BeatOne(s: Cluster, c: nat, k: nat, t: Cluster)
    requires Shape(s) && c < |s.nodes| && k < |s.nodes| && Beaten(s, c, k, t)
    requires forall i: nat :: i < |s.nodes| ==> !Locked(s, i)
    ensures Enabled(t, c)
    ensures k == c ==> Beaten(s, c, k + 1, Move(t, c))
    ensures k != c ==> Enabled(Move(t, c), c) && Beaten(s, c, k + 1, Move(Move(t, c), c))
  {
    assert !Locked(s, k);
  }

  /** How many steps of the leader it takes to get to node k. */
  function BeatSteps(c: nat, k: nat): nat
  {
    1 + if c < k then 2 * k - 1 else 2 * k
  }

  lemma {:induction false} SoloBeats(s: Cluster, c: nat, k: nat)
    requires Shape(s) && c < |s.nodes| && k <= |s.nodes|
    requires s.threads[c] == Idle && s.nodes[c].role == Leader
    requires forall i: nat :: i < |s.nodes| ==> !Locked(s, i)
    ensures Solo(s, c, BeatSteps(c, k)).Some? && Beaten(s, c, k, Solo(s, c, BeatSteps(c, k)).value)
  {
    if k == 0 {
      assert Solo(s, c, 0) == Some(s);
    } else {
      SoloBeats(s, c, k - 1);
      SoloBeatsOne(s, c, k - 1, BeatSteps(c, k - 1), BeatSteps(c, k));
    }
  }

  lemma SoloBeatsOne(s: Cluster, c: nat, k: nat, n: nat, m: nat)
    requires Shape(s) && c < |s.nodes| && k < |s.nodes|
    requires forall i: nat :: i < |s.nodes| ==> !Locked(s, i)
    requires Solo(s, c, n).Some? && Beaten(s, c, k, Solo(s, c, n).value)
    requires m == n + if k == c then 1 else 2
    ensures Solo(s, c, m).Some? && Beaten(s, c, k + 1, Solo(s, c, m).value)
  {
    var t := Solo(s, c, n).value;
    BeatOne(s, c, k, t);
    SoloStep(s, c, n, t);
    if k != c {
      SoloStep(s, c, n + 1, Move(t, c));
    }
  }

  lemma SoloStep(s: Cluster, c: nat, n: nat, t: Cluster)
    requires Solo(s, c, n) == Some(t) && Enabled(t, c)
    ensures Solo(s, c, n + 1) == Some(Move(t, c))
  {
  }

  /** Left undisturbed, a leader tells every other node its term once and is then idle
      again. */
  lemma UndisturbedHeartbeats(s: Cluster, c: nat)
    requires Shape(s) && c < |s.nodes|
    requires s.threads[c] == Idle && s.nodes[c].role == Leader
    requires forall i: nat :: i < |s.nodes| ==> !Locked(s, i)
    ensures var end := Solo(s, c, 2 * |s.nodes| + 1);
            && end.Some? && Shape(end.value) && |end.value.nodes| == |s.nodes|
            && end.value.threads == s.threads && end.value.elections == s.elections
            && end.value.nodes[c] == s.nodes[c]
            && forall i :: 0 <= i < |s.nodes| && i != c ==>
                 end.value.nodes[i] == OnHeartbeat(s.nodes[i], s.nodes[c].term)
  {
    SoloBeats(s, c, |s.nodes|);
    var t := Solo(s, c, 2 * |s.nodes|).value;
    SoloStep(s, c, 2 * |s.nodes|, t);
    assert t.threads[c := Idle] == s.threads;
  }

  // --------------------------------------------- one vote per term does not hold

  const FRESH := NodeState(0, Follower, NO_VOTE)
  const VOTED := NodeState(1, Follower, 1)

  /** Node 0 wins term 1 and enters its heartbeat loop. */
  const START := Cluster([1, 2, 3, 4], [FRESH, FRESH, FRESH, FRESH], [Idle, Idle, Idle, Idle], [])
  const S1 := START.(nodes := [NodeState(1, Candidate, 1), FRESH, FRESH, FRESH], threads := [Electing(0, 1), Idle, Idle, Idle])
  const S2 := S1.(threads := [Electing(1, 1), Idle, Idle, Idle])
  const S3 := S1.(nodes := [NodeState(1, Candidate, 1), VOTED, FRESH, FRESH], threads := [Electing(2, 2), Idle, Idle, Idle])
  const S4 := S1.(nodes := [NodeState(1, Candidate, 1), VOTED, VOTED, FRESH], threads := [Electing(3, 3), Idle, Idle, Idle])
  const S5 := S1.(nodes := [NodeState(1, Candidate, 1), VOTED, VOTED, VOTED], threads := [Electing(4, 4), Idle, Idle, Idle])
  const S6 := S1.(nodes := [NodeState(1, Leader, 1), VOTED, VOTED, VOTED], threads := [Idle, Idle, Idle, Idle], elections := [Election(0, 1, true)])
  const S7 := S6.(threads := [Beating(0), Idle, Idle, Idle])
  const S8 := S6.(threads := [Beating(1), Idle, Idle, Idle])
  /** Nodes 2 and 3 elect for term 2; node 2 asks nodes 0 and 1. */
  const S9 := S6.(nodes := [NodeState(1, Leader, 1), VOTED, NodeState(2, Candidate, 3), VOTED], threads := [Beating(1), Idle, Electing(0, 1), Idle])
  const S10 := S6.(nodes := [NodeState(1, Leader, 1), VOTED, NodeState(2, Candidate, 3), NodeState(2, Candidate, 4)],
                   threads := [Beating(1), Idle, Electing(0, 1), Electing(0, 1)])
  const S11 := S10.(nodes := [NodeState(2, Follower, 3), VOTED, NodeState(2, Candidate, 3), NodeState(2, Candidate, 4)],
                    threads := [Beating(1), Idle, Electing(1, 2), Electing(0, 1)])
  const S12 := S10.(nodes := [NodeState(2, Follower, 3), NodeState(2, Follower, 3), NodeState(2, Candidate, 3), NodeState(2, Candidate, 4)],
                    threads := [Beating(1), Idle, Electing(2, 3), Electing(0, 1)])
  /** Node 0 sends node 1 a heartbeat for term 2, and node 3 asks node 1. */
  const S13 := S12.(threads := [Sending(1, 2), Idle, Electing(2, 3), Electing(0, 1)])
  const S14 := S12.(nodes := [NodeState(2, Follower, 3), NodeState(2, Follower, NO_VOTE), NodeState(2, Candidate, 3), NodeState(2, Candidate, 4)],
                    threads := [Beating(2), Idle, Electing(2, 3), Electing(0, 1)])
  const S15 := S14.(threads := [Beating(2), Idle, Electing(2, 3), Electing(1, 1)])
  const S16 := S14.(nodes := [NodeState(2, Follower, 3), NodeState(2, Follower, 4), NodeState(2, Candidate, 3), NodeState(2, Candidate, 4)],
                    threads := [Beating(2), Idle, Electing(2, 3), Electing(2, 2)])

  lemma NodeZeroElects() returns (path: seq<Cluster>)
    ensures Path(path) && |path| == 5 && path[0] == START && path[4] == S4
  {
    assert Next(START, S1) by { assert Move(START, 0) == S1; }
    assert Next(S1, S2) by { assert Move(S1, 0) == S2; }
    assert Next(S2, S3) by { assert Move(S2, 0) == S3; }
    assert Next(S3, S4) by { assert Move(S3, 0) == S4; }
    path := [START, S1, S2, S3, S4];
  }

  lemma NodeZeroLeads() returns (path: seq<Cluster>)
    ensures Path(path) && |path| == 5 && path[0] == S4 && path[4] == S8
  {
    assert Next(S4, S5) by { assert Move(S4, 0) == S5; }
    assert Next(S5, S6) by { assert Move(S5, 0) == S6; }
    assert Next(S6, S7) by { assert Move(S6, 0) == S7; }
    assert Next(S7, S8) by { assert Move(S7, 0) == S8; }
    path := [S4, S5, S6, S7, S8];
  }

  lemma NodeOneVotes() returns (path: seq<Cluster>)
    ensures Path(path) && |path| == 5 && path[0] == S8 && path[4] == S12
  {
    assert Next(S8, S9) by { assert Move(S8, 2) == S9; }
    assert Next(S9, S10) by { assert Move(S9, 3) == S10; }
    assert Next(S10, S11) by { assert Move(S10, 2) == S11; }
    assert Next(S11, S12) by { assert Move(S11, 2) == S12; }
    path := [S8, S9, S10, S11, S12];
  }

  lemma NodeOneVotesAgain() returns (path: seq<Cluster>)
    ensures Path(path) && |path| == 5 && path[0] == S12 && path[4] == S16
  {
    assert Next(S12, S13) by { assert Move(S12, 0) == S13; }
    assert Next(S13, S14) by { assert Move(S13, 0) == S14; }
    assert Next(S14, S15) by { assert Move(S14, 3) == S15; }
    assert Next(S15, S16) by { assert Move(S15, 3) == S16; }
    path := [S12, S13, S14, S15, S16];
  }

  lemma PathsJoin(p: seq<Cluster>, q: seq<Cluster>)
    requires Path(p) && Path(q) && |p| > 0 && |q| > 0 && p[|p| - 1] == q[0]
    ensures Path(p + q[1..])
  {
    var r := p + q[1..];
    forall i | 0 <= i < |r| - 1 ensures Next(r[i], r[i + 1]) {
      if i < |p| - 1 {
        assert Next(p[i], p[i + 1]);
      } else {
        assert Next(q[i - |p| + 1], q[i - |p| + 1 + 1]);
      }
    }
  }

  /** Safety does not come from one vote per term: here node 1 votes for node 2
      (whose id is 3) and then, in the same term, for node 3 (whose id is 4). In
      between, node 0, deposed but still in its heartbeat loop, has sent it the new
      term. */
  lemma OneNodeVotesTwiceInOneTerm() returns (run: seq<Cluster>)
    ensures Run(run) && |run| == 17 && Shape(run[12]) && Shape(run[16]) && |run[12].nodes| == |run[16].nodes| == 4
    ensures run[12].nodes[1] == NodeState(2, Follower, 3)
    ensures run[16].nodes[1] == NodeState(2, Follower, 4)
  {
    var a := NodeZeroElects();
    var b := NodeZeroLeads();
    var c := NodeOneVotes();
    var d := NodeOneVotesAgain();
    PathsJoin(a, b);
    PathsJoin(a + b[1..], c);
    PathsJoin(a + b[1..] + c[1..], d);
    run := a + b[1..] + c[1..] + d[1..];
  }
}
