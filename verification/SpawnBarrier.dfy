/**
  The start-up of all servers, ring by ring, on any number of nodes (src/sbin/spawn/main.c), and
  the barrier between rings (src/sbin/spawn/barrier.c), as a transition system. Nodes and server
  threads take their steps in any order.

  Of the two syncs this is trusted: a signal on the all-to-one sync stays pending until the leader's
  wait, which needs and consumes one from every follower; a signal on the one-to-all sync releases
  every follower once. Every signal carries, for the statements below only, the round it was sent in.
 */
module SpawnBarrier {

  /** The ring of every server of every node, and the last ring that is spawned. Round `last + 1` is
      the barrier at shutdown. Node 0 is the leader. */
  datatype Config = Config(rings: seq<seq<int>>, last: nat)

  datatype Status = Absent | Starting | Ready

  /** Where a spawner stands: looking at server `i`, waiting for server `i` to be ready, in front of
      the barrier, between the two operations of the barrier, or past the last round. */
  datatype Place = Scan(i: nat) | Down(i: nat) | Barrier | Mid | Finished

  /** A node: its round, its place, its servers, the value of its start-up lock, the signals it has
      sent that the leader has not consumed, and the releases it has not consumed. */
  datatype Node = Node(round: nat, at: Place, servers: seq<Status>, lock: nat, sent: seq<nat>, releases: seq<nat>)

  type State = seq<Node>

  ghost predicate Initial(c: Config, s: State)
  {
    && |s| == |c.rings| > 0
    && forall n: nat | n < |s| ::
         && s[n].round == 0 && s[n].at == Scan(0) && s[n].lock == 0 && s[n].sent == [] && s[n].releases == []
         && |s[n].servers| == |c.rings[n]|
         && forall i: nat | i < |s[n].servers| :: s[n].servers[i] == Absent
  }

  // ----- steps

  /** What a node does after it has passed the barrier of a round. */
  function NextRound(c: Config, x: Node): Node
  {
    var r := x.round + 1;
    x.(round := r, at := if r <= c.last then Scan(0) else if r == c.last + 1 then Barrier else Finished)
  }

  /** One iteration of the loop over the servers, up to the thread creation. */
  predicate Look(c: Config, s: State, s': State, n: nat)
  {
    && n < |s| && n < |c.rings| && s[n].at.Scan?
    && var x, i := s[n], s[n].at.i;
    && s' == s[n :=
         if i >= |x.servers| || i >= |c.rings[n]| then x.(at := Barrier)
         else if c.rings[n][i] == x.round then x.(at := Down(i), servers := x.servers[i := Starting])
         else x.(at := Scan(i + 1))]
  }

  /** A started server raises the lock of its node. */
  predicate Rise(s: State, s': State, n: nat, i: nat)
  {
    && n < |s| && i < |s[n].servers| && s[n].servers[i] == Starting
    && s' == s[n := s[n].(servers := s[n].servers[i := Ready], lock := s[n].lock + 1)]
  }

  /** The spawner gets the lock and goes on to the next server. */
  predicate Pass(s: State, s': State, n: nat)
  {
    && n < |s| && s[n].at.Down? && s[n].lock > 0
    && s' == s[n := s[n].(at := Scan(s[n].at.i + 1), lock := s[n].lock - 1)]
  }

  /** A follower signals that it has arrived. */
  predicate Signal(s: State, s': State, n: nat)
  {
    && 0 < n < |s| && s[n].at == Barrier
    && s' == s[n := s[n].(at := Mid, sent := s[n].sent + [s[n].round])]
  }

  /** The leader has a signal from every follower and consumes one of each. */
  ghost predicate Collect(s: State, s': State)
  {
    && 0 < |s| && s[0].at == Barrier
    && (forall n: nat | 0 < n < |s| :: s[n].sent != [])
    && |s'| == |s|
    && s'[0] == s[0].(at := Mid)
    && forall n: nat | 0 < n < |s| :: s'[n] == s[n].(sent := s[n].sent[1..])
  }

  /** The leader releases every follower and goes on. */
  ghost predicate Release(c: Config, s: State, s': State)
  {
    && 0 < |s| && s[0].at == Mid
    && |s'| == |s|
    && s'[0] == NextRound(c, s[0])
    && forall n: nat | 0 < n < |s| :: s'[n] == s[n].(releases := s[n].releases + [s[0].round])
  }

  /** A follower is released and goes on. */
  predicate Leave(c: Config, s: State, s': State, n: nat)
  {
    && 0 < n < |s| && s[n].at == Mid && s[n].releases != []
    && s' == s[n := NextRound(c, s[n].(releases := s[n].releases[1..]))]
  }

  datatype Action =
    | DoLook(n: nat) | DoRise(n: nat, i: nat) | DoPass(n: nat)
    | DoSignal(n: nat) | DoCollect | DoRelease | DoLeave(n: nat)

  ghost predicate Step(c: Config, s: State, a: Action, s': State)
  {
    match a
    case DoLook(n) => Look(c, s, s', n)
    case DoRise(n, i) => Rise(s, s', n, i)
    case DoPass(n) => Pass(s, s', n)
    case DoSignal(n) => Signal(s, s', n)
    case DoCollect => Collect(s, s')
    case DoRelease => Release(c, s, s')
    case DoLeave(n) => Leave(c, s, s', n)
  }

  // ----- the invariant

  /** Servers of earlier rings are ready and those of later rings absent; within the round of the
      node, exactly those it has passed are ready. */
  predicate ServerOk(c: Config, x: Node, ring: int, i: nat, st: Status)
  {
    if ring < 0 || ring > c.last then st == Absent
    else if ring < x.round then st == Ready
    else if ring > x.round then st == Absent
    else match x.at
      case Scan(k) => st == if i < k then Ready else Absent
      case Down(k) => if i < k then st == Ready else if i > k then st == Absent else st != Absent
      case _ => st == Ready
  }

  /** The lock is raised exactly while the spawner waits for a server that is ready. */
  predicate LockOk(x: Node)
  {
    if x.at.Down? && x.at.i < |x.servers| && x.servers[x.at.i] == Ready then x.lock == 1 else x.lock == 0
  }

  predicate PlaceOk(c: Config, x: Node, rings: seq<int>)
  {
    && (x.at.Finished? <==> x.round > c.last + 1) && x.round <= c.last + 2
    && (x.round == c.last + 1 ==> x.at == Barrier || x.at == Mid)
    && (x.at.Scan? ==> x.at.i <= |rings|)
    && (x.at.Down? ==> x.at.i < |rings| && rings[x.at.i] == x.round)
  }

  ghost predicate NodeOk(c: Config, x: Node, rings: seq<int>)
  {
    && |x.servers| == |rings| && PlaceOk(c, x, rings) && LockOk(x)
    && forall i: nat | i < |rings| :: ServerOk(c, x, rings[i], i, x.servers[i])
  }

  /** Signals sent by a follower, and collected by the leader, so far. */
  function Arrivals(x: Node): nat { if x.at == Mid then x.round + 1 else x.round }

  /** A follower's pending signal is the one of the leader's round, and its pending release is the
      one of its own round; there is never more than one of either. */
  predicate SyncOk(leader: Node, x: Node)
  {
    && Arrivals(leader) <= Arrivals(x) <= Arrivals(leader) + 1
    && x.round <= leader.round <= x.round + 1
    && x.sent == (if Arrivals(x) == Arrivals(leader) then [] else [Arrivals(leader)])
    && x.releases == (if x.round == leader.round then [] else [x.round])
  }

  ghost predicate Inv(c: Config, s: State)
  {
    && |s| == |c.rings| > 0
    && (forall n: nat | n < |s| :: NodeOk(c, s[n], c.rings[n]))
    && (forall n: nat | 0 < n < |s| :: SyncOk(s[0], s[n]))
  }

  lemma InitInv(c: Config, s: State)
    requires Initial(c, s)
    ensures Inv(c, s)
  {}

  /** A step of one follower, or of the leader outside the barrier, that keeps arrivals and round. */
  lemma LocalStep(c: Config, s: State, n: nat, x': Node)
    requires Inv(c, s) && n < |s| && NodeOk(c, x', c.rings[n])
    requires Arrivals(x') == Arrivals(s[n]) && x'.round == s[n].round && x'.sent == s[n].sent && x'.releases == s[n].releases
    ensures Inv(c, s[n := x'])
  {
    var s' := s[n := x'];
    forall m: nat | 0 < m < |s'| ensures SyncOk(s'[0], s'[m]) { assert SyncOk(s[0], s[m]); }
  }

  lemma LookInv(c: Config, s: State, s': State, n: nat)
    requires Inv(c, s) && Look(c, s, s', n)
    ensures Inv(c, s')
  {
    assert NodeOk(c, s[n], c.rings[n]);
    LocalStep(c, s, n, s'[n]);
  }

  lemma RiseInv(c: Config, s: State, s': State, n: nat, i: nat)
    requires Inv(c, s) && Rise(s, s', n, i)
    ensures Inv(c, s')
  {
    var x := s[n];
    assert NodeOk(c, x, c.rings[n]) && ServerOk(c, x, c.rings[n][i], i, Starting);
    assert x.at == Down(i);
    LocalStep(c, s, n, s'[n]);
  }

  lemma PassInv(c: Config, s: State, s': State, n: nat)
    requires Inv(c, s) && Pass(s, s', n)
    ensures Inv(c, s')
  {
    assert NodeOk(c, s[n], c.rings[n]);
    LocalStep(c, s, n, s'[n]);
  }

  lemma SignalInv(c: Config, s: State, s': State, n: nat)
    requires Inv(c, s) && Signal(s, s', n)
    ensures Inv(c, s')
  {
    assert NodeOk(c, s[n], c.rings[n]) && NodeOk(c, s[0], c.rings[0]) && SyncOk(s[0], s[n]);
    assert NodeOk(c, s'[n], c.rings[n]);
    forall m: nat | 0 < m < |s'| ensures SyncOk(s'[0], s'[m]) { assert SyncOk(s[0], s[m]); }
  }

  lemma CollectInv(c: Config, s: State, s': State)
    requires Inv(c, s) && Collect(s, s')
    ensures Inv(c, s')
  {
    forall m: nat | m < |s'| ensures NodeOk(c, s'[m], c.rings[m]) { assert NodeOk(c, s[m], c.rings[m]); }
    forall m: nat | 0 < m < |s'| ensures SyncOk(s'[0], s'[m]) { assert SyncOk(s[0], s[m]); }
  }

  lemma NextRoundOk(c: Config, x: Node, rings: seq<int>)
    requires NodeOk(c, x, rings) && x.at == Mid
    ensures NodeOk(c, NextRound(c, x), rings)
  {
    var y := NextRound(c, x);
    forall i: nat | i < |rings| ensures ServerOk(c, y, rings[i], i, y.servers[i]) {
      assert ServerOk(c, x, rings[i], i, x.servers[i]);
    }
  }

  lemma ReleaseInv(c: Config, s: State, s': State)
    requires Inv(c, s) && Release(c, s, s')
    ensures Inv(c, s')
  {
    forall m: nat | m < |s'| ensures NodeOk(c, s'[m], c.rings[m]) {
      assert NodeOk(c, s[m], c.rings[m]);
      if m == 0 { NextRoundOk(c, s[0], c.rings[0]); }
    }
    forall m: nat | 0 < m < |s'| ensures SyncOk(s'[0], s'[m]) { assert SyncOk(s[0], s[m]); }
  }

  lemma LeaveInv(c: Config, s: State, s': State, n: nat)
    requires Inv(c, s) && Leave(c, s, s', n)
    ensures Inv(c, s')
  {
    assert NodeOk(c, s[n], c.rings[n]) && SyncOk(s[0], s[n]);
    NextRoundOk(c, s[n].(releases := s[n].releases[1..]), c.rings[n]);
    forall m: nat | 0 < m < |s'| ensures SyncOk(s'[0], s'[m]) { assert SyncOk(s[0], s[m]); }
  }

  lemma StepInv(c: Config, s: State, a: Action, s': State)
    requires Inv(c, s) && Step(c, s, a, s')
    ensures Inv(c, s')
  {
    match a
    case DoLook(n) => LookInv(c, s, s', n);
    case DoRise(n, i) => RiseInv(c, s, s', n, i);
    case DoPass(n) => PassInv(c, s, s', n);
    case DoSignal(n) => SignalInv(c, s, s', n);
    case DoCollect => CollectInv(c, s, s');
    case DoRelease => ReleaseInv(c, s, s');
    case DoLeave(n) => LeaveInv(c, s, s', n);
  }

  // ----- safety over whole runs

  /** A finite run: states and the actions between them. */
  datatype Run = Run(states: seq<State>, actions: seq<Action>)

  ghost predicate IsRun(c: Config, r: Run)
  {
    && |r.states| == |r.actions| + 1
    && Initial(c, r.states[0])
    && forall k: nat | k < |r.actions| :: Step(c, r.states[k], r.actions[k], r.states[k + 1])
  }

  lemma {:induction false} RunInv(c: Config, r: Run, k: nat)
    requires IsRun(c, r) && k < |r.states|
    ensures Inv(c, r.states[k])
  {
    if k == 0 {
      InitInv(c, r.states[0]);
    } else {
      RunInv(c, r, k - 1);
      StepInv(c, r.states[k - 1], r.actions[k - 1], r.states[k]);
    }
  }

  /** Node `n` is about to create server `i` when it looks at it. */
  predicate Creates(c: Config, s: State, n: nat, i: nat)
  {
    n < |s| && n < |c.rings| && i < |c.rings[n]| && s[n].at == Scan(i) && c.rings[n][i] == s[n].round
  }

  /** Every server of the rings before `ring`, on every node, has signalled that it is ready. */
  ghost predicate AllReadyBefore(c: Config, s: State, ring: int)
  {
    forall m: nat, j: nat | m < |s| && m < |c.rings| && j < |c.rings[m]| && 0 <= c.rings[m][j] < ring ::
      j < |s[m].servers| && s[m].servers[j] == Ready
  }

  lemma BehindReady(c: Config, s: State, n: nat)
    requires Inv(c, s) && n < |s| && s[n].round <= c.last
    ensures AllReadyBefore(c, s, s[n].round)
  {
    var r := s[n].round;
    assert n > 0 ==> SyncOk(s[0], s[n]);
    forall m: nat, j: nat | m < |s| && j < |c.rings[m]| && 0 <= c.rings[m][j] < r
      ensures j < |s[m].servers| && s[m].servers[j] == Ready
    {
      assert NodeOk(c, s[m], c.rings[m]) && ServerOk(c, s[m], c.rings[m][j], j, s[m].servers[j]);
      assert m > 0 ==> SyncOk(s[0], s[m]);
    }
  }

  /** Ring barrier safety: for any number of nodes, any rings and any interleaving, no spawner
      creates a server of a ring before every server of all earlier rings on every node is ready. */
  lemma RingSafety(c: Config, r: Run, k: nat, n: nat, i: nat)
    requires IsRun(c, r) && k < |r.actions| && r.actions[k] == DoLook(n) && Creates(c, r.states[k], n, i)
    ensures n < |r.states[k + 1]| && i < |r.states[k + 1][n].servers| && r.states[k + 1][n].servers[i] == Starting
    ensures AllReadyBefore(c, r.states[k], c.rings[n][i])
  {
    RunInv(c, r, k);
    assert Step(c, r.states[k], r.actions[k], r.states[k + 1]);
    assert NodeOk(c, r.states[k][n], c.rings[n]);
    BehindReady(c, r.states[k], n);
  }

  /** A server that exists was preceded by all servers of earlier rings. */
  lemma StartedAfter(c: Config, r: Run, k: nat, n: nat, i: nat)
    requires IsRun(c, r) && k < |r.states| && n < |r.states[k]| && i < |r.states[k][n].servers|
    requires r.states[k][n].servers[i] != Absent
    ensures n < |c.rings| && i < |c.rings[n]| && 0 <= c.rings[n][i] <= c.last
    ensures AllReadyBefore(c, r.states[k], c.rings[n][i])
  {
    var s := r.states[k];
    RunInv(c, r, k);
    assert NodeOk(c, s[n], c.rings[n]) && ServerOk(c, s[n], c.rings[n][i], i, s[n].servers[i]);
    forall m: nat, j: nat | m < |s| && j < |c.rings[m]| && 0 <= c.rings[m][j] < c.rings[n][i]
      ensures j < |s[m].servers| && s[m].servers[j] == Ready
    {
      assert n > 0 ==> SyncOk(s[0], s[n]);
      assert NodeOk(c, s[m], c.rings[m]) && ServerOk(c, s[m], c.rings[m][j], j, s[m].servers[j]);
      assert m > 0 ==> SyncOk(s[0], s[m]);
    }
  }

  /** The reused syncs never mix phases: what the leader collects was sent in its round, and what a
      follower is released by was sent in its round; nothing else is pending. */
  lemma PhasesApart(c: Config, r: Run, k: nat, n: nat)
    requires IsRun(c, r) && k < |r.actions| && 0 < n < |r.states[k]|
    ensures r.actions[k] == DoCollect ==> r.states[k][n].sent == [r.states[k][0].round]
    ensures r.actions[k] == DoLeave(n) ==> r.states[k][n].releases == [r.states[k][n].round]
    ensures |r.states[k][n].sent| <= 1 && |r.states[k][n].releases| <= 1
  {
    RunInv(c, r, k);
    assert SyncOk(r.states[k][0], r.states[k][n]);
    assert Step(c, r.states[k], r.actions[k], r.states[k + 1]);
  }

  // ----- progress

  predicate Over(s: State) { forall n: nat | n < |s| :: s[n].at == Finished }

  /** A step of the given action is possible. */
  ghost predicate Enabled(c: Config, s: State, a: Action) { exists s': State :: Step(c, s, a, s') }

  lemma CollectEnabled(c: Config, s: State)
    requires 0 < |s| && s[0].at == Barrier && forall n: nat | 0 < n < |s| :: s[n].sent != []
    ensures Enabled(c, s, DoCollect)
  {
    var s' := seq(|s|, n requires 0 <= n < |s| => if n == 0 then s[0].(at := Mid) else s[n].(sent := s[n].sent[1..]));
    assert Step(c, s, DoCollect, s');
  }

  lemma ReleaseEnabled(c: Config, s: State)
    requires 0 < |s| && s[0].at == Mid
    ensures Enabled(c, s, DoRelease)
  {
    var s' := seq(|s|, n requires 0 <= n < |s| =>
      if n == 0 then NextRound(c, s[0]) else s[n].(releases := s[n].releases + [s[0].round]));
    assert Step(c, s, DoRelease, s');
  }

  /** A node that is not at the barrier can move, or its server can. */
  lemma SpawningEnabled(c: Config, s: State, n: nat)
    requires Inv(c, s) && n < |s| && (s[n].at.Scan? || s[n].at.Down?)
    ensures exists a: Action :: Enabled(c, s, a)
  {
    var x := s[n];
    assert NodeOk(c, x, c.rings[n]);
    if x.at.Scan? {
      var i := x.at.i;
      assert Step(c, s, DoLook(n), s[n :=
         if i >= |x.servers| || i >= |c.rings[n]| then x.(at := Barrier)
         else if c.rings[n][i] == x.round then x.(at := Down(i), servers := x.servers[i := Starting])
         else x.(at := Scan(i + 1))]);
      assert Enabled(c, s, DoLook(n));
    } else {
      var i := x.at.i;
      assert ServerOk(c, x, c.rings[n][i], i, x.servers[i]);
      if x.servers[i] == Ready {
        assert Step(c, s, DoPass(n), s[n := x.(at := Scan(i + 1), lock := x.lock - 1)]);
        assert Enabled(c, s, DoPass(n));
      } else {
        assert Step(c, s, DoRise(n, i), s[n := x.(servers := x.servers[i := Ready], lock := x.lock + 1)]);
        assert Enabled(c, s, DoRise(n, i));
      }
    }
  }

  lemma FollowerEnabled(c: Config, s: State, n: nat)
    requires 0 < n < |s| && (s[n].at == Barrier || (s[n].at == Mid && s[n].releases != []))
    ensures exists a: Action :: Enabled(c, s, a)
  {
    if s[n].at == Barrier {
      assert Step(c, s, DoSignal(n), s[n := s[n].(at := Mid, sent := s[n].sent + [s[n].round])]);
      assert Enabled(c, s, DoSignal(n));
    } else {
      assert Step(c, s, DoLeave(n), s[n := NextRound(c, s[n].(releases := s[n].releases[1..]))]);
      assert Enabled(c, s, DoLeave(n));
    }
  }

  /** A follower that waits without a release has sent the signal the leader waits for. */
  lemma WaitingSent(c: Config, s: State, n: nat)
    requires Inv(c, s) && 0 < n < |s| && s[0].at == Barrier
    requires (s[n].at == Mid && s[n].releases == []) || s[n].at == Finished
    ensures s[n].sent != []
  {
    assert SyncOk(s[0], s[n]) && NodeOk(c, s[0], c.rings[0]) && NodeOk(c, s[n], c.rings[n]);
  }

  /** No reachable state is stuck before every node has finished. */
  lemma NoDeadlock(c: Config, s: State)
    requires Inv(c, s) && !Over(s)
    ensures exists a: Action :: Enabled(c, s, a)
  {
    if n: nat :| n < |s| && (s[n].at.Scan? || s[n].at.Down?) {
      SpawningEnabled(c, s, n);
    } else if n: nat :| 0 < n < |s| && (s[n].at == Barrier || (s[n].at == Mid && s[n].releases != [])) {
      FollowerEnabled(c, s, n);
    } else if s[0].at == Mid {
      ReleaseEnabled(c, s);
    } else if s[0].at == Barrier {
      forall n: nat | 0 < n < |s| ensures s[n].sent != [] { WaitingSent(c, s, n); }
      CollectEnabled(c, s);
    } else {
      LeaderDone(c, s);
      assert false;
    }
  }

  /** When the leader has finished and no follower can leave, all have finished. */
  lemma LeaderDone(c: Config, s: State)
    requires Inv(c, s) && s[0].at == Finished
    requires forall n: nat | 0 < n < |s| :: s[n].at == Finished || (s[n].at == Mid && s[n].releases == [])
    ensures Over(s)
  {
    forall n: nat | n < |s| ensures s[n].at == Finished {
      assert NodeOk(c, s[0], c.rings[0]) && NodeOk(c, s[n], c.rings[n]);
      assert n > 0 ==> SyncOk(s[0], s[n]);
    }
  }

  // ----- termination

  function Sum(w: seq<nat>): nat { if w == [] then 0 else w[0] + Sum(w[1..]) }

  lemma {:induction false} SumSmaller(w: seq<nat>, w': seq<nat>, n: nat)
    requires |w| == |w'| && n < |w| && w'[n] < w[n]
    requires forall m: nat | m < |w| && m != n :: w'[m] == w[m]
    ensures Sum(w') < Sum(w)
  {
    if n == 0 {
      assert w'[1..] == w[1..];
    } else {
      SumSmaller(w[1..], w'[1..], n - 1);
    }
  }

  /** Steps that `k` rounds over `servers` servers can take at most. */
  function Rounds(k: nat, servers: nat): nat { if k == 0 then 0 else 2 * servers + 3 + Rounds(k - 1, servers) }

  function Unready(servers: seq<Status>): nat
  {
    if servers == [] then 0 else (if servers[0] == Ready then 0 else 1) + Unready(servers[1..])
  }

  lemma {:induction false} UnreadyUpdate(servers: seq<Status>, i: nat, st: Status)
    requires i < |servers| && servers[i] != Ready
    ensures Unready(servers[i := st]) == Unready(servers) - if st == Ready then 1 else 0
  {
    if i == 0 {
      assert servers[0 := st][1..] == servers[1..];
    } else {
      assert servers[i := st][1..] == servers[1..][i - 1 := st];
      UnreadyUpdate(servers[1..], i - 1, st);
    }
  }

  /** How far a node is within its round. */
  function Progress(x: Node): nat
  {
    match x.at
    case Scan(i) => 2 * i
    case Down(i) => 2 * i + 1
    case Barrier => 2 * |x.servers| + 1
    case Mid => 2 * |x.servers| + 2
    case Finished => 0
  }

  /** What is left to do for a node and its servers. */
  function Left(c: Config, x: Node): int
  {
    Rounds(if x.round <= c.last + 2 then c.last + 2 - x.round else 0, |x.servers|) - Progress(x) + Unready(x.servers)
  }

  lemma LeftNatural(c: Config, x: Node, rings: seq<int>)
    requires NodeOk(c, x, rings)
    ensures Left(c, x) >= 0
  {}

  function Work(c: Config, x: Node): nat { if Left(c, x) >= 0 then Left(c, x) else 0 }

  function Weights(c: Config, s: State): (w: seq<nat>)
    ensures |w| == |s| && forall n: nat | n < |s| :: w[n] == Work(c, s[n])
  {
    seq(|s|, n requires 0 <= n < |s| => Work(c, s[n]))
  }

  /** The node whose work an action takes. */
  function Mover(a: Action): nat
  {
    match a
    case DoCollect => 0
    case DoRelease => 0
    case DoLook(n) => n
    case DoRise(n, _) => n
    case DoPass(n) => n
    case DoSignal(n) => n
    case DoLeave(n) => n
  }

  lemma MoverWorks(c: Config, s: State, a: Action, s': State)
    requires Inv(c, s) && Step(c, s, a, s')
    ensures Mover(a) < |s| == |s'| && Left(c, s'[Mover(a)]) < Left(c, s[Mover(a)])
  {
    var n := Mover(a);
    assert n < |s|;
    assert NodeOk(c, s[n], c.rings[n]);
    match a
    case DoLook(_) =>
      var i := s[n].at.i;
      if i < |s[n].servers| && c.rings[n][i] == s[n].round {
        assert ServerOk(c, s[n], c.rings[n][i], i, s[n].servers[i]);
        UnreadyUpdate(s[n].servers, i, Starting);
      }
    case DoRise(_, i) => UnreadyUpdate(s[n].servers, i, Ready);
    case _ =>
  }

  lemma OthersKeep(c: Config, s: State, a: Action, s': State, m: nat)
    requires Step(c, s, a, s') && m < |s| && m != Mover(a)
    ensures |s'| == |s| && Left(c, s'[m]) == Left(c, s[m])
  {}

  /** Every step takes from the work that is left. */
  lemma StepTakesWork(c: Config, s: State, a: Action, s': State)
    requires Inv(c, s) && Step(c, s, a, s')
    ensures Sum(Weights(c, s')) < Sum(Weights(c, s))
  {
    var n := Mover(a);
    StepInv(c, s, a, s');
    MoverWorks(c, s, a, s');
    forall m: nat | m < |s| ensures Left(c, s[m]) >= 0 && Left(c, s'[m]) >= 0 {
      LeftNatural(c, s[m], c.rings[m]);
      LeftNatural(c, s'[m], c.rings[m]);
    }
    forall m: nat | m < |s| && m != n ensures Work(c, s'[m]) == Work(c, s[m]) { OthersKeep(c, s, a, s', m); }
    SumSmaller(Weights(c, s), Weights(c, s'), n);
  }

  /** Every run is finite: it is no longer than the work there is at its start. */
  lemma {:induction false} RunsEnd(c: Config, r: Run, k: nat)
    requires IsRun(c, r) && k < |r.states|
    ensures k + Sum(Weights(c, r.states[k])) <= Sum(Weights(c, r.states[0]))
  {
    if k > 0 {
      RunsEnd(c, r, k - 1);
      RunInv(c, r, k - 1);
      StepTakesWork(c, r.states[k - 1], r.actions[k - 1], r.states[k]);
    }
  }

  /** A run that cannot be continued has started every server of every ring and ended everywhere. */
  lemma RunsComplete(c: Config, r: Run, n: nat, i: nat)
    requires IsRun(c, r) && (forall a: Action :: !Enabled(c, r.states[|r.actions|], a))
    requires n < |c.rings| && i < |c.rings[n]| && 0 <= c.rings[n][i] <= c.last
    ensures var s := r.states[|r.actions|];
      |s| == |c.rings| && Over(s) && i < |s[n].servers| && s[n].servers[i] == Ready
  {
    var s := r.states[|r.actions|];
    RunInv(c, r, |r.actions|);
    if !Over(s) { NoDeadlock(c, s); }
    assert NodeOk(c, s[n], c.rings[n]) && ServerOk(c, s[n], c.rings[n][i], i, s[n].servers[i]);
  }
}
